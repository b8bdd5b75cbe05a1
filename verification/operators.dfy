/** What the operators compute, in terms of the integers they are applied to; and which uses of them are errors. */
module Operators {
  import opened Bits
  import opened Machine
  import opened Expressions
  import opened ExactArithmetic
  import opened Stability

  /** The operand evaluates to the constant `x`. */
  predicate Known(env: Env, e: Expr, x: Word)
    requires env.Acyclic()
  {
    Eval(env, e).ok && Eval(env, e).ty == Absolute && Eval(env, e).Operand() == x
  }

  /** The operand evaluates to the label `x` bytes into section `section`. */
  predicate Located(env: Env, e: Expr, section: int, x: Word)
    requires env.Acyclic()
  {
    && Eval(env, e).ok && Eval(env, e).ty == Label && Eval(env, e).Operand() == x
    && env.SectionOf(BaseSymbol(env, e)) == section
  }

  /** The node succeeds as a constant and holds `v`. */
  predicate Yields(env: Env, e: Expr, v: int)
    requires env.Acyclic()
  {
    Eval(env, e).ok && Eval(env, e).ty == Absolute && Eval(env, e).value == v
  }

  /** Evaluating neither operand is an error. */
  predicate Clean(env: Env, l: Expr, r: Expr)
    requires env.Acyclic()
  {
    !Eval(env, l).error && !Eval(env, r).error
  }

  lemma ConstantPair(env: Env, l: Expr, op: BinaryOp, r: Expr, unset: int, x: Word, y: Word)
    requires env.Acyclic() && Known(env, l, x) && Known(env, r, y) && (op == Slash || op == Percent ==> y != 0)
    ensures var o, v := Eval(env, Binary(l, op, r, unset)), BinaryInt(op, x, y);
            && o.ok == FitsWord(v) && o.ty == Absolute && o.value == v
            && o.error == (!Clean(env, l, r) || (op == Add && !FitsWord(v)))
  {
    hide Eval, BaseSymbol, I32, Pow2, Bitwise, ShiftRight;
    EvalBinary(env, Binary(l, op, r, unset));
  }

  /** `x / y` is the quotient without its fraction, and division by zero is an error. */
  lemma QuotientLaw(env: Env, l: Expr, r: Expr, unset: int, x: Word, y: Word)
    requires env.Acyclic() && Known(env, l, x) && Known(env, r, y)
    ensures var o := Eval(env, Binary(l, Slash, r, unset));
            if y == 0 then !o.ok && o.error
            else
              && o.ok && o.ty == Absolute && o.error == !Clean(env, l, r)
              && o.value * y <= x < o.value * y + y
  {
    hide Eval, BaseSymbol;
    if y == 0 {
      EvalBinary(env, Binary(l, Slash, r, unset));
    } else {
      ConstantPair(env, l, Slash, r, unset, x, y);
      QuotientBound(x, y);
      assert x == x / y * y + x % y;
    }
  }

  /** `x % y` is what the quotient leaves. */
  lemma RemainderLaw(env: Env, l: Expr, r: Expr, unset: int, x: Word, y: Word)
    requires env.Acyclic() && Known(env, l, x) && Known(env, r, y)
    ensures var o := Eval(env, Binary(l, Percent, r, unset));
            if y == 0 then !o.ok && o.error
            else
              && o.ok && o.ty == Absolute && o.error == !Clean(env, l, r) && 0 <= o.value < y
              && exists k: nat :: x == k * y + o.value
  {
    hide Eval, BaseSymbol;
    if y == 0 {
      EvalBinary(env, Binary(l, Percent, r, unset));
    } else {
      ConstantPair(env, l, Percent, r, unset, x, y);
      assert x == x / y * y + x % y;
    }
  }

  /** `x * y`, which must be below 2^16. */
  lemma ProductLaw(env: Env, l: Expr, r: Expr, unset: int, x: Word, y: Word)
    requires env.Acyclic() && Known(env, l, x) && Known(env, r, y)
    ensures var o := Eval(env, Binary(l, Asterisk, r, unset));
            && o.error == !Clean(env, l, r) && (o.ok <==> x * y < 0x1_0000)
            && (o.ok ==> o.ty == Absolute && o.value == x * y)
  {
    hide Eval, BaseSymbol;
    ConstantPair(env, l, Asterisk, r, unset, x, y);
    ProductCheckExact(x, y);
  }

  /** `x << y` is `x` times 2^y cut to an `int`; for counts up to 16 it succeeds exactly below 2^16. */
  lemma ShiftLeftLaw(env: Env, l: Expr, r: Expr, unset: int, x: Word, y: Word)
    requires env.Acyclic() && Known(env, l, x) && Known(env, r, y) && y < 32
    ensures var o := Eval(env, Binary(l, LeftShift, r, unset));
            && o.error == !Clean(env, l, r) && o.ty == Absolute && -0x8000_0000 <= o.value < 0x8000_0000
            && (exists k: int :: o.value == x * Pow2(y) - k * 0x1_0000_0000)
            && (o.ok <==> -0x1_0000 < o.value < 0x1_0000)
            && (y <= 16 ==> (o.ok <==> x * Pow2(y) < 0x1_0000))
            && (y <= 16 && o.ok ==> o.value == x * Pow2(y))
  {
    hide Eval, BaseSymbol, Pow2;
    ConstantPair(env, l, LeftShift, r, unset, x, y);
    var z: int := x * Pow2(y);
    assert I32(z) == z - (z + 0x8000_0000) / 0x1_0000_0000 * 0x1_0000_0000;
    if y <= 16 { ShiftCheckExact(x, y); }
  }

  /** `x >> y` is `x` divided by 2^y. */
  lemma ShiftRightLaw(env: Env, l: Expr, r: Expr, unset: int, x: Word, y: Word)
    requires env.Acyclic() && Known(env, l, x) && Known(env, r, y) && y < 32
    ensures var o := Eval(env, Binary(l, RightShift, r, unset));
            && o.error == !Clean(env, l, r) && o.ok && o.ty == Absolute
            && 0 <= o.value && o.value * Pow2(y) <= x < o.value * Pow2(y) + Pow2(y)
  {
    hide Eval, BaseSymbol, Pow2, ShiftRight;
    ConstantPair(env, l, RightShift, r, unset, x, y);
    ShiftRightSplit(x, y);
    LowBitsMod(x, y);
  }

  /** The bitwise operators, bit by bit. */
  lemma BitsLaw(env: Env, l: Expr, op: BinaryOp, r: Expr, unset: int, x: Word, y: Word, i: nat)
    requires env.Acyclic() && Known(env, l, x) && Known(env, r, y)
    requires op == Ampersand || op == Pipe || op == Circumflex
    ensures var o := Eval(env, Binary(l, op, r, unset));
            && o.error == !Clean(env, l, r) && o.ok && o.ty == Absolute && o.value >= 0
            && (op == Ampersand ==> Bit(o.value, i) == (Bit(x, i) && Bit(y, i)))
            && (op == Pipe ==> Bit(o.value, i) == (Bit(x, i) || Bit(y, i)))
            && (op == Circumflex ==> Bit(o.value, i) == (Bit(x, i) != Bit(y, i)))
  {
    hide Eval, BaseSymbol, Bit, Bitwise;
    ConstantPair(env, l, op, r, unset, x, y);
    BitwiseWord(And, x, y);
    BitwiseWord(Or, x, y);
    BitwiseWord(Xor, x, y);
    BitwiseBit(And, x, y, i);
    BitwiseBit(Or, x, y, i);
    BitwiseBit(Xor, x, y, i);
  }

  /** `x && y` and `x || y` are 1 or 0. */
  lemma LogicLaw(env: Env, l: Expr, op: BinaryOp, r: Expr, unset: int, x: Word, y: Word)
    requires env.Acyclic() && Known(env, l, x) && Known(env, r, y)
    requires op == AmpersandAmpersand || op == PipePipe
    ensures var o := Eval(env, Binary(l, op, r, unset));
            && o.error == !Clean(env, l, r) && o.ok && o.ty == Absolute && (o.value == 0 || o.value == 1)
            && (op == AmpersandAmpersand ==> (o.value == 1 <==> x != 0 && y != 0))
            && (op == PipePipe ==> (o.value == 1 <==> x != 0 || y != 0))
  {
    hide Eval, BaseSymbol;
    ConstantPair(env, l, op, r, unset, x, y);
  }

  /** A sum of two constants: one of 2^16 or more is an error. */
  lemma SumLaw(env: Env, l: Expr, r: Expr, unset: int, x: Word, y: Word)
    requires env.Acyclic() && Known(env, l, x) && Known(env, r, y)
    ensures var o := Eval(env, Binary(l, Add, r, unset));
            && o.error == (!Clean(env, l, r) || x + y >= 0x1_0000) && (o.ok <==> x + y < 0x1_0000)
            && o.ty == Absolute && o.value == x + y
  {
    hide Eval, BaseSymbol;
    ConstantPair(env, l, Add, r, unset, x, y);
  }

  /** A difference of two constants, which may be negative. */
  lemma DifferenceLaw(env: Env, l: Expr, r: Expr, unset: int, x: Word, y: Word)
    requires env.Acyclic() && Known(env, l, x) && Known(env, r, y)
    ensures var o := Eval(env, Binary(l, Subtract, r, unset));
            o.error == !Clean(env, l, r) && o.ok && o.ty == Absolute && o.value == x as int - y as int
  {
    hide Eval, BaseSymbol;
    ConstantPair(env, l, Subtract, r, unset, x, y);
  }

  /** What a comparison of `x` and `y` says. */
  predicate Says(op: BinaryOp, v: int, x: Word, y: Word)
  {
    && (v == 0 || v == 1)
    && (op == Lesser ==> (v == 1 <==> x < y)) && (op == Greater ==> (v == 1 <==> x > y))
    && (op == LesserEqual ==> (v == 1 <==> x <= y)) && (op == GreaterEqual ==> (v == 1 <==> x >= y))
    && (op == EqualEqual ==> (v == 1 <==> x == y)) && (op == NotEqual ==> (v == 1 <==> x != y))
  }

  lemma ComparisonLaw(env: Env, l: Expr, op: BinaryOp, r: Expr, unset: int, x: Word, y: Word)
    requires env.Acyclic() && Known(env, l, x) && Known(env, r, y)
    requires op in {Lesser, Greater, LesserEqual, GreaterEqual, EqualEqual, NotEqual}
    ensures var o := Eval(env, Binary(l, op, r, unset));
            o.error == !Clean(env, l, r) && o.ok && o.ty == Absolute && Says(op, o.value, x, y)
  {
    hide Eval, BaseSymbol;
    ConstantPair(env, l, op, r, unset, x, y);
  }

  /** Two labels: of one section they can be subtracted and compared, by their offsets; anything else is an error. */
  lemma LabelPairLaw(env: Env, l: Expr, op: BinaryOp, r: Expr, unset: int, s: int, x: Word, t: int, y: Word)
    requires env.Acyclic() && Located(env, l, s, x) && Located(env, r, t, y)
    ensures var o := Eval(env, Binary(l, op, r, unset));
            if s == t && op in {Subtract, Lesser, Greater, LesserEqual, GreaterEqual, EqualEqual, NotEqual} then
              && o.error == !Clean(env, l, r) && o.ok && o.ty == Absolute
              && (if op == Subtract then o.value == x as int - y as int else Says(op, o.value, x, y))
            else !o.ok && o.error
  {
    hide Eval, BaseSymbol;
    EvalBinary(env, Binary(l, op, r, unset));
  }

  /** A label and a constant can be added, and subtracted either way, and are a label again; all else is an error. */
  lemma LabelConstantLaw(env: Env, l: Expr, op: BinaryOp, r: Expr, unset: int, s: int, x: Word, y: Word)
    requires env.Acyclic()
    requires (Located(env, l, s, x) && Known(env, r, y)) || (Known(env, l, x) && Located(env, r, s, y))
    ensures var e := Binary(l, op, r, unset);
            var o := Eval(env, e);
            if op == Add && x + y < 0x1_0000 then
              && o.error == !Clean(env, l, r) && o.ok && o.ty == Label && o.value == x + y
              && env.SectionOf(BaseSymbol(env, e)) == s
            else if op == Subtract then
              && o.error == !Clean(env, l, r) && o.ok && o.ty == Label && o.value == x as int - y as int
              && env.SectionOf(BaseSymbol(env, e)) == s
            else !o.ok && o.error
  {
    hide Eval;
    EvalBinary(env, Binary(l, op, r, unset));
    BinaryBase(env, l, op, r, unset);
    hide BaseSymbol;
  }

  /** The unary operators; none takes a label. */
  lemma UnaryLaw(env: Env, op: UnaryOp, e: Expr, unset: int, x: Word)
    requires env.Acyclic() && Known(env, e, x)
    ensures var o := Eval(env, Unary(op, e, unset));
            && o.error == Eval(env, e).error && o.ty == Absolute
            && (o.ok <==> !(op == Tilde && x == 0xFFFF))
            && (op == Plus ==> o.value == x) && (op == Minus ==> o.value + x == 0)
            && (op == Tilde ==> o.value + x + 1 == 0)
            && (op == Exclamation ==> (o.value == 0 || o.value == 1) && (o.value == 1 <==> x == 0))
  {
    hide Eval;
    EvalUnary(env, Unary(op, e, unset));
  }

  lemma UnaryLabelLaw(env: Env, op: UnaryOp, e: Expr, unset: int, s: int, x: Word)
    requires env.Acyclic() && Located(env, e, s, x)
    ensures !Eval(env, Unary(op, e, unset)).ok && Eval(env, Unary(op, e, unset)).error
  {
    hide Eval, BaseSymbol;
    EvalUnary(env, Unary(op, e, unset));
  }

  /** `c ? t : f` is `t` when `c` is not zero, and else `f`; a label is no condition. */
  lemma ConditionalLaw(env: Env, c: Expr, t: Expr, f: Expr, unset: int, x: Word)
    requires env.Acyclic() && Known(env, c, x)
    ensures var o, b := Eval(env, Conditional(c, t, f, unset)), Eval(env, if x != 0 then t else f);
            && o.error == (Eval(env, c).error || b.error) && o.ok == b.ok
            && (b.ok ==> o.ty == b.ty && o.value == b.Operand())
  {
    hide Eval;
    EvalConditional(env, Conditional(c, t, f, unset));
  }

  lemma ConditionalLabelLaw(env: Env, c: Expr, t: Expr, f: Expr, unset: int, s: int, x: Word)
    requires env.Acyclic() && Located(env, c, s, x)
    ensures !Eval(env, Conditional(c, t, f, unset)).ok && Eval(env, Conditional(c, t, f, unset)).error
  {
    hide Eval, BaseSymbol;
    EvalConditional(env, Conditional(c, t, f, unset));
  }

  /** A literal is its own value, cut to 16 bits where it is read; 2^16 or more in magnitude it does not evaluate. */
  lemma LiteralLaw(env: Env, v: int)
    requires env.Acyclic()
    ensures var o := Eval(env, Value(v));
            !o.error && (o.ok <==> -0x1_0000 < v < 0x1_0000) && (o.ok ==> Known(env, Value(v), v % 0x1_0000))
  {
  }

  /** A label is its offset in its section; a name without a definition is an error. */
  lemma NameLaw(env: Env, name: string, unset: int)
    requires env.Acyclic()
    ensures var e := Identifier(name, unset);
            && (name !in env.defs ==> !Eval(env, e).ok && Eval(env, e).error)
            && (name in env.defs && env.defs[name].LabelAt?
                ==> !Eval(env, e).error
                    && Located(env, e, env.defs[name].section, env.defs[name].offset % 0x1_0000))
  {
  }

  /** An `.equ` is its expression, cut to 16 bits; so is one that is only too big, as 100000 is. */
  lemma EquLaw(env: Env, name: string, unset: int)
    requires env.Acyclic() && name in env.defs && env.defs[name].Equ?
    ensures var o, d := Eval(env, Identifier(name, unset)), Eval(env, env.defs[name].expr);
            && o.error == d.error && (o.ok <==> d.ty != Invalid)
            && (o.ok ==> o.ty == d.ty && o.value == d.value % 0x1_0000)
  {
  }

  /** Parentheses change nothing. */
  lemma PriorityLaw(env: Env, e: Expr, unset: int)
    requires env.Acyclic()
    ensures var o, a := Eval(env, Priority(e, unset)), Eval(env, e);
            && o.error == a.error && o.ok == a.ok && o.ty == a.ty && (o.ok ==> o.value == a.value % 0x1_0000)
            && BaseSymbol(env, Priority(e, unset)) == BaseSymbol(env, e)
  {
  }

  /** Evaluating `e` evaluates `x`: a right operand only after the left one succeeded, one branch of a conditional,
      and the expression of an `.equ` by its name. */
  predicate Reaches(env: Env, e: Expr, x: Expr)
    requires env.Acyclic()
    decreases env.Height(e), e
  {
    || e == x
    || (match e
        case Value(_) => false
        case Identifier(name, _) =>
          name in env.defs && env.defs[name].Equ? && Reaches(env, env.defs[name].expr, x)
        case Priority(inner, _) => Reaches(env, inner, x)
        case Unary(_, y, _) => Reaches(env, y, x)
        case Binary(l, _, r, _) => Reaches(env, l, x) || (Eval(env, l).ok && Reaches(env, r, x))
        case Conditional(c, t, f, _) =>
          || Reaches(env, c, x)
          || (Eval(env, c).ok && Eval(env, c).ty == Absolute
              && Reaches(env, if Eval(env, c).Operand() != 0 then t else f, x)))
  }

  /** The node itself is an error: an unknown name, a label where there may be none, a division by zero, a sum of
      2^16 or more. */
  predicate Misused(env: Env, x: Expr)
    requires env.Acyclic()
  {
    match x
    case Value(_) => false
    case Identifier(name, _) => name !in env.defs
    case Priority(_, _) => false
    case Unary(_, y, _) => Eval(env, y).ok && Eval(env, y).ty == Label
    case Binary(l, op, r, _) =>
      var a, b := Eval(env, l), Eval(env, r);
      && a.ok && b.ok
      && (var sum := a.Operand() + b.Operand();
          if a.ty == Label && b.ty == Label then
            || op !in {Subtract, Lesser, Greater, LesserEqual, GreaterEqual, EqualEqual, NotEqual}
            || env.SectionOf(BaseSymbol(env, l)) != env.SectionOf(BaseSymbol(env, r))
          else if a.ty == Label || b.ty == Label then op != Subtract && !(op == Add && sum < 0x1_0000)
          else (op in {Slash, Percent} && b.Operand() == 0) || (op == Add && sum >= 0x1_0000))
    case Conditional(c, _, _, _) => Eval(env, c).ok && Eval(env, c).ty == Label
  }

  /** A binary node is an error if an operand that is evaluated is, or by itself. */
  lemma BinaryError(env: Env, l: Expr, op: BinaryOp, r: Expr, unset: int)
    requires env.Acyclic() && IntEnv(env) && IntLiterals(l) && IntLiterals(r)
    ensures var e := Binary(l, op, r, unset);
            Eval(env, e).error
            <==> Eval(env, l).error || (Eval(env, l).ok && Eval(env, r).error) || Misused(env, e)
  {
    hide Eval, BaseSymbol, IntEnv, IntLiterals, BinaryOutcome, FitsWord;
    EvalBinary(env, Binary(l, op, r, unset));
    var a, b := Eval(env, l), Eval(env, r);
    if a.ok && b.ok {
      EvalSane(env, l);
      EvalSane(env, r);
      PairError(op, a, b, env.SectionOf(BaseSymbol(env, l)) == env.SectionOf(BaseSymbol(env, r)), unset);
    }
  }

  lemma PairError(op: BinaryOp, a: Outcome, b: Outcome, same: bool, unset: int)
    requires a.ok && b.ok && a.ty in {Absolute, Label} && b.ty in {Absolute, Label}
    ensures BinaryOutcome(op, a, b, same, unset).error
            <==> if a.ty == Label && b.ty == Label then
                   !(same && op in {Subtract, Lesser, Greater, LesserEqual, GreaterEqual, EqualEqual, NotEqual})
                 else if a.ty == Label || b.ty == Label then
                   op != Subtract && !(op == Add && a.Operand() + b.Operand() < 0x1_0000)
                 else
                   || (op in {Slash, Percent} && b.Operand() == 0)
                   || (op == Add && a.Operand() + b.Operand() >= 0x1_0000)
  {
    hide BinaryInt, U16;
  }

  /** What is misused inside an expression makes the whole an error. */
  lemma {:induction false} MisuseSpreads(env: Env, e: Expr, x: Expr)
    requires env.Acyclic() && IntEnv(env) && IntLiterals(e) && Reaches(env, e, x) && Misused(env, x)
    ensures Eval(env, e).error
    decreases env.Height(e), e
  {
    hide Misused, BinaryOutcome, UnaryInt, FitsWord, BaseSymbol;
    match e {
      case Value(v) => MisusedHere(env, e, x);
      case Identifier(name, _) =>
        if e == x { MisusedHere(env, e, x); } else { MisuseSpreads(env, env.defs[name].expr, x); }
      case Priority(inner, _) => if e == x { MisusedHere(env, e, x); } else { MisuseSpreads(env, inner, x); }
      case Unary(_, y, _) => if e == x { MisusedHere(env, e, x); } else { MisuseSpreads(env, y, x); }
      case Binary(l, op, r, unset) =>
        BinaryError(env, l, op, r, unset);
        if e != x { if Reaches(env, l, x) { MisuseSpreads(env, l, x); } else { MisuseSpreads(env, r, x); } }
      case Conditional(c, t, f, _) =>
        if e == x {
          MisusedHere(env, e, x);
        } else if Reaches(env, c, x) {
          MisuseSpreads(env, c, x);
        } else {
          MisuseSpreads(env, if Eval(env, c).Operand() != 0 then t else f, x);
        }
    }
  }

  lemma MisusedHere(env: Env, e: Expr, x: Expr)
    requires env.Acyclic() && e == x && Misused(env, x) && !x.Binary?
    ensures Eval(env, e).error
  {
  }

  /** An expression that is an error has something misused in it. */
  lemma {:induction false} MisuseFound(env: Env, e: Expr) returns (x: Expr)
    requires env.Acyclic() && IntEnv(env) && IntLiterals(e) && Eval(env, e).error
    ensures Reaches(env, e, x) && Misused(env, x)
    decreases env.Height(e), e
  {
    hide BinaryOutcome, UnaryInt, FitsWord, BaseSymbol;
    x := e;
    match e {
      case Value(_) =>
      case Identifier(name, _) => if name in env.defs { x := MisuseFound(env, env.defs[name].expr); }
      case Priority(inner, _) => x := MisuseFound(env, inner);
      case Unary(_, y, _) => if Eval(env, y).error { x := MisuseFound(env, y); }
      case Binary(l, op, r, unset) =>
        BinaryError(env, l, op, r, unset);
        if Eval(env, l).error {
          x := MisuseFound(env, l);
        } else if Eval(env, l).ok && Eval(env, r).error {
          x := MisuseFound(env, r);
        }
      case Conditional(c, t, f, _) =>
        EvalSane(env, c);
        if Eval(env, c).error {
          x := MisuseFound(env, c);
        } else if Eval(env, c).ty == Absolute {
          x := MisuseFound(env, if Eval(env, c).Operand() != 0 then t else f);
        }
    }
  }

  /** Evaluating an expression is an error exactly when something that is evaluated on the way is misused. */
  lemma ErrorIff(env: Env, e: Expr)
    requires env.Acyclic() && IntEnv(env) && IntLiterals(e)
    ensures Eval(env, e).error <==> exists x :: Reaches(env, e, x) && Misused(env, x)
  {
    hide Eval, Reaches, Misused, IntEnv;
    if Eval(env, e).error { var x := MisuseFound(env, e); }
    if x :| Reaches(env, e, x) && Misused(env, x) { MisuseSpreads(env, e, x); }
  }
}
