/** Expressions are evaluated before the sections have addresses. Their results against the values
    the same expressions have once every section `s` is placed at `base(s)`. */
module Relocatable {
  import opened Machine
  import opened Expressions
  import opened ExactArithmetic

  /** Where each section starts, by section number. */
  type Layout = nat -> nat

  function TrueBinary(op: BinaryOp, x: Word, y: Word): Word
  {
    if (op == Slash || op == Percent) && y == 0 then 0 else U16(ExactInt(op, x, y))
  }

  /** The 16-bit value of an expression after placement: labels are addresses, operators exact. */
  function TrueValue(env: Env, base: Layout, e: Expr): (v: Word)
    requires env.Acyclic()
    decreases env.Height(e), e
  {
    match e
    case Value(v) => U16(v)
    case Identifier(name, _) =>
      if name !in env.defs then 0
      else
        (match env.defs[name]
         case LabelAt(section, offset) => U16(base(section) + offset)
         case Equ(_, x) => TrueValue(env, base, x))
    case Priority(inner, _) => TrueValue(env, base, inner)
    case Unary(op, x, _) => U16(UnaryInt(op, TrueValue(env, base, x)))
    case Binary(l, op, r, _) =>
      var x, y := TrueValue(env, base, l), TrueValue(env, base, r);
      TrueBinary(op, x, y)
    case Conditional(c, t, f, _) =>
      if TrueValue(env, base, c) != 0 then TrueValue(env, base, t) else TrueValue(env, base, f)
  }

  /** The address of the section a symbol belongs to. */
  function SymbolBase(env: Env, base: Layout, name: string): nat
  {
    if name in env.defs then base(env.defs[name].section) else 0
  }

  /** What the linker makes of an evaluated expression: a label result gets the base of its symbol's section. */
  function Relocated(env: Env, base: Layout, e: Expr): Word
    requires env.Acyclic()
  {
    var r := Eval(env, e);
    U16(r.value + if r.ty == Label then SymbolBase(env, base, BaseSymbol(env, e)) else 0)
  }

  /** Adding `b` carries both offsets over the top of the address space, or neither. */
  predicate WrapsAlike(b: nat, x: Word, y: Word)
  {
    x == y || (U16(b) + x < 0x1_0000 <==> U16(b) + y < 0x1_0000)
  }

  /** The three things a binary node may not do if its result is to survive placement. */
  predicate SafeOperands(env: Env, base: Layout, op: BinaryOp, a: Outcome, b: Outcome, left: string)
  {
    && ShiftInRange(op, b.Operand())
    && !(op == Subtract && a.ty == Absolute && b.ty == Label)
    && (IsOrdering(op) && a.ty == Label && b.ty == Label
        ==> WrapsAlike(SymbolBase(env, base, left), a.Operand(), b.Operand()))
  }

  predicate Safe(env: Env, base: Layout, e: Expr)
    requires env.Acyclic()
  {
    match e
    case Value(v) => IsInt(v)
    case Identifier(_, _) => true
    case Priority(inner, _) => Safe(env, base, inner)
    case Unary(_, x, _) => Safe(env, base, x)
    case Binary(l, op, r, _) => Safe(env, base, l) && Safe(env, base, r)
      && SafeOperands(env, base, op, Eval(env, l), Eval(env, r), BaseSymbol(env, l))
    case Conditional(c, t, f, _) => Safe(env, base, c) && Safe(env, base, t) && Safe(env, base, f)
  }

  /** Every `.equ` evaluates, and one that names a label stands in that label's section. */
  ghost predicate SafeEnv(env: Env, base: Layout)
    requires env.Acyclic()
  {
    forall name | name in env.defs && env.defs[name].Equ? ::
      var x := env.defs[name].expr;
      && Eval(env, x).ok && Safe(env, base, x)
      && (Eval(env, x).ty == Label ==> env.defs[name].section == env.SectionOf(BaseSymbol(env, x)))
  }

  lemma {:induction false} SafeIsInt(env: Env, base: Layout, e: Expr)
    requires env.Acyclic() && Safe(env, base, e)
    ensures IntLiterals(e)
    decreases e
  {
    match e {
      case Value(_) =>
      case Identifier(_, _) =>
      case Priority(inner, _) => SafeIsInt(env, base, inner);
      case Unary(_, x, _) => SafeIsInt(env, base, x);
      case Binary(l, _, r, _) => SafeIsInt(env, base, l); SafeIsInt(env, base, r);
      case Conditional(c, t, f, _) => SafeIsInt(env, base, c); SafeIsInt(env, base, t); SafeIsInt(env, base, f);
    }
  }

  lemma SafeEnvIsInt(env: Env, base: Layout)
    requires env.Acyclic() && SafeEnv(env, base)
    ensures IntEnv(env)
  {
    forall name | name in env.defs && env.defs[name].Equ? ensures IntLiterals(env.defs[name].expr) {
      SafeIsInt(env, base, env.defs[name].expr);
    }
  }

  lemma SumMod(x: int, y: int)
    ensures U16(U16(x) + y) == U16(x + y)
  {
  }

  lemma AddressCases(b: nat, x: Word)
    ensures U16(b + x) == if U16(b) + x < 0x1_0000 then U16(b) + x else U16(b) + x - 0x1_0000
  {
    SumMod(b, x);
  }

  /** Offsets compare as the addresses do exactly when both or neither wrap. */
  lemma OrderingShift(op: BinaryOp, b: nat, x: Word, y: Word)
    requires IsOrdering(op)
    ensures Compare(op, U16(b + x) - U16(b + y)) == Compare(op, x - y) <==> WrapsAlike(b, x, y)
  {
    AddressCases(b, x);
    AddressCases(b, y);
  }

  lemma EqualityShift(op: BinaryOp, b: nat, x: Word, y: Word)
    requires op == EqualEqual || op == NotEqual
    ensures Compare(op, U16(b + x) - U16(b + y)) == Compare(op, x - y)
  {
    AddressCases(b, x);
    AddressCases(b, y);
  }

  lemma DifferenceShift(b: nat, x: Word, y: Word)
    ensures U16(U16(b + x) - U16(b + y)) == U16(x - y)
  {
    AddressCases(b, x);
    AddressCases(b, y);
  }

  /** An outcome and its symbol stand for the true value `t`. */
  predicate Stands(env: Env, base: Layout, o: Outcome, symbol: string, t: Word)
  {
    && (o.ty == Label ==> symbol in env.defs)
    && t == U16(o.value + if o.ty == Label then SymbolBase(env, base, symbol) else 0)
  }

  lemma StandsIgnoresError(env: Env, base: Layout, o: Outcome, error: bool, symbol: string, t: Word)
    requires Stands(env, base, o, symbol, t)
    ensures Stands(env, base, o.Also(error), symbol, t)
  {
  }

  /** The parent's 16-bit reading of a value stands for the same thing. */
  lemma StandsTruncated(env: Env, base: Layout, o: Outcome, symbol: string, t: Word)
    requires Stands(env, base, o, symbol, t)
    ensures Stands(env, base, o.(value := o.Operand()), symbol, t)
  {
    if o.ty == Label { SumMod(o.value, SymbolBase(env, base, symbol)); }
  }

  /** The statement of soundness for one expression. */
  predicate Agrees(env: Env, base: Layout, e: Expr)
    requires env.Acyclic()
  {
    Stands(env, base, Eval(env, e), BaseSymbol(env, e), TrueValue(env, base, e))
  }

  /** What an operand contributes: its address if it is a label, else its own value. */
  lemma OperandStands(env: Env, base: Layout, o: Outcome, symbol: string, t: Word)
    requires Stands(env, base, o, symbol, t)
    ensures t == if o.ty == Label then U16(SymbolBase(env, base, symbol) + o.Operand()) else o.Operand()
  {
    SumMod(o.value, SymbolBase(env, base, symbol));
  }

  lemma AbsolutePair(op: BinaryOp, a: Outcome, b: Outcome, same: bool, unset: int)
    requires a.ty == Absolute && b.ty == Absolute && ShiftInRange(op, b.Operand())
    requires BinaryOutcome(op, a, b, same, unset).ok
    ensures BinaryOutcome(op, a, b, same, unset).ty == Absolute
    ensures (op == Slash || op == Percent) ==> b.Operand() != 0
    ensures BinaryOutcome(op, a, b, same, unset).value == ExactInt(op, a.Operand(), b.Operand())
  {
    BinaryNodeExact(op, a, b, same, unset);
  }

  /** The operators two labels of one section may meet. */
  function LabelPairInt(op: BinaryOp, difference: int): int
  {
    if op == Subtract then difference else Compare(op, difference)
  }

  lemma LabelPairShape(op: BinaryOp, a: Outcome, b: Outcome, same: bool, unset: int)
    requires a.ty == Label && b.ty == Label && BinaryOutcome(op, a, b, same, unset).ok
    ensures same && (op == Subtract || IsRelational(op))
    ensures BinaryOutcome(op, a, b, same, unset)
            == Outcome(true, Absolute, LabelPairInt(op, a.Operand() - b.Operand()), false)
  {
  }

  lemma TrueSum(x: Word, y: Word)
    ensures TrueBinary(Add, x, y) == U16(x + y) && TrueBinary(Subtract, x, y) == U16(x - y)
  {
  }

  lemma TrueComparison(op: BinaryOp, x: Word, y: Word)
    requires IsRelational(op)
    ensures TrueBinary(op, x, y) == U16(Compare(op, x - y))
  {
  }

  lemma LabelPairValue(op: BinaryOp, s: nat, x: Word, y: Word)
    requires op == Subtract || IsRelational(op)
    requires IsOrdering(op) ==> WrapsAlike(s, x, y)
    ensures U16(LabelPairInt(op, x - y)) == TrueBinary(op, U16(s + x), U16(s + y))
  {
    if op == Subtract {
      DifferenceShift(s, x, y);
      TrueSum(U16(s + x), U16(s + y));
    } else {
      TrueComparison(op, U16(s + x), U16(s + y));
      if IsOrdering(op) {
        OrderingShift(op, s, x, y);
      } else {
        EqualityShift(op, s, x, y);
      }
    }
  }

  lemma OffsetPairShape(op: BinaryOp, a: Outcome, b: Outcome, same: bool, unset: int)
    requires (a.ty == Absolute && b.ty == Label) || (a.ty == Label && b.ty == Absolute)
    requires BinaryOutcome(op, a, b, same, unset).ok
    ensures op == Add || op == Subtract
    ensures BinaryOutcome(op, a, b, same, unset)
            == Outcome(true, Label, if op == Add then a.Operand() + b.Operand() else a.Operand() - b.Operand(), false)
  {
  }

  lemma SumAddress(s: nat, x: Word, y: Word)
    ensures U16(U16(s + x) + y) == U16(x + y + s)
    ensures U16(U16(s + x) - y) == U16(x - y + s)
  {
    SumMod(s + x, y);
    SumMod(s + x, 0 - y);
  }

  lemma OffsetPairValue(op: BinaryOp, s: nat, x: Word, y: Word)
    requires op == Add || op == Subtract
    ensures TrueBinary(op, U16(s + x), y) == U16((if op == Add then x + y else x - y) + s)
    ensures op == Add ==> TrueBinary(op, x, U16(s + y)) == U16(x + y + s)
  {
    TrueSum(U16(s + x), y);
    TrueSum(x, U16(s + y));
    SumAddress(s, x, y);
    SumAddress(s, y, x);
  }

  lemma LabelPairStands(env: Env, base: Layout, op: BinaryOp,
                        a: Outcome, left: string, x: Word, b: Outcome, right: string, y: Word)
    requires a.ty == Label && b.ty == Label && (op == Subtract || IsRelational(op))
    requires Stands(env, base, a, left, x) && Stands(env, base, b, right, y)
    requires SafeOperands(env, base, op, a, b, left) && env.SectionOf(left) == env.SectionOf(right)
    ensures U16(LabelPairInt(op, a.Operand() - b.Operand())) == TrueBinary(op, x, y)
  {
    OperandStands(env, base, a, left, x);
    OperandStands(env, base, b, right, y);
    assert SymbolBase(env, base, right) == SymbolBase(env, base, left);
    var s := SymbolBase(env, base, left);
    var p, q := a.Operand(), b.Operand();
    assert x == U16(s + p);
    assert y == U16(s + q);
    assert TrueBinary(op, x, y) == TrueBinary(op, U16(s + p), U16(s + q));
    LabelPairValue(op, s, p, q);
  }

  lemma OffsetPairStands(env: Env, base: Layout, op: BinaryOp, unset: int,
                         a: Outcome, left: string, x: Word, b: Outcome, right: string, y: Word)
    requires (a.ty == Absolute && b.ty == Label) || (a.ty == Label && b.ty == Absolute)
    requires Stands(env, base, a, left, x) && Stands(env, base, b, right, y)
    requires SafeOperands(env, base, op, a, b, left)
    requires BinaryOutcome(op, a, b, env.SectionOf(left) == env.SectionOf(right), unset).ok
    ensures var r := BinaryOutcome(op, a, b, env.SectionOf(left) == env.SectionOf(right), unset);
            var symbol := if a.ty == Label then left else right;
            && r.ty == Label && BinarySymbol(op, a.ty, b.ty, left, right) == symbol
            && U16(r.value + SymbolBase(env, base, symbol)) == TrueBinary(op, x, y)
  {
    OperandStands(env, base, a, left, x);
    OperandStands(env, base, b, right, y);
    OffsetPairShape(op, a, b, env.SectionOf(left) == env.SectionOf(right), unset);
    OffsetPairValue(op, SymbolBase(env, base, if a.ty == Label then left else right), a.Operand(), b.Operand());
  }

  lemma BinaryStands(env: Env, base: Layout, op: BinaryOp, unset: int,
                     a: Outcome, left: string, x: Word, b: Outcome, right: string, y: Word)
    requires Sane(a) && Sane(b) && a.ok && b.ok
    requires Stands(env, base, a, left, x) && Stands(env, base, b, right, y)
    requires SafeOperands(env, base, op, a, b, left)
    requires BinaryOutcome(op, a, b, env.SectionOf(left) == env.SectionOf(right), unset).ok
    ensures Stands(env, base, BinaryOutcome(op, a, b, env.SectionOf(left) == env.SectionOf(right), unset),
                   BinarySymbol(op, a.ty, b.ty, left, right), TrueBinary(op, x, y))
  {
    hide U16, ExactInt, BinaryInt;
    if a.ty == Absolute && b.ty == Absolute {
      AbsolutePair(op, a, b, env.SectionOf(left) == env.SectionOf(right), unset);
    } else if a.ty == Label && b.ty == Label {
      LabelPairShape(op, a, b, env.SectionOf(left) == env.SectionOf(right), unset);
      LabelPairStands(env, base, op, a, left, x, b, right, y);
    } else {
      OffsetPairStands(env, base, op, unset, a, left, x, b, right, y);
    }
  }

  lemma BinaryAgrees(env: Env, base: Layout, l: Expr, op: BinaryOp, r: Expr, unset: int)
    requires env.Acyclic() && Sane(Eval(env, l)) && Sane(Eval(env, r))
    requires Eval(env, l).ok && Eval(env, r).ok
    requires Agrees(env, base, l) && Agrees(env, base, r)
    requires Eval(env, Binary(l, op, r, unset)).ok
    requires SafeOperands(env, base, op, Eval(env, l), Eval(env, r), BaseSymbol(env, l))
    ensures Agrees(env, base, Binary(l, op, r, unset))
  {
    var a, left, x := Eval(env, l), BaseSymbol(env, l), TrueValue(env, base, l);
    var b, right, y := Eval(env, r), BaseSymbol(env, r), TrueValue(env, base, r);
    var o := BinaryOutcome(op, a, b, env.SectionOf(left) == env.SectionOf(right), unset);
    assert Eval(env, Binary(l, op, r, unset)) == o.Also(a.error || b.error);
    BinaryStands(env, base, op, unset, a, left, x, b, right, y);
    assert BaseSymbol(env, Binary(l, op, r, unset)) == BinarySymbol(op, a.ty, b.ty, left, right);
    assert TrueValue(env, base, Binary(l, op, r, unset)) == TrueBinary(op, x, y);
    StandsIgnoresError(env, base, o, a.error || b.error, BinarySymbol(op, a.ty, b.ty, left, right),
                       TrueBinary(op, x, y));
  }

  lemma UnaryAgrees(env: Env, base: Layout, op: UnaryOp, x: Expr, unset: int)
    requires env.Acyclic() && Agrees(env, base, x) && Eval(env, Unary(op, x, unset)).ok
    ensures Agrees(env, base, Unary(op, x, unset))
  {
    OperandStands(env, base, Eval(env, x), BaseSymbol(env, x), TrueValue(env, base, x));
  }

  lemma ConditionalAgrees(env: Env, base: Layout, c: Expr, t: Expr, f: Expr, unset: int)
    requires env.Acyclic() && Eval(env, Conditional(c, t, f, unset)).ok && Agrees(env, base, c)
    requires Agrees(env, base, if Eval(env, c).Operand() != 0 then t else f)
    ensures Agrees(env, base, Conditional(c, t, f, unset))
  {
    var chosen := if Eval(env, c).Operand() != 0 then t else f;
    var a, b, symbol, v := Eval(env, c), Eval(env, chosen), BaseSymbol(env, chosen), TrueValue(env, base, chosen);
    OperandStands(env, base, a, BaseSymbol(env, c), TrueValue(env, base, c));
    assert TrueValue(env, base, Conditional(c, t, f, unset)) == v;
    StandsTruncated(env, base, b, symbol, v);
    StandsIgnoresError(env, base, b.(value := b.Operand()), a.error, symbol, v);
    assert Eval(env, Conditional(c, t, f, unset)) == b.(value := b.Operand()).Also(a.error);
    assert b.ty == Label ==> BaseSymbol(env, Conditional(c, t, f, unset)) == symbol;
  }

  lemma EquAgrees(env: Env, base: Layout, name: string, unset: int)
    requires env.Acyclic() && SafeEnv(env, base) && name in env.defs && env.defs[name].Equ?
    requires Sane(Eval(env, env.defs[name].expr)) && Agrees(env, base, env.defs[name].expr)
    ensures Agrees(env, base, Identifier(name, unset))
  {
    var x := env.defs[name].expr;
    OperandStands(env, base, Eval(env, x), BaseSymbol(env, x), TrueValue(env, base, x));
  }

  lemma PriorityAgrees(env: Env, base: Layout, inner: Expr, unset: int)
    requires env.Acyclic() && Eval(env, inner).ok && Agrees(env, base, inner)
    ensures Agrees(env, base, Priority(inner, unset))
  {
    var a := Eval(env, inner);
    StandsTruncated(env, base, a, BaseSymbol(env, inner), TrueValue(env, base, inner));
    assert Eval(env, Priority(inner, unset)) == a.(value := a.Operand());
    assert BaseSymbol(env, Priority(inner, unset)) == BaseSymbol(env, inner);
  }

  /** Soundness: a successful evaluation, relocated, is the value the expression has after placement. */
  lemma {:induction false} Soundness(env: Env, base: Layout, e: Expr)
    requires env.Acyclic() && SafeEnv(env, base) && Safe(env, base, e) && Eval(env, e).ok
    ensures Agrees(env, base, e)
    decreases env.Height(e), e
  {
    match e {
      case Value(_) =>
      case Identifier(name, unset) =>
        if env.defs[name].Equ? {
          Soundness(env, base, env.defs[name].expr);
          SafeEnvIsInt(env, base);
          EvalSane(env, env.defs[name].expr);
          EquAgrees(env, base, name, unset);
        }
      case Priority(inner, unset) =>
        Soundness(env, base, inner);
        PriorityAgrees(env, base, inner, unset);
      case Unary(op, x, unset) =>
        Soundness(env, base, x);
        UnaryAgrees(env, base, op, x, unset);
      case Binary(l, op, r, unset) =>
        Soundness(env, base, l);
        Soundness(env, base, r);
        SafeEnvIsInt(env, base);
        SafeIsInt(env, base, e);
        EvalSane(env, l);
        EvalSane(env, r);
        BinaryAgrees(env, base, l, op, r, unset);
      case Conditional(c, t, f, unset) =>
        Soundness(env, base, c);
        Soundness(env, base, if Eval(env, c).Operand() != 0 then t else f);
        ConditionalAgrees(env, base, c, t, f, unset);
    }
  }

  /** An absolute result is the true value under every layout, so no layout changes it. */
  lemma AbsoluteIgnoresLayout(env: Env, base: Layout, other: Layout, e: Expr)
    requires env.Acyclic() && SafeEnv(env, base) && Safe(env, base, e)
    requires SafeEnv(env, other) && Safe(env, other, e)
    requires Eval(env, e).ok && Eval(env, e).ty == Absolute
    ensures TrueValue(env, base, e) == TrueValue(env, other, e) == Eval(env, e).Operand()
  {
    Soundness(env, base, e);
    Soundness(env, other, e);
  }

  lemma DifferenceMod(x: int, y: int, s: int)
    ensures U16(x - y + s) == U16(x - U16(s + y)) <==> U16(2 * s) == 0
  {
    var d := x - y;
    assert U16(x - U16(s + y)) == U16(d - s) by { SumMod(s + y, 0 - x); NegatedMod(U16(s + y) - x, s + y - x); }
    SameRemainder(d + s, d - s);
  }

  lemma NegatedMod(x: int, y: int)
    requires U16(x) == U16(y)
    ensures U16(0 - x) == U16(0 - y)
  {
    SameRemainder(x, y);
    SameRemainder(0 - y, 0 - x);
  }

  lemma SameRemainder(x: int, y: int)
    ensures U16(x) == U16(y) <==> U16(x - y) == 0
  {
    var p, q := x / 0x1_0000, y / 0x1_0000;
    assert x == 0x1_0000 * p + U16(x) && y == 0x1_0000 * q + U16(y);
    assert x - y == 0x1_0000 * (p - q) + (U16(x) - U16(y));
  }

  lemma DifferenceOutcome(a: Outcome, b: Outcome, same: bool, unset: int)
    requires a.ty == Absolute && b.ty == Label
    ensures BinaryOutcome(Subtract, a, b, same, unset) == Outcome(true, Label, a.Operand() - b.Operand(), false)
  {
    hide BinaryInt;
  }

  lemma DifferenceParts(env: Env, l: Expr, r: Expr, unset: int)
    requires env.Acyclic() && Eval(env, l).ok && Eval(env, r).ok
    requires Eval(env, l).ty == Absolute && Eval(env, r).ty == Label
    ensures var a, b, o := Eval(env, l), Eval(env, r), Eval(env, Binary(l, Subtract, r, unset));
            o.ty == Label && o.value == a.Operand() - b.Operand()
    ensures BaseSymbol(env, Binary(l, Subtract, r, unset)) == BaseSymbol(env, r)
  {
    hide BinaryOutcome;
    DifferenceOutcome(Eval(env, l), Eval(env, r), env.SectionOf(BaseSymbol(env, l))
                      == env.SectionOf(BaseSymbol(env, r)), unset);
  }

  lemma ConstantMinusLabelRelocated(env: Env, base: Layout, l: Expr, r: Expr, unset: int)
    requires env.Acyclic() && Eval(env, l).ok && Eval(env, r).ok
    requires Eval(env, l).ty == Absolute && Eval(env, r).ty == Label
    ensures Relocated(env, base, Binary(l, Subtract, r, unset))
            == U16(Eval(env, l).Operand() - Eval(env, r).Operand() + SymbolBase(env, base, BaseSymbol(env, r)))
  {
    hide U16, Eval, BaseSymbol, SymbolBase;
    DifferenceParts(env, l, r, unset);
  }

  lemma ConstantMinusLabelTrue(env: Env, base: Layout, l: Expr, r: Expr, unset: int)
    requires env.Acyclic() && Eval(env, l).ty == Absolute && Eval(env, r).ty == Label
    requires Agrees(env, base, l) && Agrees(env, base, r)
    ensures TrueValue(env, base, Binary(l, Subtract, r, unset))
            == U16(Eval(env, l).Operand() - U16(SymbolBase(env, base, BaseSymbol(env, r)) + Eval(env, r).Operand()))
  {
    hide U16, Eval, BaseSymbol, SymbolBase;
    var t, u := TrueValue(env, base, l), TrueValue(env, base, r);
    OperandStands(env, base, Eval(env, l), BaseSymbol(env, l), t);
    OperandStands(env, base, Eval(env, r), BaseSymbol(env, r), u);
    assert TrueValue(env, base, Binary(l, Subtract, r, unset)) == TrueBinary(Subtract, t, u);
    TrueSum(t, u);
  }

  /** A constant minus a label is typed as a label, so the base that should be subtracted is added:
      the result is right exactly for the layouts where that makes no difference. */
  lemma ConstantMinusLabelIff(env: Env, base: Layout, l: Expr, r: Expr, unset: int)
    requires env.Acyclic() && Eval(env, l).ok && Eval(env, r).ok
    requires Eval(env, l).ty == Absolute && Eval(env, r).ty == Label
    requires Agrees(env, base, l) && Agrees(env, base, r)
    ensures Relocated(env, base, Binary(l, Subtract, r, unset))
            == TrueValue(env, base, Binary(l, Subtract, r, unset))
            <==> U16(2 * SymbolBase(env, base, BaseSymbol(env, r))) == 0
  {
    hide U16, Eval, BaseSymbol, TrueValue, Relocated, SymbolBase, Agrees;
    ConstantMinusLabelRelocated(env, base, l, r, unset);
    ConstantMinusLabelTrue(env, base, l, r, unset);
    DifferenceMod(Eval(env, l).Operand(), Eval(env, r).Operand(), SymbolBase(env, base, BaseSymbol(env, r)));
  }

  lemma ShiftsEqualIff(v: int, s: nat, t: nat)
    ensures U16(U16(v) + s) == U16(v + t) <==> U16(s) == U16(t)
  {
    SumMod(v, s);
  }

  lemma ComparisonOutcome(env: Env, op: BinaryOp, l: Expr, r: Expr, unset: int)
    requires env.Acyclic() && IsOrdering(op) && Eval(env, l).ok && Eval(env, r).ok
    requires Eval(env, l).ty == Label && Eval(env, r).ty == Label
    requires env.SectionOf(BaseSymbol(env, l)) == env.SectionOf(BaseSymbol(env, r))
    ensures var o := Eval(env, Binary(l, op, r, unset));
            && o.ok && o.ty == Absolute
            && o.value == Compare(op, Eval(env, l).Operand() - Eval(env, r).Operand())
  {
    hide BinaryOutcome;
    var a, b := Eval(env, l), Eval(env, r);
    assert Eval(env, Binary(l, op, r, unset)) == BinaryOutcome(op, a, b, true, unset).Also(a.error || b.error);
    LabelOrder(op, a, b, unset);
  }

  lemma LabelOrder(op: BinaryOp, a: Outcome, b: Outcome, unset: int)
    requires IsOrdering(op) && a.ty == Label && b.ty == Label
    ensures BinaryOutcome(op, a, b, true, unset)
            == Outcome(true, Absolute, Compare(op, a.Operand() - b.Operand()), false)
  {
  }

  lemma SameCompare(op: BinaryOp, d: int, e: int)
    ensures U16(Compare(op, d)) == U16(Compare(op, e)) <==> Compare(op, d) == Compare(op, e)
  {
  }

  /** Two labels of one section are ordered by their offsets: the result is what it is after placement exactly
      when the section's base carries both addresses over the top of memory, or neither. */
  lemma OrderingIff(env: Env, base: Layout, op: BinaryOp, l: Expr, r: Expr, unset: int)
    requires env.Acyclic() && IsOrdering(op) && Eval(env, l).ok && Eval(env, r).ok
    requires Eval(env, l).ty == Label && Eval(env, r).ty == Label
    requires env.SectionOf(BaseSymbol(env, l)) == env.SectionOf(BaseSymbol(env, r))
    requires Agrees(env, base, l) && Agrees(env, base, r)
    ensures U16(Eval(env, Binary(l, op, r, unset)).value) == TrueValue(env, base, Binary(l, op, r, unset))
            <==> WrapsAlike(SymbolBase(env, base, BaseSymbol(env, l)), Eval(env, l).Operand(), Eval(env, r).Operand())
  {
    hide U16, Eval, BaseSymbol, Compare, WrapsAlike;
    var a, b, t, u := Eval(env, l), Eval(env, r), TrueValue(env, base, l), TrueValue(env, base, r);
    var s := SymbolBase(env, base, BaseSymbol(env, l));
    ComparisonOutcome(env, op, l, r, unset);
    OperandStands(env, base, a, BaseSymbol(env, l), t);
    OperandStands(env, base, b, BaseSymbol(env, r), u);
    assert s == SymbolBase(env, base, BaseSymbol(env, r));
    TrueComparison(op, t, u);
    OrderingShift(op, s, a.Operand(), b.Operand());
    SameCompare(op, a.Operand() - b.Operand(), t as int - u as int);
  }

  /** An `.equ` that names a label is relocated with the section current at the `.equ`: the result is
      right exactly when that section and the label's start at the same address modulo 2^16. */
  lemma EquOfLabelIff(env: Env, base: Layout, name: string, unset: int)
    requires env.Acyclic() && name in env.defs && env.defs[name].Equ?
    requires Eval(env, env.defs[name].expr).ok && Eval(env, env.defs[name].expr).ty == Label
    requires Agrees(env, base, env.defs[name].expr)
    ensures Relocated(env, base, Identifier(name, unset)) == TrueValue(env, base, Identifier(name, unset))
            <==> U16(base(env.defs[name].section))
                 == U16(SymbolBase(env, base, BaseSymbol(env, env.defs[name].expr)))
  {
    hide U16, Agrees, Relocated, TrueValue;
    var x := env.defs[name].expr;
    EquRelocated(env, base, name, unset);
    ShiftsEqualIff(Eval(env, x).value, base(env.defs[name].section), SymbolBase(env, base, BaseSymbol(env, x)));
  }

  lemma EquRelocated(env: Env, base: Layout, name: string, unset: int)
    requires env.Acyclic() && name in env.defs && env.defs[name].Equ?
    requires Eval(env, env.defs[name].expr).ok && Eval(env, env.defs[name].expr).ty == Label
    requires Agrees(env, base, env.defs[name].expr)
    ensures var x := env.defs[name].expr;
            && Relocated(env, base, Identifier(name, unset))
                == U16(U16(Eval(env, x).value) + base(env.defs[name].section))
            && TrueValue(env, base, Identifier(name, unset))
               == U16(Eval(env, x).value + SymbolBase(env, base, BaseSymbol(env, x)))
  {
    hide U16;
    var o := Eval(env, Identifier(name, unset));
    assert o.ty == Label && o.value == U16(Eval(env, env.defs[name].expr).value);
  }
}
