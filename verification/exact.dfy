/** The evaluator's arithmetic against exact arithmetic on its 16-bit operands. */
module ExactArithmetic {
  import opened Bits
  import opened Machine
  import opened Expressions

  /** The mathematical result of an operator, on integers of any size. */
  function ExactInt(op: BinaryOp, x: Word, y: Word): int
    requires (op == Slash || op == Percent) ==> y != 0
  {
    match op
    case Asterisk => x * y
    case LeftShift => x * Pow2(y)
    case RightShift => Bits.ShiftRight(x, y)
    case _ => BinaryInt(op, x, y)
  }

  /** Counts for which the machine's shifts are the exact ones, or are refused. */
  predicate ShiftInRange(op: BinaryOp, y: Word)
  {
    (op == LeftShift ==> y <= 16) && (op == RightShift ==> y < 32)
  }

  lemma ProductBound(x: Word, y: Word)
    ensures 0 <= x * y <= 0xFFFF * 0xFFFF
  {
    MulMonotone(x, 0xFFFF, y, 0xFFFF);
  }

  /** Up to 2^32 - 2^16, a number is encodable exactly when its 32-bit wrapping is. */
  lemma WrapCheck(v: nat)
    requires v <= 0xFFFF_0000
    ensures FitsWord(I32(v)) <==> v < 0x1_0000
    ensures v < 0x1_0000 ==> I32(v) == v
    ensures !IsInt(v) ==> I32(v) == v - 0x1_0000_0000
  {
  }

  /** A product that leaves the 32-bit range wraps to at most 65535^2 - 2^32 = -131071, so the
      16-bit check on the wrapped product is a check on the product. */
  lemma ProductCheckExact(x: Word, y: Word)
    ensures FitsWord(I32(x * y)) <==> x * y < 0x1_0000
    ensures x * y < 0x1_0000 ==> I32(x * y) == x * y
    ensures !IsInt(x * y) ==> I32(x * y) <= -131071
  {
    ProductBound(x, y);
    WrapCheck(x * y);
  }

  lemma LeftShiftBound(x: Word, n: nat)
    requires n <= 16
    ensures x <= x * Pow2(n) <= 0xFFFF * 0x1_0000
  {
    Pow2Monotone(n, 16);
    Pow2Table();
    MulMonotone(x, 0xFFFF, Pow2(n), 0x1_0000);
    MulMonotone(x, x, 1, Pow2(n));
  }

  /** Left shifts by at most 16: the check on the wrapped result is exact. */
  lemma ShiftCheckExact(x: Word, n: nat)
    requires n <= 16
    ensures FitsWord(I32(x * Pow2(n))) <==> x * Pow2(n) < 0x1_0000
    ensures x * Pow2(n) < 0x1_0000 ==> I32(x * Pow2(n)) == x * Pow2(n)
  {
    LeftShiftBound(x, n);
    WrapCheck(x * Pow2(n));
  }

  /** A left shift count keeps the check exact on every operand exactly when it is at most 16:
      from 17 on, a single bit shifted out of the 32-bit `int` is accepted as zero. */
  lemma ShiftCheckExactIff(n: nat)
    requires n < 32
    ensures n <= 16 <==>
            forall x: Word :: FitsWord(I32(x * Pow2(n))) ==> I32(x * Pow2(n)) == x * Pow2(n)
  {
    if n <= 16 {
      forall x: Word ensures FitsWord(I32(x * Pow2(n))) ==> I32(x * Pow2(n)) == x * Pow2(n) {
        ShiftCheckExact(x, n);
      }
    } else {
      Pow2Sum(32 - n, n);
      Pow2Monotone(32 - n, 15);
      Pow2Sum(7, 8);
      Pow2Table();
      var x: Word := Pow2(32 - n);
      assert x * Pow2(n) == 0x1_0000_0000 && I32(x * Pow2(n)) == 0;
    }
  }

  lemma BitwiseWord(op: BitOp, x: Word, y: Word)
    ensures 0 <= Bitwise(op, x, y) < 0x1_0000
  {
    Pow2Table();
    BitwiseBound(op, x, y, 16);
  }

  lemma QuotientBound(x: nat, y: nat)
    requires y != 0
    ensures x / y <= x
  {
    var q := x / y;
    assert q * y <= x;
    MulMonotone(q, q, 1, y);
  }

  /** The check of a binary node is a check on the exact result. */
  lemma OperatorExact(op: BinaryOp, x: Word, y: Word)
    requires (op == Slash || op == Percent) ==> y != 0
    requires ShiftInRange(op, y)
    ensures IsInt(BinaryInt(op, x, y))
    ensures FitsWord(BinaryInt(op, x, y)) <==> FitsWord(ExactInt(op, x, y))
    ensures FitsWord(ExactInt(op, x, y)) ==> BinaryInt(op, x, y) == ExactInt(op, x, y)
  {
    hide Pow2, Bitwise, Bits.ShiftRight, Compare;
    BinaryIntBound(op, x, y);
    if op == Asterisk {
      ProductCheckExact(x, y);
    } else if op == LeftShift {
      ShiftCheckExact(x, y);
    } else if op != RightShift {
      assert ExactInt(op, x, y) == BinaryInt(op, x, y);
    }
  }

  /** On absolute operands a binary node succeeds exactly when the exact result exists and is
      encodable, and then holds that result. */
  lemma BinaryNodeExact(op: BinaryOp, a: Outcome, b: Outcome, same: bool, unset: int)
    requires a.ty == Absolute && b.ty == Absolute
    requires ShiftInRange(op, b.Operand())
    ensures var r := BinaryOutcome(op, a, b, same, unset);
            var divides := (op == Slash || op == Percent) ==> b.Operand() != 0;
            && (r.ok <==> divides && FitsWord(ExactInt(op, a.Operand(), b.Operand())))
            && (r.ok ==> r.ty == Absolute && r.value == ExactInt(op, a.Operand(), b.Operand()))
  {
    var x, y := a.Operand(), b.Operand();
    if (op == Slash || op == Percent) && y == 0 {
      assert !BinaryOutcome(op, a, b, same, unset).ok;
    } else {
      OperatorExact(op, x, y);
      AbsoluteOutcome(op, a, b, same, unset);
    }
  }

  lemma AbsoluteOutcome(op: BinaryOp, a: Outcome, b: Outcome, same: bool, unset: int)
    requires a.ty == Absolute && b.ty == Absolute
    requires (op == Slash || op == Percent) ==> b.Operand() != 0
    ensures var r, v := BinaryOutcome(op, a, b, same, unset), BinaryInt(op, a.Operand(), b.Operand());
            r.ty == Absolute && r.value == v && r.ok == FitsWord(v)
  {
  }

  /** What every evaluation leaves behind. A true result is typed `Absolute` or `Label` and has a
      magnitude below 2^16, so the assertions inside the evaluator cannot fire; no result is
      `Undefined`, which is why a cached symbol is never evaluated again. */
  predicate Sane(r: Outcome)
  {
    && r.ty != Undefined
    && (r.ok ==> r.ty != Invalid && FitsWord(r.value))
  }

  lemma BinaryOutcomeSane(op: BinaryOp, a: Outcome, b: Outcome, same: bool, unset: int)
    requires Sane(a) && Sane(b) && a.ok && b.ok
    ensures Sane(BinaryOutcome(op, a, b, same, unset))
  {
    var x, y := a.Operand(), b.Operand();
    if !((op == Slash || op == Percent) && y == 0) { BinaryIntBound(op, x, y); }
  }

  lemma BinaryIntBound(op: BinaryOp, x: Word, y: Word)
    requires (op == Slash || op == Percent) ==> y != 0
    ensures IsInt(BinaryInt(op, x, y))
  {
    match op {
      case Ampersand => BitwiseWord(And, x, y);
      case Circumflex => BitwiseWord(Xor, x, y);
      case Pipe => BitwiseWord(Or, x, y);
      case Slash => QuotientBound(x, y);
      case Percent =>
      case _ =>
    }
  }

  lemma UnaryOutcomeSane(op: UnaryOp, a: Outcome, unset: int)
    requires Sane(a)
    ensures Sane(UnaryOutcome(op, a, unset))
  {
  }

  /** Literals are C `int`s. */
  predicate IntLiterals(e: Expr)
  {
    match e
    case Value(v) => IsInt(v)
    case Identifier(_, _) => true
    case Priority(inner, _) => IntLiterals(inner)
    case Unary(_, x, _) => IntLiterals(x)
    case Binary(l, _, r, _) => IntLiterals(l) && IntLiterals(r)
    case Conditional(c, t, f, _) => IntLiterals(c) && IntLiterals(t) && IntLiterals(f)
  }

  ghost predicate IntEnv(env: Env)
  {
    forall name | name in env.defs && env.defs[name].Equ? :: IntLiterals(env.defs[name].expr)
  }

  lemma {:induction false} EvalSane(env: Env, e: Expr)
    requires env.Acyclic() && IntEnv(env) && IntLiterals(e)
    ensures Sane(Eval(env, e))
    decreases env.Height(e), e
  {
    match e {
      case Value(v) =>
      case Identifier(name, _) =>
        if name in env.defs && env.defs[name].Equ? { EvalSane(env, env.defs[name].expr); }
      case Priority(inner, _) => EvalSane(env, inner);
      case Unary(op, x, unset) =>
        EvalSane(env, x);
        UnaryOutcomeSane(op, Eval(env, x), unset);
      case Binary(l, op, r, unset) =>
        EvalSane(env, l);
        EvalSane(env, r);
        var a, b := Eval(env, l), Eval(env, r);
        if a.ok && b.ok {
          BinaryOutcomeSane(op, a, b, env.SectionOf(BaseSymbol(env, l)) == env.SectionOf(BaseSymbol(env, r)), unset);
        }
      case Conditional(c, t, f, _) =>
        EvalSane(env, c);
        EvalSane(env, t);
        EvalSane(env, f);
    }
  }
}
