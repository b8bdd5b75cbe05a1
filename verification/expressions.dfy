/** The assembler's expressions, and what evaluating one means when nothing is cached. */
module Expressions {
  import opened Bits
  import opened Machine

  datatype ValueType = Absolute | Label | Undefined | Invalid

  datatype UnaryOp = Plus | Minus | Tilde | Exclamation

  datatype BinaryOp =
    | Asterisk | Slash | Percent | LeftShift | RightShift
    | Ampersand | Circumflex | Pipe | AmpersandAmpersand | PipePipe
    | Add | Subtract
    | Lesser | Greater | LesserEqual | GreaterEqual | EqualEqual | NotEqual

  /** `unset` is what a node's value field holds until an evaluation assigns it:
      evaluating a node whose operand fails leaves that field alone. */
  datatype Expr =
    | Value(literal: int)
    | Identifier(name: string, unset: int)
    | Priority(inner: Expr, unset: int)
    | Unary(uop: UnaryOp, operand: Expr, unset: int)
    | Binary(left: Expr, bop: BinaryOp, right: Expr, unset: int)
    | Conditional(condition: Expr, ifTrue: Expr, ifFalse: Expr, unset: int)

  /** A node's value field before any evaluation. */
  function Unassigned(e: Expr): int { if e.Value? then e.literal else e.unset }

  /** A symbol with a value: a label at an offset of a section, or the expression of an `.equ`,
      with the section that was current there. A name without a definition is undefined. */
  datatype Definition =
    | LabelAt(section: nat, offset: nat)
    | Equ(section: nat, expr: Expr)

  function Rank(rank: map<string, nat>, name: string): nat { if name in rank then rank[name] else 0 }

  /** Above the rank of every symbol an expression names. */
  function HeightIn(rank: map<string, nat>, e: Expr): nat
  {
    match e
    case Value(_) => 0
    case Identifier(name, _) => Rank(rank, name) + 1
    case Priority(inner, _) => HeightIn(rank, inner)
    case Unary(_, x, _) => HeightIn(rank, x)
    case Binary(l, _, r, _) => Max(HeightIn(rank, l), HeightIn(rank, r))
    case Conditional(c, t, f, _) => Max(HeightIn(rank, c), Max(HeightIn(rank, t), HeightIn(rank, f)))
  }

  /** Definitions, and an order in which the `.equ` symbols can be computed. */
  datatype Env = Env(defs: map<string, Definition>, rank: map<string, nat>) {

    function RankOf(name: string): nat { Rank(rank, name) }

    function Height(e: Expr): nat { HeightIn(rank, e) }

    /** No `.equ` depends on itself. */
    ghost predicate Acyclic()
    {
      forall name | name in defs && defs[name].Equ? :: Height(defs[name].expr) <= RankOf(name)
    }

    /** `Symbols::get_section`; only asked about defined symbols. */
    function SectionOf(name: string): int { if name in defs then defs[name].section else -1 }
  }

  function Max(a: nat, b: nat): nat { if a < b then b else a }

  /** What `evaluate` returns, the two fields it leaves in the node, and whether an error is reported. */
  datatype Outcome = Outcome(ok: bool, ty: ValueType, value: int, error: bool) {
    /** The operand as the parent node reads it. */
    function Operand(): Word { U16(value) }

    function Also(e: bool): Outcome { this.(error := error || e) }
  }

  function Truth(b: bool): int { if b then 1 else 0 }

  /** The `int` a unary operator computes from its 16-bit operand. */
  function UnaryInt(op: UnaryOp, x: Word): int
  {
    match op
    case Plus => x
    case Minus => 0 - x
    case Tilde => 0 - x - 1
    case Exclamation => Truth(x == 0)
  }

  /** The `int` a binary operator computes from 16-bit operands. Products and shifts are cut
      to 32 bits; a shift count is taken modulo 32. */
  function BinaryInt(op: BinaryOp, x: Word, y: Word): int
    requires (op == Slash || op == Percent) ==> y != 0
  {
    match op
    case Asterisk => I32(x * y)
    case Slash => x / y
    case Percent => x % y
    case LeftShift => I32(x * Pow2(y % 32))
    case RightShift => Bits.ShiftRight(x, y % 32)
    case Ampersand => Bitwise(And, x, y)
    case Circumflex => Bitwise(Xor, x, y)
    case Pipe => Bitwise(Or, x, y)
    case AmpersandAmpersand => Truth(x != 0 && y != 0)
    case PipePipe => Truth(x != 0 || y != 0)
    case Add => x + y
    case Subtract => x - y
    case _ => Compare(op, x - y)
  }

  predicate IsRelational(op: BinaryOp) { IsOrdering(op) || op == EqualEqual || op == NotEqual }

  predicate IsOrdering(op: BinaryOp)
  {
    op == Lesser || op == Greater || op == LesserEqual || op == GreaterEqual
  }

  /** A comparison, decided on the difference of its operands. */
  function Compare(op: BinaryOp, difference: int): (r: int)
    ensures r == 0 || r == 1
  {
    match op
    case Lesser => Truth(difference < 0)
    case Greater => Truth(difference > 0)
    case LesserEqual => Truth(difference <= 0)
    case GreaterEqual => Truth(difference >= 0)
    case EqualEqual => Truth(difference == 0)
    case _ => Truth(difference != 0)
  }

  /** Operators that accept a label nowhere. */
  predicate IsAbsoluteOnly(op: BinaryOp) { !IsRelational(op) && op != Add && op != Subtract }

  function UnaryOutcome(op: UnaryOp, a: Outcome, unset: int): Outcome
  {
    if !a.ok then a.(value := unset)
    else if a.ty == Label then Outcome(false, Invalid, unset, true)
    else var v := UnaryInt(op, a.Operand()); Outcome(FitsWord(v), a.ty, v, a.error)
  }

  /** A binary node whose operands both evaluated; `sameSection` compares their symbols' sections. */
  function BinaryOutcome(op: BinaryOp, a: Outcome, b: Outcome, sameSection: bool, unset: int): Outcome
  {
    var x, y, failed := a.Operand(), b.Operand(), Outcome(false, Invalid, unset, true);
    if IsAbsoluteOnly(op) then
      if a.ty == Label || b.ty == Label then failed
      else if (op == Slash || op == Percent) && y == 0 then failed
      else var v := BinaryInt(op, x, y); Outcome(FitsWord(v), Absolute, v, false)
    else if op == Add then
      if a.ty == Label && b.ty == Label then failed
      else
        var v := x + y;
        Outcome(FitsWord(v), if a.ty == Label || b.ty == Label then Label else Absolute, v, !FitsWord(v))
    else if a.ty == Label && b.ty == Label && !sameSection then failed
    else if op == Subtract then
      var v := x - y;
      Outcome(FitsWord(v), if a.ty != b.ty then Label else Absolute, v, false)
    else if a.ty != b.ty then failed
    else Outcome(true, Absolute, BinaryInt(op, x, y), false)
  }

  function BinarySymbol(op: BinaryOp, a: ValueType, b: ValueType, left: string, right: string): string
  {
    if op != Add && op != Subtract then ""
    else if a == Label && b == Absolute then left
    else if a == Absolute && b == Label then right
    else ""
  }

  /** `evaluate`, with every `.equ` computed afresh. */
  function Eval(env: Env, e: Expr): (r: Outcome)
    requires env.Acyclic()
    decreases env.Height(e), e, 0
  {
    match e
    case Value(v) => Outcome(FitsWord(v), Absolute, v, false)
    case Identifier(name, unset) =>
      if name !in env.defs then Outcome(false, Invalid, unset, true)
      else
        (match env.defs[name]
         case LabelAt(_, offset) => Outcome(true, Label, U16(offset), false)
         case Equ(_, x) =>
           var d := Eval(env, x);
           if d.ty == Invalid then Outcome(false, Invalid, unset, d.error)
           else Outcome(true, d.ty, U16(d.value), d.error))
    case Priority(inner, unset) =>
      var a := Eval(env, inner);
      if a.ok then a.(value := a.Operand()) else a.(value := unset)
    case Unary(op, x, unset) => UnaryOutcome(op, Eval(env, x), unset)
    case Binary(l, op, r, unset) =>
      var a := Eval(env, l);
      if !a.ok then a.(value := unset)
      else
        var b := Eval(env, r);
        if !b.ok then b.(value := unset).Also(a.error)
        else BinaryOutcome(op, a, b, env.SectionOf(BaseSymbol(env, l)) == env.SectionOf(BaseSymbol(env, r)), unset)
             .Also(a.error || b.error)
    case Conditional(c, t, f, unset) =>
      var a := Eval(env, c);
      if !a.ok then Outcome(false, Invalid, unset, a.error)
      else if a.ty != Absolute then Outcome(false, Invalid, unset, true)
      else
        var b := Eval(env, if a.Operand() != 0 then t else f);
        if !b.ok then Outcome(false, Invalid, unset, a.error || b.error)
        else b.(value := b.Operand()).Also(a.error)
  }

  /** The symbol a node's value is relative to, once evaluated; meaningful for label results. */
  function BaseSymbol(env: Env, e: Expr): string
    requires env.Acyclic()
    decreases env.Height(e), e, 1
  {
    match e
    case Value(_) => ""
    case Identifier(name, _) => name
    case Priority(inner, _) => BaseSymbol(env, inner)
    case Unary(_, x, _) => BaseSymbol(env, x)
    case Binary(l, op, r, _) =>
      BinarySymbol(op, Eval(env, l).ty, Eval(env, r).ty, BaseSymbol(env, l), BaseSymbol(env, r))
    case Conditional(c, t, f, _) =>
      if Eval(env, e).ty == Label && Eval(env, c).Operand() != 0 then BaseSymbol(env, t) else BaseSymbol(env, f)
  }

  /** An evaluated operand as its user reads it; a label comes with its symbol and that symbol's section. */
  datatype Reading = Reading(ok: bool, ty: ValueType, value: Word, symbol: string, section: int)

  /** The reading of an expression. */
  ghost predicate ReadAs(env: Env, e: Expr, r: Reading)
    requires env.Acyclic()
  {
    var o := Eval(env, e);
    && r.ok == o.ok && (o.ok ==> r.ty == o.ty && r.value == o.Operand())
    && (o.ok && o.ty == Label ==> r.symbol == BaseSymbol(env, e) && r.section == env.SectionOf(r.symbol))
  }
}
