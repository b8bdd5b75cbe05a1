/** The meaning of expressions, one operator at a time, and why it does not change as symbols are added. */
module Stability {
  import opened Machine
  import opened Expressions
  import opened ExactArithmetic

  /** A label result is relative to a symbol that has a definition. */
  lemma {:induction false} LabelIsDefined(env: Env, e: Expr)
    requires env.Acyclic() && IntEnv(env) && IntLiterals(e) && Eval(env, e).ok && Eval(env, e).ty == Label
    ensures BaseSymbol(env, e) in env.defs
    decreases e
  {
    match e {
      case Value(_) =>
      case Identifier(_, _) =>
      case Priority(inner, _) => LabelIsDefined(env, inner);
      case Unary(_, _, _) =>
      case Binary(l, op, r, _) =>
        EvalSane(env, l);
        EvalSane(env, r);
        if Eval(env, l).ty == Label { LabelIsDefined(env, l); } else { LabelIsDefined(env, r); }
      case Conditional(c, t, f, _) => LabelIsDefined(env, if Eval(env, c).Operand() != 0 then t else f);
    }
  }

  /** What asking for a symbol's type and value amounts to, from its definition alone. */
  function DefinedType(env: Env, name: string): ValueType
    requires env.Acyclic()
  {
    if name !in env.defs then Undefined
    else
      match env.defs[name]
      case LabelAt(_, _) => Label
      case Equ(_, x) => Eval(env, x).ty
  }

  function DefinedValue(env: Env, name: string): int
    requires env.Acyclic()
  {
    if name !in env.defs then 0
    else
      match env.defs[name]
      case LabelAt(_, offset) => U16(offset)
      case Equ(_, x) => var r := Eval(env, x); if r.ty == Absolute || r.ty == Label then r.Operand() else 0
  }

  predicate DefinedError(env: Env, name: string)
    requires env.Acyclic()
  {
    name in env.defs && env.defs[name].Equ? && Eval(env, env.defs[name].expr).error
  }

  lemma EvalValue(env: Env, v: int)
    requires env.Acyclic()
    ensures Eval(env, Value(v)) == Outcome(FitsWord(v), Absolute, v, false)
  {
  }

  lemma EvalIdentifier(env: Env, e: Expr)
    requires env.Acyclic() && IntEnv(env) && e.Identifier?
    ensures var r, ty := Eval(env, e), DefinedType(env, e.name);
            if ty == Undefined then r == Outcome(false, Invalid, e.unset, true)
            else if ty == Invalid then r == Outcome(false, Invalid, e.unset, DefinedError(env, e.name))
            else r == Outcome(true, ty, DefinedValue(env, e.name), DefinedError(env, e.name))
  {
    if e.name in env.defs && env.defs[e.name].Equ? { EvalSane(env, env.defs[e.name].expr); }
  }

  lemma EvalPriority(env: Env, e: Expr)
    requires env.Acyclic() && e.Priority?
    ensures var a := Eval(env, e.inner); Eval(env, e) == a.(value := if a.ok then a.Operand() else e.unset)
  {
  }

  lemma EvalUnary(env: Env, e: Expr)
    requires env.Acyclic() && e.Unary?
    ensures Eval(env, e) == UnaryOutcome(e.uop, Eval(env, e.operand), e.unset)
  {
  }

  lemma EvalBinary(env: Env, e: Expr)
    requires env.Acyclic() && e.Binary?
    ensures var a, b := Eval(env, e.left), Eval(env, e.right);
            Eval(env, e)
            == if !a.ok then a.(value := e.unset)
               else if !b.ok then b.(value := e.unset).Also(a.error)
               else
                 var same := env.SectionOf(BaseSymbol(env, e.left)) == env.SectionOf(BaseSymbol(env, e.right));
                 BinaryOutcome(e.bop, a, b, same, e.unset).Also(a.error || b.error)
  {
  }

  lemma EvalConditional(env: Env, e: Expr)
    requires env.Acyclic() && e.Conditional?
    ensures var r, a := Eval(env, e), Eval(env, e.condition);
            if !a.ok then r == Outcome(false, Invalid, e.unset, a.error)
            else if a.ty != Absolute then r == Outcome(false, Invalid, e.unset, true)
            else
              var b := Eval(env, if a.Operand() != 0 then e.ifTrue else e.ifFalse);
              r == if b.ok then b.(value := b.Operand()).Also(a.error)
                   else Outcome(false, Invalid, e.unset, a.error || b.error)
  {
  }

  /** Definitions only accumulate. */
  predicate Adds(env: Env, more: Env)
  {
    env.rank == more.rank && forall name | name in env.defs :: name in more.defs && more.defs[name] == env.defs[name]
  }

  /** What an error-free evaluation found it finds again with more symbols defined. */
  ghost predicate Stands(env: Env, more: Env, e: Expr)
    requires env.Acyclic() && more.Acyclic()
  {
    Eval(more, e) == Eval(env, e) && (Eval(env, e).ok && Eval(env, e).ty == Label
                                      ==> BaseSymbol(more, e) == BaseSymbol(env, e))
  }

  lemma BinaryStable(env: Env, more: Env, l: Expr, op: BinaryOp, r: Expr, unset: int)
    requires env.Acyclic() && more.Acyclic() && Adds(env, more)
    requires IntEnv(env) && IntLiterals(l) && IntLiterals(r)
    requires Stands(env, more, l) && Stands(env, more, r) && Eval(env, l).ok && Eval(env, r).ok
    ensures Stands(env, more, Binary(l, op, r, unset))
  {
    hide Eval, BaseSymbol, BinaryOutcome, BinarySymbol, IntLiterals, IntEnv;
    var a, b, e := Eval(env, l), Eval(env, r), Binary(l, op, r, unset);
    var same, sameMore := env.SectionOf(BaseSymbol(env, l)) == env.SectionOf(BaseSymbol(env, r)),
                          more.SectionOf(BaseSymbol(more, l)) == more.SectionOf(BaseSymbol(more, r));
    SameSections(env, more, l, r);
    if !(a.ty == Label && b.ty == Label) {
      SectionIrrelevant(op, a, b, unset);
    }
    assert BinaryOutcome(op, a, b, same, unset) == BinaryOutcome(op, a, b, sameMore, unset);
    EvalBinary(env, e);
    EvalBinary(more, e);
    BinaryBase(env, l, op, r, unset);
    BinaryBase(more, l, op, r, unset);
    if BinaryOutcome(op, a, b, same, unset).ok && BinaryOutcome(op, a, b, same, unset).ty == Label {
      NotBothLabels(op, a, b, same, unset);
      OneLabel(op, a.ty, b.ty, BaseSymbol(env, l), BaseSymbol(env, r), BaseSymbol(more, l), BaseSymbol(more, r));
    }
  }

  lemma BinaryBase(env: Env, l: Expr, op: BinaryOp, r: Expr, unset: int)
    requires env.Acyclic()
    ensures BaseSymbol(env, Binary(l, op, r, unset))
            == BinarySymbol(op, Eval(env, l).ty, Eval(env, r).ty, BaseSymbol(env, l), BaseSymbol(env, r))
  {
  }

  lemma OneLabel(op: BinaryOp, a: ValueType, b: ValueType, l: string, r: string, x: string, y: string)
    requires (a == Label ==> l == x) && (b == Label ==> r == y)
    ensures BinarySymbol(op, a, b, l, r) == BinarySymbol(op, a, b, x, y)
  {
  }

  lemma SameSections(env: Env, more: Env, l: Expr, r: Expr)
    requires env.Acyclic() && more.Acyclic() && Adds(env, more)
    requires IntEnv(env) && IntLiterals(l) && IntLiterals(r)
    requires Stands(env, more, l) && Stands(env, more, r) && Eval(env, l).ok && Eval(env, r).ok
    ensures Eval(env, l).ty == Label && Eval(env, r).ty == Label
            ==> (env.SectionOf(BaseSymbol(env, l)) == env.SectionOf(BaseSymbol(env, r))
                 <==> more.SectionOf(BaseSymbol(more, l)) == more.SectionOf(BaseSymbol(more, r)))
  {
    hide Eval, BaseSymbol, IntLiterals, IntEnv;
    if Eval(env, l).ty == Label && Eval(env, r).ty == Label {
      LabelIsDefined(env, l);
      LabelIsDefined(env, r);
    }
  }

  lemma SectionIrrelevant(op: BinaryOp, a: Outcome, b: Outcome, unset: int)
    requires !(a.ty == Label && b.ty == Label)
    ensures BinaryOutcome(op, a, b, true, unset) == BinaryOutcome(op, a, b, false, unset)
  {
    hide BinaryInt;
  }

  lemma NotBothLabels(op: BinaryOp, a: Outcome, b: Outcome, same: bool, unset: int)
    requires BinaryOutcome(op, a, b, same, unset).ok && BinaryOutcome(op, a, b, same, unset).ty == Label
    ensures op == Add || op == Subtract
    ensures !(a.ty == Label && b.ty == Label)
  {
    hide BinaryInt;
  }

  /** Evaluation without an error does not change when symbols are added. */
  lemma {:induction false} Stable(env: Env, more: Env, e: Expr)
    requires env.Acyclic() && more.Acyclic() && Adds(env, more) && IntEnv(env) && IntLiterals(e)
    requires !Eval(env, e).error
    ensures Stands(env, more, e)
    decreases env.Height(e), e
  {
    hide BinaryOutcome, UnaryOutcome, U16;
    match e {
      case Value(_) =>
      case Identifier(name, unset) =>
        if env.defs[name].Equ? { Stable(env, more, env.defs[name].expr); }
      case Priority(inner, unset) => Stable(env, more, inner);
      case Unary(op, x, unset) =>
        UnaryError(op, Eval(env, x), unset);
        Stable(env, more, x);
        if Eval(env, e).ok { UnaryLabel(op, Eval(env, x), unset); }
      case Binary(l, op, r, unset) =>
        Stable(env, more, l);
        if Eval(env, l).ok {
          Stable(env, more, r);
          if Eval(env, r).ok { BinaryStable(env, more, l, op, r, unset); }
        }
      case Conditional(c, t, f, unset) =>
        Stable(env, more, c);
        if Eval(env, c).ok { Stable(env, more, if Eval(env, c).Operand() != 0 then t else f); }
    }
  }

  lemma UnaryError(op: UnaryOp, a: Outcome, unset: int)
    ensures a.error ==> UnaryOutcome(op, a, unset).error
  {
  }

  lemma UnaryLabel(op: UnaryOp, a: Outcome, unset: int)
    requires UnaryOutcome(op, a, unset).ok
    ensures UnaryOutcome(op, a, unset).ty != Label
  {
  }
}
