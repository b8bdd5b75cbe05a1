/** Evaluation as the assembler does it: every node of an expression keeps the type and value of its
    last evaluation, and every `.equ` symbol is evaluated when it is first asked for and then cached. */
module LazySymbols {
  import opened Machine
  import opened Expressions
  import opened ExactArithmetic
  import opened Stability

  datatype Shape =
    | ValueNode
    | IdentifierNode(symbol: Symbol)
    | PriorityNode(inner: Node)
    | UnaryNode(uop: UnaryOp, operand: Node)
    | BinaryNode(left: Node, bop: BinaryOp, right: Node)
    | ConditionalNode(condition: Node, ifTrue: Node, ifFalse: Node)

  class Node {
    const shape: Shape
    ghost const tree: Expr
    var ty: ValueType
    var value: int
    ghost var done: bool  // has been evaluated

    constructor (shape: Shape, ghost tree: Expr, ty: ValueType, value: int)
      ensures this.shape == shape && this.tree == tree && this.ty == ty && this.value == value && !done
    {
      this.shape, this.tree, this.ty, this.value, this.done := shape, tree, ty, value, false;
    }

    function GetValue(): Word
      reads this
    {
      U16(value)
    }
  }

  class Symbol {
    const name: string
    var ty: ValueType
    var section: nat
    var expression: Node?

    constructor (name: string, ty: ValueType, section: nat, expression: Node?)
      ensures this.name == name && this.ty == ty && this.section == section && this.expression == expression
    {
      this.name, this.ty, this.section, this.expression := name, ty, section, expression;
    }

    /** `Symbol::get_value` */
    function GetValue(): int
      reads this, expression
    {
      if (ty == Absolute || ty == Label) && expression != null then expression.GetValue() else 0
    }
  }

  /** The node's shape is that of its expression. */
  ghost predicate Shaped(shape: Shape, e: Expr)
  {
    match shape
    case ValueNode => e.Value?
    case IdentifierNode(s) => e.Identifier? && s.name == e.name
    case PriorityNode(x) => e.Priority? && x.tree == e.inner
    case UnaryNode(op, x) => e.Unary? && op == e.uop && x.tree == e.operand
    case BinaryNode(l, op, r) => e.Binary? && op == e.bop && l.tree == e.left && r.tree == e.right
    case ConditionalNode(c, t, f) =>
      e.Conditional? && c.tree == e.condition && t.tree == e.ifTrue && f.tree == e.ifFalse
  }

  function Children(shape: Shape): set<Node>
  {
    match shape
    case PriorityNode(x) => {x}
    case UnaryNode(_, x) => {x}
    case BinaryNode(l, _, r) => {l, r}
    case ConditionalNode(c, t, f) => {c, t, f}
    case _ => {}
  }

  /** The nodes whose fields a parent may read after it has evaluated successfully. */
  ghost function Operands(env: Env, n: Node): (s: set<Node>)
    requires env.Acyclic()
    ensures s <= Children(n.shape)
  {
    match n.shape
    case ConditionalNode(c, t, f) => {c, if Eval(env, c.tree).Operand() != 0 then t else f}
    case _ => Children(n.shape)
  }

  /** An evaluated node's fields are what evaluating its expression afresh would leave there;
      any other node's are as they were built. */
  ghost predicate NodeCached(env: Env, n: Node, failed: bool)
    requires env.Acyclic()
    reads n, Operands(env, n)
  {
    if n.done then
      var r := Eval(env, n.tree);
      && n.ty == r.ty && n.value == r.value && (r.error ==> failed)
      && (r.ok ==> forall x | x in Operands(env, n) :: x.done)
    else
      n.value == Unassigned(n.tree)
  }

  /** A symbol has the section and the expression of its definition. */
  ghost predicate SymbolFits(env: Env, s: Symbol)
    reads s
  {
    if s.name !in env.defs then s.ty == Undefined && s.expression == null
    else
      && s.expression != null && s.section == env.defs[s.name].section
      && (match env.defs[s.name]
          case LabelAt(_, offset) => s.ty == Label && s.expression.tree == Value(I32(offset))
          case Equ(_, x) => s.expression.tree == x)
  }

  /** The type of an `.equ` is the one its expression has, once it was asked for. */
  ghost predicate SymbolCached(env: Env, s: Symbol)
    requires env.Acyclic()
    reads s, s.expression
  {
    s.name in env.defs && env.defs[s.name].Equ? && s.expression != null && s.ty != Undefined
    ==> s.expression.done && s.ty == Eval(env, env.defs[s.name].expr).ty
  }

  /** An operand as its parent reads it. */
  ghost predicate OperandRead(env: Env, e: Expr, ty: ValueType, value: Word, failed: bool)
    requires env.Acyclic()
  {
    var r := Eval(env, e);
    r.ok && ty == r.ty && value == r.Operand() && (r.error ==> failed)
  }

  /** An error-free cache is still right when symbols are added. */
  lemma NodeStable(env: Env, more: Env, n: Node)
    requires env.Acyclic() && more.Acyclic() && Adds(env, more) && IntEnv(env) && IntLiterals(n.tree)
    requires Shaped(n.shape, n.tree) && NodeCached(env, n, false)
    ensures NodeCached(more, n, false)
  {
    hide IntEnv, U16;
    if n.done {
      Stable(env, more, n.tree);
      if n.shape.ConditionalNode? && Eval(env, n.tree).ok {
        EvalConditional(env, n.tree);
        Stable(env, more, n.shape.condition.tree);
      }
    }
  }

  lemma SymbolStable(env: Env, more: Env, s: Symbol)
    requires env.Acyclic() && more.Acyclic() && Adds(env, more) && IntEnv(env)
    requires s.name in more.defs ==> s.name in env.defs
    requires SymbolFits(env, s) && SymbolCached(env, s)
    requires s.expression != null ==> NodeCached(env, s.expression, false)
    ensures SymbolCached(more, s)
  {
    hide Eval, Operands;
    if s.name in env.defs && env.defs[s.name].Equ? && s.ty != Undefined { Stable(env, more, s.expression.tree); }
  }

  lemma LiteralNode(shape: Shape, tree: Expr)
    requires Shaped(shape, tree)
    ensures shape.ValueNode? ==> tree.Value? && Unassigned(tree) == tree.literal
  {
  }

  /** A definition as the fields of a symbol; a label's expression is its offset as an `int`. */
  ghost predicate Describes(d: Definition, ty: ValueType, section: nat, e: Expr)
  {
    match d
    case LabelAt(at, offset) => ty == Label && section == at && e == Value(I32(offset))
    case Equ(at, x) => ty == Undefined && section == at && e == x
  }

  lemma UnknownSymbol(env: Env, s: Symbol)
    requires env.Acyclic() && s.name !in env.defs
    ensures SymbolCached(env, s)
  {
  }

  /** The definitions with one more; a second definition of a name changes nothing. */
  ghost function Defined(e: Env, name: string, d: Definition): Env
  {
    if name in e.defs then e else e.(defs := e.defs[name := d])
  }

  lemma Described(env: Env, d: Definition, s: Symbol)
    requires env.Acyclic() && s.name in env.defs && env.defs[s.name] == d && s.expression != null
    requires Describes(d, s.ty, s.section, s.expression.tree)
    ensures SymbolFits(env, s) && SymbolCached(env, s)
  {
  }

  /** The nodes and symbols of a program, and the definitions made so far. Once an error has been reported and
      more symbols are defined after it, the caches may be `stale`: the program is refused anyway. */
  class Evaluator {
    ghost var env: Env
    ghost var nodes: set<Node>
    ghost var symbols: set<Symbol>
    ghost var stale: bool
    var table: map<string, Symbol>
    var errors: nat

    /** How nodes refer to nodes and symbols; a literal is its own value. */
    ghost predicate Linked(n: Node)
      reads this`nodes, this`symbols, n
    {
      && Shaped(n.shape, n.tree) && Children(n.shape) <= nodes && IntLiterals(n.tree)
      && (n.shape.IdentifierNode? ==> n.shape.symbol in symbols)
      && (n.shape.ValueNode? ==> n.ty == Absolute && n.value == n.tree.literal)
    }

    ghost predicate SymbolLinked(s: Symbol)
      reads this`env, this`nodes, this`table, s
    {
      && SymbolFits(env, s) && (s.expression != null ==> s.expression in nodes)
      && (s.name !in env.defs ==> s.name in table && table[s.name] == s)
    }

    /** What holds whatever was evaluated: the definitions, and how nodes and symbols refer to each other. */
    ghost predicate Wired()
      reads this, nodes, symbols
    {
      && env.Acyclic() && IntEnv(env)
      && (forall n | n in nodes :: Linked(n))
      && (forall s | s in symbols :: SymbolLinked(s))
      && (forall name | name in table :: table[name] in symbols && table[name].name == name)
      && (forall name | name in env.defs :: name in table)
    }

    ghost predicate NodeOk(n: Node)
      requires env.Acyclic()
      reads this`env, this`stale, this`errors, n, Operands(env, n)
    {
      stale || NodeCached(env, n, errors > 0)
    }

    ghost predicate SymbolOk(s: Symbol)
      requires env.Acyclic()
      reads this`env, this`stale, s, s.expression
    {
      stale || SymbolCached(env, s)
    }

    /** The caches are those of some evaluations, in any order, each with the symbols defined by then. */
    ghost predicate Valid()
      reads this, nodes, symbols
    {
      && Wired() && (stale ==> errors > 0)
      && (forall n | n in nodes :: NodeOk(n))
      && (forall s | s in symbols :: SymbolOk(s))
    }

    /** Nothing is defined and nothing evaluated. */
    constructor (ghost rank: map<string, nat>)
      ensures Valid() && env == Env(map[], rank) && nodes == {} && symbols == {} && table == map[]
      ensures errors == 0 && !stale
    {
      env, nodes, symbols, stale, table, errors := Env(map[], rank), {}, {}, false, map[], 0;
    }

    /** A node over nodes and symbols that are there. */
    method NewNode(shape: Shape, ghost tree: Expr, value: int) returns (n: Node)
      requires Valid() && Shaped(shape, tree) && Children(shape) <= nodes && IntLiterals(tree)
      requires shape.IdentifierNode? ==> shape.symbol in symbols
      requires value == Unassigned(tree)
      modifies this`nodes
      ensures Valid() && fresh(n) && nodes == old(nodes) + {n}
      ensures n.shape == shape && n.tree == tree && n.value == value
    {
      hide Eval, Operands, Shaped, Children, SymbolFits, SymbolCached, IntEnv, IntLiterals;
      n := new Node(shape, tree, if shape.ValueNode? then Absolute else Undefined, value);
      nodes := nodes + {n};
      assert shape.ValueNode? ==> value == tree.literal by { LiteralNode(shape, tree); }
      forall m | m in nodes ensures NodeOk(m) { assert m != n ==> old(NodeOk(m)); }
    }

    /** `Identifier::Identifier`: a name that is not in the table gets a symbol without a definition. */
    method SymbolFor(name: string) returns (s: Symbol)
      requires Valid()
      modifies this`symbols, this`table
      ensures Valid() && s in symbols && s.name == name && (s.expression == null <==> name !in env.defs)
      ensures old(symbols) <= symbols
      ensures fresh(symbols - old(symbols))
    {
      hide Eval, Operands, Shaped, Children, IntEnv, IntLiterals, Valid, Wired, SymbolCached, Env.Acyclic;
      AllParts();
      if name in table {
        s := table[name];
        assert SymbolLinked(s);
        return;
      }
      s := new Symbol(name, Undefined, 0, null);
      table := table[name := s];
      symbols := symbols + {s};
      forall t | t in symbols && t != s ensures SymbolLinked(t) && SymbolOk(t) {
        assert old(SymbolOk(t)) && old(SymbolLinked(t));
      }
      UnknownSymbol(env, s);
      forall n | n in nodes ensures Linked(n) && NodeOk(n) { assert old(NodeOk(n)) && old(Linked(n)); }
      PartsValid();
    }

    /** The parser's expression constructors, from the operands up. */
    method Build(e: Expr) returns (n: Node)
      requires Valid() && IntLiterals(e)
      modifies this`nodes, this`symbols, this`table
      ensures Valid() && Grown() && n in nodes && n.tree == e && n.value == Unassigned(e)
      decreases e, 1
    {
      hide Valid, Linked, SymbolLinked, NodeOk, SymbolOk;
      match e {
        case Value(v) => n := NewNode(ValueNode, e, v);
        case Identifier(name, unset) =>
          var s := SymbolFor(name);
          n := NewNode(IdentifierNode(s), e, unset);
        case Priority(inner, unset) =>
          var x := Build(inner);
          n := NewNode(PriorityNode(x), e, unset);
        case Unary(op, operand, unset) =>
          var x := Build(operand);
          n := NewNode(UnaryNode(op, x), e, unset);
        case Binary(_, _, _, _) => n := BuildBinary(e);
        case Conditional(_, _, _, _) => n := BuildConditional(e);
      }
    }

    method BuildBinary(e: Expr) returns (n: Node)
      requires Valid() && IntLiterals(e) && e.Binary?
      modifies this`nodes, this`symbols, this`table
      ensures Valid() && Grown() && n in nodes && n.tree == e && n.value == Unassigned(e)
      decreases e, 0
    {
      hide Valid, Linked, SymbolLinked, NodeOk, SymbolOk;
      var l := Build(e.left);
      var r := Build(e.right);
      n := NewNode(BinaryNode(l, e.bop, r), e, e.unset);
    }

    method BuildConditional(e: Expr) returns (n: Node)
      requires Valid() && IntLiterals(e) && e.Conditional?
      modifies this`nodes, this`symbols, this`table
      ensures Valid() && Grown() && n in nodes && n.tree == e && n.value == Unassigned(e)
      decreases e, 0
    {
      hide Valid, Linked, SymbolLinked, NodeOk, SymbolOk;
      var c := Build(e.condition);
      var t := Build(e.ifTrue);
      var f := Build(e.ifFalse);
      n := NewNode(ConditionalNode(c, t, f), e, e.unset);
    }

    method BuildAll(xs: seq<Expr>) returns (ns: seq<Node>)
      requires Valid() && forall x | x in xs :: IntLiterals(x)
      modifies this`nodes, this`symbols, this`table
      ensures Valid() && Grown() && |ns| == |xs|
      ensures forall i | 0 <= i < |xs| :: ns[i] in nodes && ns[i].tree == xs[i] && ns[i].value == Unassigned(xs[i])
    {
      hide Valid, Wired, IntLiterals, Unassigned;
      ns := [];
      for k := 0 to |xs|
        invariant Valid() && Grown() && |ns| == k
        invariant forall i | 0 <= i < k :: ns[i] in nodes && ns[i].tree == xs[i] && ns[i].value == Unassigned(xs[i])
      {
        var n := Build(xs[k]);
        ns := ns + [n];
      }
    }

    /** Nodes and symbols are only added. */
    twostate predicate Grown()
      reads this
    {
      && old(nodes) <= nodes && fresh(nodes - old(nodes)) && old(symbols) <= symbols && fresh(symbols - old(symbols))
      && errors >= old(errors)
    }

    /** `Symbol::set_properties`, for a symbol without a definition; what was evaluated before still stands. */
    method SetProperties(s: Symbol, ghost d: Definition, ty: ValueType, section: nat, expression: Node)
      requires Valid() && s in symbols && s.name !in env.defs && expression in nodes
      requires Describes(d, ty, section, expression.tree)
      requires d.Equ? ==> env.Height(d.expr) <= env.RankOf(s.name)
      modifies this`env, this`stale, s
      ensures Valid() && env == old(env).(defs := old(env).defs[s.name := d])
    {
      hide Eval, Operands, Linked, IntEnv, HeightIn, SymbolFits, Adds, Env.Acyclic, Valid, Wired, SymbolCached;
      hide NodeCached, OtherFits;
      AllParts();
      assert SymbolLinked(s);
      ghost var more := env.(defs := env.defs[s.name := d]);
      StillAcyclic(s.name, d, expression);
      FitsStable(more, s);
      if errors == 0 { CachesStable(more, s); }
      Assign(s, d, ty, section, expression, more);
    }

    /** The fields of a symbol that `more` defines. */
    method Assign(s: Symbol, ghost d: Definition, ty: ValueType, section: nat, expression: Node, ghost more: Env)
      requires s in symbols && expression in nodes && table.Keys >= {s.name} && table[s.name] == s
      requires more.Acyclic() && IntEnv(more) && more.defs == env.defs[s.name := d]
      requires Describes(d, ty, section, expression.tree)
      requires forall n | n in nodes :: Linked(n)
      requires forall t | t in symbols && t != s :: OtherFits(more, t)
      requires errors == 0 ==> forall n | n in nodes :: NodeCached(more, n, false)
      requires errors == 0 ==> forall t | t in symbols && t != s :: SymbolCached(more, t)
      requires forall name | name in table :: table[name] in symbols && table[name].name == name
      requires (forall name | name in env.defs :: name in table) && (stale ==> errors > 0)
      modifies this`env, this`stale, s
      ensures Valid() && env == more
    {
      hide Eval, Operands, Linked, IntEnv, HeightIn, SymbolFits, Env.Acyclic, Valid, Wired, SymbolCached, Describes;
      env := more;
      stale := stale || errors > 0;
      s.ty, s.section, s.expression := ty, section, expression;
      forall n | n in nodes ensures Linked(n) && NodeOk(n) { assert old(Linked(n)); }
      forall t | t in symbols && t != s ensures SymbolLinked(t) && SymbolOk(t) {
        assert old(OtherFits(more, t));
      }
      Described(env, d, s);
      PartsValid();
    }

    /** `Valid` taken apart and put together. */
    lemma AllParts()
      requires Valid()
      ensures Wired() && env.Acyclic() && IntEnv(env) && (stale ==> errors > 0)
      ensures (forall n | n in nodes :: Linked(n)) && (forall s | s in symbols :: SymbolLinked(s))
      ensures (forall n | n in nodes :: NodeOk(n)) && (forall s | s in symbols :: SymbolOk(s))
      ensures forall name | name in table :: table[name] in symbols && table[name].name == name
      ensures forall name | name in env.defs :: name in table
    {
    }

    lemma PartsValid()
      requires env.Acyclic() && IntEnv(env) && (stale ==> errors > 0)
      requires (forall n | n in nodes :: Linked(n)) && (forall s | s in symbols :: SymbolLinked(s))
      requires (forall n | n in nodes :: NodeOk(n)) && (forall s | s in symbols :: SymbolOk(s))
      requires forall name | name in table :: table[name] in symbols && table[name].name == name
      requires forall name | name in env.defs :: name in table
      ensures Valid()
    {
      hide Linked, SymbolLinked, NodeOk, SymbolOk, IntEnv;
    }

    /** A symbol other than the one that `more` defines. */
    ghost predicate OtherFits(more: Env, t: Symbol)
      reads this`nodes, this`table, t
    {
      && SymbolFits(more, t) && (t.expression != null ==> t.expression in nodes)
      && (t.name !in more.defs ==> t.name in table && table[t.name] == t)
    }

    lemma FitsStable(more: Env, s: Symbol)
      requires Wired() && Adds(env, more) && s in symbols && s.name !in env.defs
      requires forall other | other in more.defs && other != s.name :: other in env.defs
      ensures forall t | t in symbols && t != s :: OtherFits(more, t)
    {
      hide Linked, IntEnv;
      forall t | t in symbols && t != s ensures OtherFits(more, t) { assert SymbolLinked(t) && SymbolLinked(s); }
    }

    lemma StillAcyclic(name: string, d: Definition, expression: Node)
      requires Valid() && name !in env.defs && expression in nodes
      requires d.Equ? ==> d.expr == expression.tree && env.Height(d.expr) <= env.RankOf(name)
      ensures var more := env.(defs := env.defs[name := d]);
              more.Acyclic() && IntEnv(more) && Adds(env, more)
    {
      hide HeightIn, IntLiterals, NodeOk, SymbolOk, SymbolLinked, Shaped, Children;
    }

    lemma CachesStable(more: Env, s: Symbol)
      requires Valid() && errors == 0 && more.Acyclic() && Adds(env, more) && s in symbols && s.name !in env.defs
      requires forall other | other in more.defs && other != s.name :: other in env.defs
      ensures forall m | m in nodes :: NodeCached(more, m, false)
      ensures forall t | t in symbols && t != s :: SymbolCached(more, t)
    {
      hide Eval, Operands, Children, NodeCached, SymbolCached, IntEnv, IntLiterals, SymbolFits;
      forall m | m in nodes ensures NodeCached(more, m, false) {
        assert NodeOk(m) && Linked(m);
        NodeStable(env, more, m);
      }
      forall t | t in symbols && t != s ensures SymbolCached(more, t) {
        assert SymbolOk(t) && SymbolLinked(t) && SymbolLinked(s);
        assert t.expression != null ==> NodeOk(t.expression);
        SymbolStable(env, more, t);
      }
    }

    /** What no evaluation changes, and what it only adds to. */
    twostate predicate Extends()
      reads this, nodes, symbols
    {
      && nodes == old(nodes) && symbols == old(symbols)
      && (forall m | m in old(nodes) :: old(m.done) ==> m.done)
      && (forall s | s in old(symbols) :: s.section == old(s.section) && s.expression == old(s.expression))
      && errors >= old(errors)
    }

    /** Node `n` has just been evaluated; unless the caches are stale, with the result and the error of
        evaluating it afresh. */
    twostate predicate Evaluated(n: Node, ok: bool)
      requires env.Acyclic()
      reads this, nodes, symbols, n
    {
      && Extends() && n.done && n.ty != Undefined && (ok ==> n.ty == Absolute || n.ty == Label)
      && (stale || (ok == Eval(env, n.tree).ok
                    && n.ty == Eval(env, n.tree).ty && n.value == Eval(env, n.tree).value
                    && (errors > 0 <==> old(errors) > 0 || Eval(env, n.tree).error)))
    }

    /** Assigns a node's type, and its value if `known`. */
    method Store(n: Node, ty: ValueType, known: bool, value: int)
      requires Valid() && n in nodes && ty != Undefined
      requires n.shape.ValueNode? ==> ty == Absolute && !known
      requires stale || var r := Eval(env, n.tree);
               && ty == r.ty && (if known then value == r.value else r.value == Unassigned(n.tree))
               && (r.ok ==> forall x | x in Operands(env, n) :: x.done) && (r.error ==> errors > 0)
      modifies n
      ensures Valid() && n.done && n.ty == ty
      ensures stale || n.value == Eval(env, n.tree).value
    {
      hide Eval, Operands, Shaped, Children, SymbolFits, IntEnv, IntLiterals;
      n.ty := ty;
      if known { n.value := value; }
      n.done := true;
      forall m | m in nodes && m != n ensures NodeOk(m) { assert old(NodeOk(m)); }
      forall s | s in symbols ensures SymbolOk(s) { assert old(SymbolOk(s)); }
      assert NodeOk(n);
    }

    method SetType(s: Symbol, ty: ValueType)
      requires Valid() && s in symbols && s.expression != null && s.name in env.defs && env.defs[s.name].Equ?
      requires ty != Undefined
      requires stale || (ty == DefinedType(env, s.name) && s.expression.done)
      modifies s`ty
      ensures Valid() && s.ty == ty
    {
      hide Eval, Operands, Shaped, Children, IntEnv;
      s.ty := ty;
    }

    /** `error_report` */
    method Report()
      requires Valid()
      modifies this`errors
      ensures Valid() && errors == old(errors) + 1
    {
      hide Eval, Operands, Unassigned, Shaped, Children, SymbolFits, SymbolCached, IntEnv;
      errors := errors + 1;
    }

    /** What `Valid` says of the definitions and of one node, for proofs that hide it. */
    lemma ValidParts()
      requires Valid()
      ensures Wired() && env.Acyclic() && IntEnv(env) && (stale ==> errors > 0)
    {
    }

    lemma TableParts(name: string)
      requires Valid()
      ensures name in env.defs ==> name in table
      ensures name in table ==> table[name] in symbols && table[name].name == name
    {
    }

    lemma NodeParts(n: Node)
      requires Valid() && n in nodes
      ensures env.Acyclic() && IntEnv(env) && IntLiterals(n.tree) && (stale ==> errors > 0)
      ensures Shaped(n.shape, n.tree) && Children(n.shape) <= nodes
      ensures n.shape.IdentifierNode? ==> n.shape.symbol in symbols
      ensures n.shape.ValueNode? ==> n.ty == Absolute && n.value == n.tree.literal
    {
    }

    method Evaluate(n: Node) returns (ok: bool)
      requires Valid() && n in nodes
      modifies this`errors, nodes, symbols
      ensures Valid() && Evaluated(n, ok)
      decreases env.Height(n.tree), n.tree, 1
    {
      hide Eval, Valid, Wired, IntEnv, IntLiterals;
      NodeParts(n);
      match n.shape {
        case ValueNode => ok := EvaluateValue(n);
        case IdentifierNode(_) => ok := EvaluateIdentifier(n);
        case PriorityNode(_) => ok := EvaluatePriority(n);
        case UnaryNode(_, _) => ok := EvaluateUnary(n);
        case BinaryNode(_, _, _) => ok := EvaluateBinary(n);
        case ConditionalNode(_, _, _) => ok := EvaluateConditional(n);
      }
    }

    /** `Symbol::get_type`: an `.equ` is evaluated the first time it is asked for. */
    method TypeOf(s: Symbol) returns (ty: ValueType)
      requires Valid() && s in symbols
      modifies this`errors, nodes, symbols
      ensures Valid() && Extends() && ty == s.ty && (ty == Undefined <==> s.name !in env.defs)
      ensures s.name !in env.defs ==> errors == old(errors)
      ensures stale || (ty == DefinedType(env, s.name)
                        && s.GetValue() == DefinedValue(env, s.name)
                        && (errors > 0 <==> old(errors) > 0 || DefinedError(env, s.name)))
      decreases env.RankOf(s.name)
    {
      hide Eval, Operands, Shaped, Children, IntEnv;
      if s.ty == Undefined && s.expression != null {
        var _ := Evaluate(s.expression);
        SetType(s, s.expression.ty);
      }
      ty := s.ty;
      if !stale && s.name in env.defs { CachedSymbol(s); }
    }

    /** A symbol that is not left to be evaluated has the type and value of its definition. */
    lemma CachedSymbol(s: Symbol)
      requires Valid() && !stale && s in symbols && s.name in env.defs && s.ty != Undefined
      ensures s.ty == DefinedType(env, s.name) && s.GetValue() == DefinedValue(env, s.name)
      ensures DefinedError(env, s.name) ==> errors > 0
    {
      hide Eval, Operands, Children, IntEnv;
      assert SymbolOk(s) && SymbolLinked(s) && NodeOk(s.expression) && Linked(s.expression);
      if env.defs[s.name].LabelAt? { SameLowHalf(env.defs[s.name].offset); }
    }

    /** `Value::evaluate` */
    method EvaluateValue(n: Node) returns (ok: bool)
      requires Valid() && n in nodes && n.shape.ValueNode?
      modifies this`errors, nodes, symbols
      ensures Valid() && Evaluated(n, ok)
    {
      hide Eval, Valid, Wired, IntEnv, IntLiterals;
      NodeParts(n);
      EvalValue(env, n.tree.literal);
      ok := FitsWord(n.value);
      Store(n, n.ty, false, 0);
    }

    /** `Identifier::evaluate` */
    method EvaluateIdentifier(n: Node) returns (ok: bool)
      requires Valid() && n in nodes && n.shape.IdentifierNode?
      modifies this`errors, nodes, symbols
      ensures Valid() && Evaluated(n, ok)
      decreases env.Height(n.tree), n.tree, 0
    {
      hide Eval, Valid, Wired, IntEnv, IntLiterals;
      NodeParts(n);
      EvalIdentifier(env, n.tree);
      var s := n.shape.symbol;
      var ty := TypeOf(s);
      ok := false;
      if ty == Undefined {
        Report();
        Store(n, Invalid, false, 0);
      } else if ty == Invalid {
        Store(n, Invalid, false, 0);
      } else {
        Store(n, ty, true, s.GetValue());
        ok := true;
      }
    }

    /** `Priority::evaluate` */
    method EvaluatePriority(n: Node) returns (ok: bool)
      requires Valid() && n in nodes && n.shape.PriorityNode?
      modifies this`errors, nodes, symbols
      ensures Valid() && Evaluated(n, ok)
      decreases env.Height(n.tree), n.tree, 0
    {
      hide Eval, Valid, Wired, IntEnv, IntLiterals;
      NodeParts(n);
      EvalPriority(env, n.tree);
      var x := n.shape.inner;
      ok := Evaluate(x);
      Store(n, x.ty, ok, x.GetValue());
    }

    /** `Unary_expression::evaluate` */
    method EvaluateUnary(n: Node) returns (ok: bool)
      requires Valid() && n in nodes && n.shape.UnaryNode?
      modifies this`errors, nodes, symbols
      ensures Valid() && Evaluated(n, ok)
      decreases env.Height(n.tree), n.tree, 0
    {
      hide Eval, Valid, Wired, IntEnv, IntLiterals, UnaryInt;
      NodeParts(n);
      EvalUnary(env, n.tree);
      var x := n.shape.operand;
      ok := Evaluate(x);
      if !ok {
        Store(n, x.ty, false, 0);
      } else if x.ty == Label {
        Report();
        Store(n, Invalid, false, 0);
        ok := false;
      } else {
        var v := UnaryInt(n.shape.uop, x.GetValue());
        ok := FitsWord(v);
        Store(n, Absolute, true, v);
      }
    }

    /** `get_symbol` of an evaluated label result, read off the nodes' fields. */
    method GetSymbol(n: Node) returns (name: string)
      requires Valid() && n in nodes
      requires stale || (n.done && Eval(env, n.tree).ok && Eval(env, n.tree).ty == Label)
      ensures stale || name == BaseSymbol(env, n.tree)
      decreases n.tree
    {
      name := "";
      match n.shape {
        case ValueNode =>
        case IdentifierNode(s) => name := s.name;
        case PriorityNode(x) => name := GetSymbol(x);
        case UnaryNode(_, _) =>
        case BinaryNode(l, op, r) =>
          if op == Add || op == Subtract {
            if l.ty == Label && r.ty == Absolute {
              name := GetSymbol(l);
            } else if l.ty == Absolute && r.ty == Label {
              name := GetSymbol(r);
            }
          }
        case ConditionalNode(c, t, f) =>
          if n.ty == Label && c.GetValue() != 0 {
            name := GetSymbol(t);
          } else {
            name := GetSymbol(f);
          }
      }
    }

    /** `Symbols::get_section`; -1 stands for the number past the last section. */
    function SectionAt(name: string): int
      requires Wired()
      reads this, nodes, symbols
    {
      if name in table then table[name].section else -1
    }

    lemma SectionDefined(name: string)
      requires Wired() && name in env.defs
      ensures SectionAt(name) == env.SectionOf(name)
    {
      assert SymbolLinked(table[name]);
    }

    /** Whether two evaluated labels belong to the same section. */
    method InSameSection(l: Node, r: Node) returns (same: bool)
      requires Valid() && l in nodes && r in nodes
      requires stale || (l.done && Eval(env, l.tree).ok && Eval(env, l.tree).ty == Label)
      requires stale || (r.done && Eval(env, r.tree).ok && Eval(env, r.tree).ty == Label)
      ensures stale || same == (env.SectionOf(BaseSymbol(env, l.tree)) == env.SectionOf(BaseSymbol(env, r.tree)))
    {
      hide Eval, NodeOk;
      var left := GetSymbol(l);
      var right := GetSymbol(r);
      same := SectionAt(left) == SectionAt(right);
      if !stale {
        LabelIsDefined(env, l.tree);
        LabelIsDefined(env, r.tree);
      }
    }

    /** `Binary_expression::evaluate` */
    method EvaluateBinary(n: Node) returns (ok: bool)
      requires Valid() && n in nodes && n.shape.BinaryNode?
      modifies this`errors, nodes, symbols
      ensures Valid() && Evaluated(n, ok)
      decreases env.Height(n.tree), n.tree, 0
    {
      hide Eval, Valid, Wired, IntEnv, IntLiterals, BinaryOutcome;
      NodeParts(n);
      EvalBinary(env, n.tree);
      var l, op, r := n.shape.left, n.shape.bop, n.shape.right;
      ok := Evaluate(l);
      if !ok {
        Store(n, l.ty, false, 0);
        return;
      }
      var a, x := l.ty, l.GetValue();
      ok := Evaluate(r);
      if !ok {
        Store(n, r.ty, false, 0);
        return;
      }
      ok := Operate(n, l, a, x, op, r, r.ty, r.GetValue());
    }

    /** Both operands of a binary node have been evaluated successfully, and their types and values read. */
    ghost predicate OperandsReady(l: Node, a: ValueType, x: Word, r: Node, b: ValueType, y: Word)
      requires env.Acyclic()
      reads this`env, this`stale, this`errors, l, r
    {
      && l.done && r.done && (a == Absolute || a == Label) && (b == Absolute || b == Label)
      && (stale || (OperandRead(env, l.tree, a, x, errors > 0) && OperandRead(env, r.tree, b, y, errors > 0)))
    }

    /** Node `n` has its operator's result. */
    twostate predicate Operated(n: Node, ok: bool)
      requires env.Acyclic()
      reads this, n
    {
      && errors >= old(errors) && n.done && n.ty != Undefined && (ok ==> n.ty == Absolute || n.ty == Label)
      && (stale || (ok == Eval(env, n.tree).ok
                    && n.ty == Eval(env, n.tree).ty && n.value == Eval(env, n.tree).value
                    && (errors > 0 <==> old(errors) > 0 || Eval(env, n.tree).error)))
    }

    /** Operators on two absolute operands. */
    method OperateAbsolutes(n: Node, l: Node, a: ValueType, x: Word, op: BinaryOp, r: Node, b: ValueType, y: Word)
      returns (ok: bool)
      requires Valid() && n in nodes && n.shape == BinaryNode(l, op, r)
      requires OperandsReady(l, a, x, r, b, y)
      requires IsAbsoluteOnly(op)
      modifies this`errors, n
      ensures Valid() && Operated(n, ok)
    {
      hide Eval, Valid, Wired, IntEnv, IntLiterals, BinaryInt;
      NodeParts(n);
      EvalBinary(env, n.tree);
      ok := false;
      if a == Label || b == Label {
        Fail(n);
      } else {
        if (op == Slash || op == Percent) && y == 0 {
          Fail(n);
        } else {
          var v := BinaryInt(op, x, y);
          ok := FitsWord(v);
          Store(n, Absolute, true, v);
        }
      }
    }

    /** Sums: at most one operand is a label. */
    method OperateSum(n: Node, l: Node, a: ValueType, x: Word, op: BinaryOp, r: Node, b: ValueType, y: Word)
      returns (ok: bool)
      requires Valid() && n in nodes && n.shape == BinaryNode(l, op, r)
      requires OperandsReady(l, a, x, r, b, y)
      requires op == Add
      modifies this`errors, n
      ensures Valid() && Operated(n, ok)
    {
      hide Eval, Valid, Wired, IntEnv, IntLiterals, BinaryInt;
      NodeParts(n);
      EvalBinary(env, n.tree);
      ok := false;
      if a == Label && b == Label {
        Fail(n);
      } else {
        var v: int := x as int + y as int;
        ok := FitsWord(v);
        if !ok { Report(); }
        Store(n, if a == Label || b == Label then Label else Absolute, true, v);
      }
    }

    /** Differences and comparisons: two labels must share their section. */
    method OperateDifference(n: Node, l: Node, a: ValueType, x: Word, op: BinaryOp, r: Node, b: ValueType, y: Word)
      returns (ok: bool)
      requires Valid() && n in nodes && n.shape == BinaryNode(l, op, r)
      requires OperandsReady(l, a, x, r, b, y)
      requires op == Subtract || IsRelational(op)
      modifies this`errors, n
      ensures Valid() && Operated(n, ok)
    {
      hide Eval, Valid, Wired, IntEnv, IntLiterals, BinaryInt;
      NodeParts(n);
      EvalBinary(env, n.tree);
      ok := false;
      var apart := false;
      if a == Label && b == Label {
        var same := InSameSection(l, r);
        apart := !same;
      }
      if apart {
        Fail(n);
      } else if op == Subtract {
        var v: int := x as int - y as int;
        ok := FitsWord(v);
        Store(n, if a != b then Label else Absolute, true, v);
      } else if a != b {
        Fail(n);
      } else {
        ok := true;
        Store(n, Absolute, true, BinaryInt(op, x, y));
      }
    }

    /** `Binary_expression::evaluate` once both operands have succeeded. */
    method Operate(n: Node, l: Node, a: ValueType, x: Word, op: BinaryOp, r: Node, b: ValueType, y: Word)
      returns (ok: bool)
      requires Valid() && n in nodes && n.shape == BinaryNode(l, op, r)
      requires OperandsReady(l, a, x, r, b, y)
      modifies this`errors, n
      ensures Valid() && Operated(n, ok)
    {
      hide Eval, Valid, Wired, IntEnv, IntLiterals;
      NodeParts(n);
      if IsAbsoluteOnly(op) {
        ok := OperateAbsolutes(n, l, a, x, op, r, b, y);
      } else if op == Add {
        ok := OperateSum(n, l, a, x, op, r, b, y);
      } else {
        ok := OperateDifference(n, l, a, x, op, r, b, y);
      }
    }

    /** Reports an error and marks the node invalid. */
    method Fail(n: Node)
      requires Valid() && n in nodes && !n.shape.ValueNode?
      requires stale || (!n.tree.Value? && Eval(env, n.tree) == Outcome(false, Invalid, n.tree.unset, true))
      modifies this`errors, n
      ensures Valid() && errors == old(errors) + 1 && n.done && n.ty == Invalid
      ensures stale || (!n.tree.Value? && n.value == n.tree.unset)
    {
      hide Eval, Valid, Wired, IntEnv, IntLiterals;
      NodeParts(n);
      Report();
      Store(n, Invalid, false, 0);
    }

    /** `Conditional_expression::evaluate` */
    method EvaluateConditional(n: Node) returns (ok: bool)
      requires Valid() && n in nodes && n.shape.ConditionalNode?
      modifies this`errors, nodes, symbols
      ensures Valid() && Evaluated(n, ok)
      decreases env.Height(n.tree), n.tree, 0
    {
      hide Eval, Valid, Wired, IntEnv, IntLiterals;
      NodeParts(n);
      EvalConditional(env, n.tree);
      var c := n.shape.condition;
      ok := Evaluate(c);
      if !ok {
        Store(n, Invalid, false, 0);
      } else if c.ty != Absolute {
        Report();
        Store(n, Invalid, false, 0);
        ok := false;
      } else {
        var x := if c.GetValue() != 0 then n.shape.ifTrue else n.shape.ifFalse;
        ok := Evaluate(x);
        Store(n, if ok then x.ty else Invalid, ok, x.GetValue());
      }
    }

    /** The symbol table's part of `Statement::add_label`: a name in use is an error, and asking whether it
        is in use may evaluate it. */
    method AddLabel(name: string, section: nat, offset: nat)
      requires Valid()
      modifies this, nodes, symbols
      ensures Valid() && Grown() && env == Defined(old(env), name, LabelAt(section, offset))
      ensures errors > 0 <==> old(errors) > 0 || name in old(env).defs
    {
      hide Valid, Wired;
      var s := SymbolFor(name);
      var ty := TypeOf(s);
      if ty == Undefined {
        var n := NewNode(ValueNode, Value(I32(offset)), I32(offset));
        SetProperties(s, LabelAt(section, offset), Label, section, n);
      } else {
        Report();
      }
    }

    /** The symbol table's part of `Dir_equ::Dir_equ` */
    method AddEqu(name: string, section: nat, n: Node)
      requires Valid() && n in nodes && env.Height(n.tree) <= env.RankOf(name)
      modifies this, nodes, symbols
      ensures Valid() && Grown() && env == Defined(old(env), name, Equ(section, n.tree))
      ensures errors > 0 <==> old(errors) > 0 || name in old(env).defs
    {
      hide Valid, Wired;
      var s := SymbolFor(name);
      if s.expression == null {
        SetProperties(s, Equ(section, n.tree), Undefined, section, n);
      } else {
        Report();
      }
    }

    /** `Identifier::Identifier` for a `.`, a new name: its symbol is a label from the start. */
    method AddDot(name: string, section: nat, offset: nat)
      requires Valid() && (name in env.defs ==> env.defs[name] == LabelAt(section, offset))
      modifies this`env, this`nodes, this`symbols, this`table, this`stale, symbols
      ensures Valid() && Grown() && env == Defined(old(env), name, LabelAt(section, offset))
      ensures errors == old(errors)
    {
      hide Valid, Wired;
      var s := SymbolFor(name);
      if s.expression == null {
        assert name !in env.defs;
        var n := NewNode(ValueNode, Value(I32(offset)), I32(offset));
        SetProperties(s, LabelAt(section, offset), Label, section, n);
      }
    }

    /** An operand as the visits read it: its type and value, and for a label its symbol's section. */
    method Read(n: Node) returns (r: Reading)
      requires Valid() && n in nodes
      modifies this`errors, nodes, symbols
      ensures Valid() && Extends()
      ensures stale || (ReadAs(env, n.tree, r) && (errors > 0 <==> old(errors) > 0 || Eval(env, n.tree).error))
    {
      hide Valid, Wired, Eval;
      ValidParts();
      var ok := Evaluate(n);
      var symbol, section := "", -1;
      if ok && n.ty == Label {
        symbol := GetSymbol(n);
        ValidParts();
        section := SectionAt(symbol);
        if !stale {
          NodeParts(n);
          LabelIsDefined(env, n.tree);
          SectionDefined(symbol);
        }
      }
      r := Reading(ok, n.ty, n.GetValue(), symbol, section);
    }

    /** Any number of evaluations and symbol look-ups in any order: each is answered as if it were the
        first, and an error is on record exactly if one of them, taken alone, reports one. */
    method Run(queries: seq<Query>) returns (answers: seq<Answer>)
      requires Valid() && !stale
      requires forall q | q in queries :: if q.EvaluateNode? then q.n in nodes else q.s in symbols
      modifies this`errors, nodes, symbols
      ensures Valid() && Extends() && |answers| == |queries|
      ensures forall i | 0 <= i < |queries| :: answers[i] == Afresh(env, queries[i])
      ensures errors > 0 <==> old(errors) > 0 || exists q | q in queries :: QueryError(env, q)
    {
      hide Eval, NodeOk, SymbolOk, Linked, Afresh, QueryError, Wired;
      assert env.Acyclic() by { ValidParts(); }
      answers := [];
      for k := 0 to |queries|
        invariant Valid() && Extends() && |answers| == k
        invariant forall i | 0 <= i < k :: answers[i] == Afresh(env, queries[i])
        invariant errors > 0 <==> old(errors) > 0 || exists q | q in queries[..k] :: QueryError(env, q)
      {
        var answer := Ask(queries[k]);
        answers := answers + [answer];
        assert queries[..k + 1] == queries[..k] + [queries[k]];
      }
      assert queries[..|queries|] == queries;
    }

    method Ask(q: Query) returns (answer: Answer)
      requires Valid() && (if q.EvaluateNode? then q.n in nodes else q.s in symbols)
      modifies this`errors, nodes, symbols
      ensures Valid() && Extends()
      ensures stale || (answer == Afresh(env, q) && (errors > 0 <==> old(errors) > 0 || QueryError(env, q)))
    {
      hide Eval, NodeOk, SymbolOk, Linked, Wired, DefinedError, DefinedType, DefinedValue;
      ValidParts();
      match q {
        case EvaluateNode(n) =>
          var ok := Evaluate(n);
          answer := Answer(ok, n.ty, n.GetValue());
        case AskSymbol(s) =>
          var ty := TypeOf(s);
          answer := Answer(true, ty, U16(s.GetValue()));
      }
    }

    /** One step of a run; the answer to a definition means nothing. */
    method Do(step: Step) returns (answer: Answer)
      requires Valid() && StepFits(env.rank, nodes, symbols, step)
      modifies this, nodes, symbols
      ensures Valid() && Grown() && env == After(old(env), step)
      ensures old(env).Acyclic() && IntEnv(old(env)) && env.Acyclic() && Adds(old(env), env)
      ensures errors > 0 <==> old(errors) > 0 || StepFails(old(env), step)
      ensures errors == 0 && step.Asked? ==> answer == Afresh(old(env), step.query)
    {
      hide Valid, Wired, Eval, HeightIn, Afresh, QueryError, Adds;
      AfterAdds(env, step);
      ValidParts();
      answer := Answer(true, Undefined, 0);
      match step {
        case Asked(q) => answer := Ask(q);
        case LabelAdded(name, section, offset) => AddLabel(name, section, offset);
        case EquAdded(name, section, n) => AddEqu(name, section, n);
      }
      ValidParts();
    }

    /** Evaluations, symbol look-ups and definitions in any order, as a parser and then a code generator make them.
        An error is on record exactly if one of them fails with the symbols defined by then. If none does, every
        answer given on the way is the one that evaluating afresh with all the symbols gives, whether a definition
        comes before its uses or after them; except that a symbol asked for before its definition was unknown. */
    method Perform(steps: seq<Step>) returns (answers: seq<Answer>)
      requires Valid() && errors == 0
      requires forall step | step in steps :: StepFits(env.rank, nodes, symbols, step)
      modifies this, nodes, symbols
      ensures Valid() && Grown() && env.Acyclic() && env == AfterAll(old(env), steps) && |answers| == |steps|
      ensures errors > 0 <==> SomeFails(old(env), steps)
      ensures errors == 0 ==> AllStand(old(env), env, steps, answers)
    {
      hide Valid, Wired, Eval, StepFits, StepFails, AllStand, After, AfterAll, IntEnv, SomeFails, Env.Acyclic;
      ValidParts();
      answers := [];
      Nothing(env, steps[..0], answers);
      for i := 0 to |steps|
        invariant Valid() && Grown() && env.Acyclic() && env.rank == old(env).rank && |answers| == i
        invariant env == AfterAll(old(env), steps[..i])
        invariant errors > 0 <==> SomeFails(old(env), steps[..i])
        invariant errors == 0 ==> AllStand(old(env), env, steps[..i], answers)
      {
        ghost var before := env;
        assert steps[..i + 1] == steps[..i] + [steps[i]] && steps[i] in steps;
        StillFits(env.rank, old(nodes), nodes, old(symbols), symbols, steps[i]);
        NextStep(old(env), steps[..i], steps[i]);
        var answer := Do(steps[i]);
        if errors == 0 {
          AllStandNext(old(env), before, env, old(nodes), old(symbols), steps[..i], answers, steps[i], answer);
        }
        answers := answers + [answer];
      }
      assert steps[..|steps|] == steps;
    }
  }

  /** What a parser or a code generator does with the evaluator. */
  datatype Step =
    | Asked(query: Query)
    | LabelAdded(name: string, section: nat, offset: nat)
    | EquAdded(name: string, section: nat, n: Node)

  /** A step about nodes and symbols that are there; an `.equ` comes after those it depends on. */
  ghost predicate StepFits(rank: map<string, nat>, nodes: set<Node>, symbols: set<Symbol>, step: Step)
  {
    match step
    case Asked(EvaluateNode(n)) => n in nodes && IntLiterals(n.tree)
    case Asked(AskSymbol(s)) => s in symbols
    case LabelAdded(_, _, _) => true
    case EquAdded(name, _, n) => n in nodes && HeightIn(rank, n.tree) <= Rank(rank, name)
  }

  lemma StillFits(rank: map<string, nat>, nodes: set<Node>, more: set<Node>, symbols: set<Symbol>, others: set<Symbol>,
                  step: Step)
    requires StepFits(rank, nodes, symbols, step) && nodes <= more && symbols <= others
    ensures StepFits(rank, more, others, step)
  {
    hide IntLiterals, HeightIn;
  }

  /** The definitions after a step. */
  ghost function After(env: Env, step: Step): Env
  {
    match step
    case Asked(_) => env
    case LabelAdded(name, section, offset) => Defined(env, name, LabelAt(section, offset))
    case EquAdded(name, section, n) => Defined(env, name, Equ(section, n.tree))
  }

  lemma AfterAdds(env: Env, step: Step)
    ensures Adds(env, After(env, step))
  {
  }

  ghost function AfterAll(env: Env, steps: seq<Step>): Env
  {
    if steps == [] then env else After(AfterAll(env, steps[..|steps| - 1]), steps[|steps| - 1])
  }

  ghost predicate StepFails(env: Env, step: Step)
  {
    match step
    case Asked(q) => env.Acyclic() && QueryError(env, q)
    case LabelAdded(name, _, _) => name in env.defs
    case EquAdded(name, _, _) => name in env.defs
  }

  /** An answer is right with all the symbols, and none of them is in error; `known` has the symbols defined by
      the time it was given. */
  ghost predicate AnswerStands(known: Env, env: Env, step: Step, answer: Answer)
    requires env.Acyclic()
  {
    match step
    case Asked(q) =>
      || (q.AskSymbol? && q.s.name !in known.defs)
      || (answer == Afresh(env, q) && !QueryError(env, q)
          && (if q.EvaluateNode? then IntLiterals(q.n.tree) else q.s.name in env.defs))
    case _ => true
  }

  ghost predicate AllStand(start: Env, env: Env, steps: seq<Step>, answers: seq<Answer>)
    requires env.Acyclic()
  {
    && |answers| == |steps|
    && forall k | 0 <= k < |steps| :: AnswerStands(AfterAll(start, steps[..k]), env, steps[k], answers[k])
  }

  /** Some step fails with the symbols defined by then. */
  ghost predicate SomeFails(start: Env, steps: seq<Step>)
  {
    exists k | 0 <= k < |steps| :: StepFails(AfterAll(start, steps[..k]), steps[k])
  }

  lemma Nothing(env: Env, steps: seq<Step>, answers: seq<Answer>)
    requires env.Acyclic() && steps == [] && answers == []
    ensures AllStand(env, env, steps, answers) && !SomeFails(env, steps) && AfterAll(env, steps) == env
  {
  }

  lemma NextStep(start: Env, steps: seq<Step>, step: Step)
    ensures AfterAll(start, steps + [step]) == After(AfterAll(start, steps), step)
    ensures SomeFails(start, steps + [step])
            <==> SomeFails(start, steps) || StepFails(AfterAll(start, steps), step)
  {
    hide After, StepFails;
    var all := steps + [step];
    assert all[..|steps|] == steps;
    assert forall k | 0 <= k < |steps| :: all[..k] == steps[..k] && all[k] == steps[k];
    if SomeFails(start, steps) {
      var k :| 0 <= k < |steps| && StepFails(AfterAll(start, steps[..k]), steps[k]);
      assert StepFails(AfterAll(start, all[..k]), all[k]);
    }
    if StepFails(AfterAll(start, steps), step) { assert StepFails(AfterAll(start, all[..|steps|]), all[|steps|]); }
  }

  lemma StandsNow(env: Env, more: Env, nodes: set<Node>, symbols: set<Symbol>, step: Step, answer: Answer)
    requires env.Acyclic() && more.Acyclic() && more == After(env, step) && !StepFails(env, step)
    requires StepFits(env.rank, nodes, symbols, step) && (step.Asked? ==> answer == Afresh(env, step.query))
    ensures AnswerStands(env, more, step, answer)
  {
    hide Eval, IntLiterals, Env.Acyclic, HeightIn;
  }

  /** What holds with some symbols holds with more. */
  lemma StandsLater(known: Env, env: Env, more: Env, step: Step, answer: Answer)
    requires env.Acyclic() && more.Acyclic() && Adds(env, more) && IntEnv(env) && AnswerStands(known, env, step, answer)
    ensures AnswerStands(known, more, step, answer)
  {
    hide Eval, IntLiterals, Env.Acyclic;
    if step.Asked? && !(step.query.AskSymbol? && step.query.s.name !in known.defs) {
      match step.query {
        case EvaluateNode(n) => Stable(env, more, n.tree);
        case AskSymbol(s) => if env.defs[s.name].Equ? { Stable(env, more, env.defs[s.name].expr); }
      }
    }
  }

  lemma AllStandNext(start: Env, env: Env, more: Env, nodes: set<Node>, symbols: set<Symbol>, steps: seq<Step>,
                    answers: seq<Answer>, step: Step, answer: Answer)
    requires env.Acyclic() && more.Acyclic() && IntEnv(env) && Adds(env, more) && AllStand(start, env, steps, answers)
    requires env == AfterAll(start, steps) && more == After(env, step) && !StepFails(env, step)
    requires StepFits(env.rank, nodes, symbols, step) && (step.Asked? ==> answer == Afresh(env, step.query))
    ensures AllStand(start, more, steps + [step], answers + [answer])
  {
    hide Eval, Env.Acyclic, IntEnv, Adds, StepFits, StepFails, AnswerStands, After, Afresh, AfterAll;
    var all := steps + [step];
    forall k | 0 <= k < |all| ensures AnswerStands(AfterAll(start, all[..k]), more, all[k], (answers + [answer])[k]) {
      if k < |steps| {
        assert all[..k] == steps[..k];
        StandsLater(AfterAll(start, steps[..k]), env, more, steps[k], answers[k]);
      } else {
        assert all[..k] == steps;
        StandsNow(env, more, nodes, symbols, step, answer);
      }
    }
  }

  datatype Query = EvaluateNode(n: Node) | AskSymbol(s: Symbol)

  datatype Answer = Answer(ok: bool, ty: ValueType, value: Word)

  /** The answer to a query when nothing is cached. */
  ghost function Afresh(env: Env, q: Query): Answer
    requires env.Acyclic()
  {
    match q
    case EvaluateNode(n) => var r := Eval(env, n.tree); Answer(r.ok, r.ty, U16(r.value))
    case AskSymbol(s) => Answer(true, DefinedType(env, s.name), U16(DefinedValue(env, s.name)))
  }

  ghost predicate QueryError(env: Env, q: Query)
    requires env.Acyclic()
  {
    match q
    case EvaluateNode(n) => Eval(env, n.tree).error
    case AskSymbol(s) => DefinedError(env, s.name)
  }
}
