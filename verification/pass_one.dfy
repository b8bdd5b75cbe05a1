/** The parser's actions: the operands are built, each statement's constructor reserves its room, then the label
    is added. */
module PassOneActions {
  import opened Machine
  import opened Expressions
  import opened ExactArithmetic
  import opened LazySymbols
  import opened Sections
  import opened InstructionSet
  import opened Layout
  import T = TwoPass
  import P = Placement

  /** The nodes built for some expressions. */
  ghost predicate Trees(ns: seq<Node>, xs: seq<Expr>, nodes: set<Node>)
  {
    |ns| == |xs| && forall i | 0 <= i < |xs| :: ns[i] in nodes && ns[i].tree == xs[i]
  }

  /** The nodes of the operands of every statement. */
  ghost predicate AllTrees(operands: seq<seq<Node>>, placed: seq<Placed>, nodes: set<Node>)
  {
    |operands| == |placed| && forall j | 0 <= j < |placed| :: Trees(operands[j], OperandsOf(placed[j].body), nodes)
  }

  lemma MoreTrees(operands: seq<seq<Node>>, placed: seq<Placed>, nodes: set<Node>, more: set<Node>)
    requires AllTrees(operands, placed, nodes) && nodes <= more
    ensures AllTrees(operands, placed, more)
  {
    hide OperandsOf;
    forall j | 0 <= j < |placed| ensures Trees(operands[j], OperandsOf(placed[j].body), more) {
      assert Trees(operands[j], OperandsOf(placed[j].body), nodes);
    }
  }

  lemma TextNext(zero: bool, strings: seq<Bytes>, i: nat)
    requires i < |strings|
    ensures TextBytes(zero, strings, i + 1)
            == TextBytes(zero, strings, i) + (strings[i] + if zero then [0] else [])
  {
  }

  lemma AlignOperand(body: Body)
    ensures body.Aligned? ==> OperandsOf(body) == [body.power]
  {
  }

  lemma AgreesSelf(a: Assembly)
    ensures Agrees(a, a)
  {
  }

  /** A statement after its `.` symbols. */
  function Completed(a: Assembly, s: Statement, rank: map<string, nat>): Assembly
    requires Ready(a, rank) && RankedBody(s.body, rank)
  {
    PlaceReady(a, s.body, rank);
    Labelled(Place(a, s.body, rank), s.labelName)
  }

  class Parser {
    const sections: SectionTable
    const evaluator: Evaluator
    var statements: seq<Placed>
    var operands: seq<seq<Node>>

    ghost predicate Valid()
      reads this, sections, sections.table, evaluator, evaluator.nodes, evaluator.symbols
    {
      && sections.Valid() && sections.table != [] && evaluator.Valid()
      && AllTrees(operands, statements, evaluator.nodes)
    }

    ghost function Model(): Assembly
      requires Valid()
      reads this, sections, sections.table, evaluator, evaluator.nodes, evaluator.symbols
    {
      Assembly(sections.Model(), evaluator.env.defs, statements, evaluator.errors > 0)
    }

    constructor (ghost rank: map<string, nat>)
      ensures Valid() && fresh(sections) && fresh(set s | s in sections.table)
      ensures fresh(evaluator) && fresh(evaluator.nodes) && fresh(evaluator.symbols)
      ensures Model() == Start() && evaluator.env.rank == rank && sections.located == []
    {
      sections := new SectionTable();
      evaluator := new Evaluator(rank);
      statements, operands := [], [];
      new;
      sections.SetSection(".text");
    }

    /** No section, node or symbol is lost, and new ones are new objects. */
    twostate predicate Keeps()
      reads this, sections, evaluator
    {
      && old(sections.table) <= sections.table && sections.located == old(sections.located)
      && (forall s | s in sections.table && s !in old(sections.table) :: fresh(s))
      && evaluator.Grown() && evaluator.env.rank == old(evaluator.env.rank)
    }

    lemma Current()
      requires Valid()
      ensures sections.current != null && sections.current in sections.table
      ensures sections.current.number == Model().table.current < |Model().table.records|
      ensures |sections.current.contents| == Model().Here()
    {
    }

    /** `Identifier::Identifier` for a `.` */
    method DefineDot(name: string)
      requires Valid()
      requires Model().table.current < |Model().table.records|
      requires name in Model().defs ==> Model().defs[name] == LabelAt(Model().table.current, Model().Here())
      modifies evaluator, evaluator.symbols
      ensures Valid() && evaluator.Grown() && evaluator.env.rank == old(evaluator.env.rank)
      ensures Model() == old(Model().(defs := Model().defs[name := LabelAt(Model().table.current, Model().Here())]))
    {
      hide SectionTable.Model, SectionTable.Valid, Evaluator.Valid;
      Current();
      ghost var before := evaluator.nodes;
      evaluator.AddDot(name, sections.current.number, |sections.current.contents|);
      MoreTrees(operands, statements, before, evaluator.nodes);
    }

    /** All `.` in a statement's operands */
    method DefineDots(dots: seq<string>)
      requires Valid() && forall d | d in dots :: d !in Model().defs
      modifies evaluator, evaluator.symbols
      ensures Valid() && evaluator.Grown() && evaluator.env.rank == old(evaluator.env.rank)
      ensures old(Model()).table.current < |old(Model()).table.records|
      ensures Model() == old(Model()).DefineDots(dots)
    {
      hide Valid, Model;
      Current();
      ghost var start := Model();
      for i := 0 to |dots|
        invariant Valid() && evaluator.Grown() && evaluator.env.rank == old(evaluator.env.rank)
        invariant Model() == start.(defs := Model().defs)
        invariant Model().DefineDots(dots[i..]) == start.DefineDots(dots)
        invariant forall d | d in dots && d in Model().defs ::
                    Model().defs[d] == LabelAt(start.table.current, start.Here())
      {
        assert dots[i..][0] == dots[i] && dots[i..][1..] == dots[i + 1..];
        DefineDot(dots[i]);
      }
    }

    /** The location fields of a statement, and the room it takes. */
    method Reserve(body: Body, ns: seq<Node>, size: nat)
      requires Valid() && !body.Text? && Trees(ns, OperandsOf(body), evaluator.nodes)
      modifies this`statements, this`operands, sections.current`contents
      ensures Valid() && Model() == old(Model()).Take(body, size)
    {
      hide SectionTable.Model, SectionTable.Valid, Evaluator.Valid, OperandsOf;
      Current();
      statements := statements + [Placed(body, sections.current.number, |sections.current.contents|, size)];
      operands := operands + [ns];
      sections.IncreaseHere(size);
    }

    /** One string, and its zero if it has one. */
    method AppendString(zero: bool, s: Bytes)
      requires Valid() && sections.Model().current < |sections.Model().records|
      modifies sections.current`contents
      ensures Valid() && sections.Model() == old(sections.Model()).Append(s + if zero then [0] else [])
    {
      hide SectionTable.Model, SectionTable.Valid, Evaluator.Valid;
      ghost var before := sections.Model();
      sections.AppendHere(s);
      if zero {
        sections.Append8Here(0);
        AppendTwice(before, s, [0]);
      } else {
        assert s + [] == s;
      }
    }

    method AppendText(zero: bool, strings: seq<Bytes>)
      requires Valid() && sections.Model().current < |sections.Model().records|
      modifies sections.current`contents
      ensures Valid() && sections.Model() == old(sections.Model()).Append(TextBytes(zero, strings, |strings|))
    {
      hide SectionTable.Model, SectionTable.Valid, Evaluator.Valid;
      ghost var before := sections.Model();
      AppendNothing(before);
      for i := 0 to |strings|
        invariant Valid() && sections.Model().current < |sections.Model().records|
        invariant sections.Model() == before.Append(TextBytes(zero, strings, i))
      {
        AppendString(zero, strings[i]);
        Current();
        TextNext(zero, strings, i);
        AppendTwice(before, TextBytes(zero, strings, i), strings[i] + if zero then [0] else []);
      }
    }

    /** `Dir_ascii::Dir_ascii` */
    method Ascii(zero: bool, strings: seq<Bytes>)
      requires Valid()
      modifies this`statements, this`operands, sections.current`contents
      ensures Valid()
      ensures Model() == old(Model()).Take(Text(zero, strings), |TextBytes(zero, strings, |strings|)|)
    {
      hide SectionTable.Model, SectionTable.Valid, Evaluator.Valid, TextBytes;
      Current();
      var offset := |sections.current.contents|;
      AppendText(zero, strings);
      Current();
      statements := statements
        + [Placed(Text(zero, strings), sections.current.number, offset, |sections.current.contents| - offset)];
      operands := operands + [[]];
    }

    /** `Dir_section::Dir_section` */
    method Section(name: string)
      requires Valid()
      modifies this`statements, this`operands, sections, sections.table
      ensures Valid() && Keeps()
      ensures Model() == old(Model()).Selected(name).Take(InSection(name), 0)
    {
      hide SectionTable.Model, SectionTable.Valid, State.Select, Evaluator.Valid;
      sections.SetSection(name);
      Current();
      Reserve(InSection(name), [], 0);
    }

    /** The size of `.space`, evaluated now. Once an error has been reported the caches, and so the size, may be
        anything. */
    method SizeOf(ghost size: Expr, n: Node) returns (room: nat, ghost failed: bool)
      requires Valid() && n in evaluator.nodes && n.tree == size
      modifies evaluator`errors, evaluator.nodes, evaluator.symbols
      ensures Valid() && evaluator.Grown() && evaluator.env.Acyclic() && Model() == old(Model()).Fail(failed)
      ensures old(Model()).error || (failed == SizeFails(evaluator.env, size) && room == SpaceSize(evaluator.env, size))
    {
      hide SectionTable.Model, SectionTable.Valid, Eval, Evaluator.Valid, Evaluator.Wired;
      evaluator.ValidParts();
      var known := evaluator.Evaluate(n);
      room := 0;
      if known {
        room := n.GetValue();
      } else {
        evaluator.Report();
      }
      failed := evaluator.errors > 0;
    }

    /** `Dir_space::Dir_space` */
    method SpaceOf(size: Expr, initial: Expr, ns: seq<Node>) returns (ghost room: nat, ghost failed: bool)
      requires Valid() && Trees(ns, [size, initial], evaluator.nodes)
      modifies this`statements, this`operands, sections.current`contents
      modifies evaluator`errors, evaluator.nodes, evaluator.symbols
      ensures Valid() && evaluator.Grown() && evaluator.env.Acyclic()
      ensures old(Model()).table.current < |old(Model()).table.records|
      ensures Model() == old(Model()).Fail(failed).Take(Space(size, initial), room)
      ensures old(Model()).error || (failed == SizeFails(evaluator.env, size) && room == SpaceSize(evaluator.env, size))
    {
      hide SectionTable.Model, SectionTable.Valid, Eval, Evaluator.Valid, SizeFails, SpaceSize;
      Current();
      var sizeInMemory;
      sizeInMemory, failed := SizeOf(size, ns[0]);
      room := sizeInMemory;
      Reserve(Space(size, initial), ns, sizeInMemory);
    }

    /** `Dir_equ::Dir_equ` */
    method EquOf(name: string, x: Expr, ns: seq<Node>)
      requires Valid() && Trees(ns, [x], evaluator.nodes)
      requires HeightIn(evaluator.env.rank, x) <= Rank(evaluator.env.rank, name)
      modifies this`statements, this`operands, sections.current`contents, evaluator, evaluator.nodes, evaluator.symbols
      ensures Valid() && evaluator.Grown() && evaluator.env.rank == old(evaluator.env.rank)
      ensures old(Model()).table.current < |old(Model()).table.records|
      ensures Model() == old(Model()).Define(name, Equ(old(Model()).table.current, x)).Take(Equal(name, x), 0)
    {
      hide SectionTable.Model, SectionTable.Valid, Evaluator.Valid, HeightIn;
      Current();
      ghost var before := evaluator.nodes;
      evaluator.AddEqu(name, sections.current.number, ns[0]);
      MoreTrees(operands, statements, before, evaluator.nodes);
      Reserve(Equal(name, x), ns, 0);
    }

    /** `Dir_align::Dir_align`: the operand's value field is read as it was built. */
    method AlignTo(x: Expr, ns: seq<Node>)
      requires Valid() && Trees(ns, [x], evaluator.nodes) && ns[0].value == Unassigned(x)
      modifies this`statements, this`operands, sections.current`contents
      ensures Valid()
      ensures Model() == old(Model()).Take(Aligned(x), AlignSize(old(Model()).Here(), x))
    {
      hide SectionTable.Model, SectionTable.Valid, Evaluator.Valid, P.Align;
      Current();
      var offset := |sections.current.contents|;
      Reserve(Aligned(x), ns, U32(P.Align(offset, ns[0].GetValue()) - offset));
    }

    /** `Statement::add_label` */
    method AddLabel(name: string)
      requires Valid() && statements != []
      modifies evaluator, evaluator.nodes, evaluator.symbols
      ensures Valid() && evaluator.Grown() && evaluator.env.rank == old(evaluator.env.rank)
      ensures Model() == Labelled(old(Model()), Some(name))
    {
      hide SectionTable.Model, SectionTable.Valid, Evaluator.Valid;
      var p := statements[|statements| - 1];
      ghost var before := evaluator.nodes;
      evaluator.AddLabel(name, p.section, p.offset);
      MoreTrees(operands, statements, before, evaluator.nodes);
    }

    /** Statements that only reserve room. */
    method Plain(body: Body, ns: seq<Node>)
      requires Valid() && Trees(ns, OperandsOf(body), evaluator.nodes) && Ready(Model(), evaluator.env.rank)
      requires body.Nothing? || body.Instr? || body.Values? || body.Aligned?
      requires body.Aligned? ==> ns[0].value == Unassigned(body.power)
      modifies this`statements, this`operands, sections.current`contents
      ensures Valid() && Model() == Place(old(Model()), body, evaluator.env.rank)
    {
      hide SectionTable.Model, SectionTable.Valid, Ready, Evaluator.Valid;
      Current();
      match body {
        case Nothing => Reserve(body, ns, 0);
        case Instr(_) => Reserve(body, ns, 2);
        case Values(grain, values) => Reserve(body, ns, grain * |values|);
        case Aligned(x) => AlignTo(x, ns);
      }
    }

    /** `.space` in a state of pass one. */
    method SpaceFor(body: Body, ns: seq<Node>)
      requires Valid() && Trees(ns, OperandsOf(body), evaluator.nodes) && body.Space?
      requires Ready(Model(), evaluator.env.rank)
      modifies this`statements, this`operands, sections.current`contents
      modifies evaluator`errors, evaluator.nodes, evaluator.symbols
      ensures Valid() && evaluator.Grown() && Ready(Model(), evaluator.env.rank) && statements != []
      ensures statements[|statements| - 1].section < |Model().table.records| && Model().defs == old(Model()).defs
      ensures Agrees(Model(), Place(old(Model()), body, evaluator.env.rank))
    {
      hide SectionTable.Model, SectionTable.Valid, Ready, Eval, Evaluator.Valid, SizeFails, SpaceSize, HeightIn;
      ghost var before, rank := Model(), evaluator.env.rank;
      PlaceReady(before, body, rank);
      ghost var room, failed := SpaceOf(body.size, body.initial, ns);
      FailReady(before, failed, rank);
      TakeReady(before.Fail(failed), body, room, rank);
      assert statements == before.placed + [Placed(body, before.table.current, before.Here(), room)];
      CurrentInTable(Model(), rank);
    }

    /** A body with an action of its own. */
    method Special(body: Body, ns: seq<Node>)
      requires Valid() && Trees(ns, OperandsOf(body), evaluator.nodes)
      requires Ready(Model(), evaluator.env.rank) && RankedBody(body, evaluator.env.rank)
      requires body.InSection? || body.Text? || body.Equal?
      modifies this, sections, sections.table, evaluator, evaluator.nodes, evaluator.symbols
      ensures Valid() && Keeps() && Model() == Place(old(Model()), body, old(evaluator.env.rank))
    {
      hide SectionTable.Model, SectionTable.Valid, Ready, Eval, State.Select, Evaluator.Valid, HeightIn;
      Current();
      match body {
        case InSection(name) => Section(name);
        case Text(zero, strings) => Ascii(zero, strings);
        case Equal(name, x) => EquOf(name, x, ns);
      }
    }

    /** The constructor of a statement's body. */
    method Construct(body: Body, ns: seq<Node>)
      requires Valid() && Trees(ns, OperandsOf(body), evaluator.nodes)
      requires Ready(Model(), evaluator.env.rank) && RankedBody(body, evaluator.env.rank)
      requires body.Aligned? ==> ns[0].value == Unassigned(body.power)
      modifies this, sections, sections.table, evaluator, evaluator.nodes, evaluator.symbols
      ensures Valid() && Keeps() && Ready(Model(), evaluator.env.rank) && statements != []
      ensures statements[|statements| - 1].section < |Model().table.records|
      ensures Model().defs.Keys <= old(Model()).defs.Keys + T.NamesOf(Statement(None, body, []))
      ensures Agrees(Model(), Place(old(Model()), body, old(evaluator.env.rank)))
    {
      hide SectionTable.Model, SectionTable.Valid, Ready, Evaluator.Valid, HeightIn, Place, OperandsOf, T.NamesOf;
      hide T.RightSize;
      PlaceReady(Model(), body, evaluator.env.rank);
      T.PlaceSettles(Model(), body, evaluator.env.rank);
      Current();
      match body {
        case Space(_, _) => SpaceFor(body, ns);
        case InSection(_) => Special(body, ns);
        case Text(_, _) => Special(body, ns);
        case Equal(_, _) => Special(body, ns);
        case _ => Plain(body, ns);
      }
    }

    /** The operands of a statement, built before it. */
    method BuildOperands(s: Statement) returns (ns: seq<Node>)
      requires Valid() && T.IntBody(s.body) && T.FreshHead(Model(), s)
      modifies evaluator, evaluator.symbols
      ensures Valid() && evaluator.Grown() && evaluator.env.rank == old(evaluator.env.rank)
      ensures old(Model()).table.current < |old(Model()).table.records|
      ensures Model() == old(Model()).DefineDots(s.dots)
      ensures Trees(ns, OperandsOf(s.body), evaluator.nodes)
      ensures s.body.Aligned? ==> ns[0].value == Unassigned(s.body.power)
    {
      hide SectionTable.Model, SectionTable.Valid, Evaluator.Valid, OperandsOf, IntLiterals, Unassigned;
      DefineDots(s.dots);
      ghost var before := evaluator.nodes;
      ns := evaluator.BuildAll(OperandsOf(s.body));
      MoreTrees(operands, statements, before, evaluator.nodes);
      AlignOperand(s.body);
    }

    /** A statement whose operands have been built: its constructor, then its label. */
    method Finish(s: Statement, ns: seq<Node>)
      requires Valid() && Trees(ns, OperandsOf(s.body), evaluator.nodes)
      requires Ready(Model(), evaluator.env.rank) && RankedBody(s.body, evaluator.env.rank)
      requires s.body.Aligned? ==> ns[0].value == Unassigned(s.body.power)
      modifies this, sections, sections.table, evaluator, evaluator.nodes, evaluator.symbols
      ensures Valid() && Keeps() && Ready(Model(), evaluator.env.rank)
      ensures Model().defs.Keys <= old(Model()).defs.Keys + T.NamesOf(s)
      ensures Agrees(Model(), Completed(old(Model()), s, old(evaluator.env.rank)))
    {
      hide SectionTable.Model, SectionTable.Valid, Evaluator.Valid, Ready, Place, RankedBody, OperandsOf, Valid;
      ghost var rank := evaluator.env.rank;
      PlaceReady(Model(), s.body, rank);
      Construct(s.body, ns);
      LabelledReady(Model(), s.labelName, rank);
      if s.labelName.Some? { AddLabel(s.labelName.value); }
    }

    /** One statement. */
    method Add(s: Statement)
      requires Valid() && Ready(Model(), evaluator.env.rank) && RankedBody(s.body, evaluator.env.rank)
      requires T.IntBody(s.body) && T.FreshHead(Model(), s)
      modifies this, sections, sections.table, evaluator, evaluator.nodes, evaluator.symbols
      ensures Valid() && Keeps() && Ready(Model(), evaluator.env.rank)
      ensures Model().defs.Keys <= old(Model()).defs.Keys + T.NamesOf(s)
      ensures Agrees(Model(), Advance(old(Model()), s, old(evaluator.env.rank)))
    {
      hide SectionTable.Model, SectionTable.Valid, Evaluator.Valid, Ready, Place, RankedBody, OperandsOf, Valid;
      hide Labelled;
      ghost var rank, before := evaluator.env.rank, Model();
      CurrentInTable(before, rank);
      DotsReady(before, s.dots, rank);
      T.DotsDefine(before, s.dots);
      var ns := BuildOperands(s);
      PlaceReady(Model(), s.body, rank);
      Finish(s, ns);
    }

    /** One statement, in a run that agrees with `spec` so far. */
    method AddNext(s: Statement, ghost spec: Assembly)
      requires Valid() && Ready(Model(), evaluator.env.rank) && RankedBody(s.body, evaluator.env.rank)
      requires T.IntBody(s.body) && T.FreshHead(Model(), s)
      requires Ready(spec, evaluator.env.rank) && Agrees(Model(), spec)
      modifies this, sections, sections.table, evaluator, evaluator.nodes, evaluator.symbols
      ensures Valid() && Keeps() && Ready(Model(), evaluator.env.rank)
      ensures Model().defs.Keys <= old(Model()).defs.Keys + T.NamesOf(s)
      ensures Agrees(Model(), Advance(spec, s, old(evaluator.env.rank)))
    {
      hide SectionTable.Model, SectionTable.Valid, Evaluator.Valid, Ready, Advance, RankedBody, T.NamesOf, T.IntBody;
      hide Valid, Model, Keeps, T.FreshHead;
      ghost var rank, before := evaluator.env.rank, Model();
      Add(s);
      if before.error {
        AdvanceError(before, s, rank);
        AdvanceError(spec, s, rank);
      }
    }

    /** Parsing a whole program. */
    method Parse(program: Program)
      requires Valid() && Ready(Model(), evaluator.env.rank) && Ranked(program, evaluator.env.rank)
      requires T.IntProgram(program) && T.Numbered(program) && T.FreshDots(Model(), program)
      modifies this, sections, sections.table, evaluator, evaluator.nodes, evaluator.symbols
      ensures Valid() && Keeps()
      ensures Agrees(Model(), PassOne(old(Model()), program, old(evaluator.env.rank)))
    {
      hide SectionTable.Model, SectionTable.Valid, Evaluator.Valid, Ready, Advance, RankedBody, T.NamesOf, T.IntBody;
      hide T.FreshDots, T.FreshHead, T.Numbered, AllTrees, Agrees;
      ghost var rank, spec := evaluator.env.rank, Model();
      AgreesSelf(spec);
      assert program[0..] == program;
      for i := 0 to |program|
        invariant Valid() && Keeps() && Ready(Model(), rank) && Ready(spec, rank) && Agrees(Model(), spec)
        invariant PassOne(spec, program[i..], rank) == PassOne(old(Model()), program, rank)
        invariant T.FreshDots(Model(), program[i..]) && T.Numbered(program[i..])
      {
        var s := program[i];
        ghost var before := Model();
        assert program[i..][0] == s && program[i..][1..] == program[i + 1..] && s in program;
        assert forall k | 0 <= k < |sections.table| ::
                 sections.table[k] in old(sections.table) || fresh(sections.table[k]);
        T.FirstFresh(before, program[i..]);
        AddNext(s, spec);
        T.StillFresh(before, Model(), program[i..]);
        spec := Advance(spec, s, rank);
      }
    }
  }
}
