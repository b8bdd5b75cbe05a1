/** What pass two may rely on: definitions only accumulate, so what pass one evaluated still stands. */
module TwoPass {
  import opened Expressions
  import opened ExactArithmetic
  import opened Sections
  import opened InstructionSet
  import opened Layout
  import opened Stability

  /** The names a statement defines. */
  function NamesOf(s: Statement): set<string>
  {
    (set d | d in s.dots) + (if s.labelName.Some? then {s.labelName.value} else {})
    + if s.body.Equal? then {s.body.name} else {}
  }

  /** A `.` symbol is named after its line, with a character no identifier has. */
  ghost predicate Numbered(program: Program)
  {
    forall i, j, d | 0 <= i < j < |program| && d in program[j].dots :: d !in NamesOf(program[i])
  }

  /** Literals the parser can produce. */
  predicate IntBody(body: Body) { forall x | x in OperandsOf(body) :: IntLiterals(x) }

  predicate IntProgram(program: Program) { forall s | s in program :: IntBody(s.body) }

  /** Symbols and statements are only added, and an error stays. */
  ghost predicate Grows(a: Assembly, b: Assembly)
  {
    && a.placed <= b.placed && (a.error ==> b.error)
    && forall name | name in a.defs :: name in b.defs && b.defs[name] == a.defs[name]
  }

  /** The room a statement is entitled to. */
  predicate RightSize(env: Env, p: Placed)
    requires env.Acyclic()
  {
    match p.body
    case Instr(_) => p.size == 2
    case Values(grain, values) => p.size == grain * |values|
    case Text(zero, strings) => p.size == |TextBytes(zero, strings, |strings|)|
    case Space(size, _) => !SizeFails(env, size) && p.size == Eval(env, size).Operand()
    case Aligned(x) => p.size == AlignSize(p.offset, x)
    case _ => p.size == 0
  }

  /** What a statement has when pass one ends: its room, its label at the start of that room, and the
      symbol it defines, in its section. */
  ghost predicate Settled(env: Env, s: Statement, p: Placed)
    requires env.Acyclic()
  {
    && p.body == s.body && RightSize(env, p)
    && (s.labelName.Some?
        ==> s.labelName.value in env.defs && env.defs[s.labelName.value] == LabelAt(p.section, p.offset))
    && (s.body.Equal? ==> s.body.name in env.defs && env.defs[s.body.name] == Equ(p.section, s.body.expr))
    && (!s.body.InSection? ==> forall d | d in s.dots :: d in env.defs && env.defs[d] == LabelAt(p.section, p.offset))
  }

  lemma RightSizeStable(env: Env, more: Env, p: Placed)
    requires env.Acyclic() && more.Acyclic() && Adds(env, more) && IntEnv(env) && IntBody(p.body)
    requires RightSize(env, p)
    ensures RightSize(more, p)
  {
    hide Eval, IntEnv, IntLiterals;
    if p.body.Space? { Stable(env, more, p.body.size); }
  }

  lemma SettledStable(env: Env, more: Env, s: Statement, p: Placed)
    requires env.Acyclic() && more.Acyclic() && Adds(env, more) && IntEnv(env) && IntBody(s.body)
    requires Settled(env, s, p)
    ensures Settled(more, s, p)
  {
    hide RightSize, IntEnv, IntBody;
    RightSizeStable(env, more, p);
  }

  lemma {:induction false} DotsDefine(a: Assembly, dots: seq<string>)
    requires a.table.current < |a.table.records|
    ensures var b := a.DefineDots(dots);
            && b.table == a.table && b.placed == a.placed && b.error == a.error
            && (forall name :: name in b.defs <==> name in a.defs || name in dots)
            && (forall name | name in dots :: b.defs[name] == LabelAt(a.table.current, a.Here()))
            && (forall name | name in a.defs && name !in dots :: b.defs[name] == a.defs[name])
    decreases |dots|
  {
    if dots != [] {
      var next := a.(defs := a.defs[dots[0] := LabelAt(a.table.current, a.Here())]);
      DotsDefine(next, dots[1..]);
      assert forall d :: d in dots <==> d == dots[0] || d in dots[1..];
    }
  }

  /** One body: what it places, and the names it defines. */
  lemma PlaceSettles(a: Assembly, body: Body, rank: map<string, nat>)
    requires Ready(a, rank) && RankedBody(body, rank)
    ensures var b := Place(a, body, rank); var p := b.placed[|a.placed|];
            && Grows(a, b) && b.defs.Keys <= a.defs.Keys + NamesOf(Statement(None, body, []))
            && |b.placed| == |a.placed| + 1 && p.body == body
            && (!body.InSection? ==> p.section == a.table.current && p.offset == a.Here())
            && (body.Equal? && !b.error ==> body.name in b.defs && b.defs[body.name] == Equ(p.section, body.expr))
            && (!b.error ==> RightSize(Env(a.defs, rank), p))
  {
    hide Eval, State.Select, Reserved, TextBytes, AlignSize, HeightIn, SizeFails;
    CurrentInTable(a, rank);
    SpaceEnv(a, rank);
    if body.Space? { KnownSize(Env(a.defs, rank), body.size); }
  }

  lemma KnownSize(env: Env, size: Expr)
    requires env.Acyclic()
    ensures !SizeFails(env, size) ==> SpaceSize(env, size) == Eval(env, size).Operand()
  {
  }

  /** Only an `.equ` defines an expression. */
  ghost predicate SameEqus(a: Assembly, b: Assembly, body: Body)
  {
    forall name | name in b.defs && b.defs[name].Equ? ::
      (name in a.defs && a.defs[name] == b.defs[name]) || body == Equal(name, b.defs[name].expr)
  }

  lemma PlaceEqus(a: Assembly, body: Body, rank: map<string, nat>)
    requires Ready(a, rank) && RankedBody(body, rank)
    ensures SameEqus(a, Place(a, body, rank), body)
  {
    hide Eval, State.Select, Reserved, TextBytes, AlignSize, HeightIn, SizeFails, SpaceSize;
  }

  lemma StillInt(a: Assembly, b: Assembly, body: Body, rank: map<string, nat>)
    requires IntEnv(Env(a.defs, rank)) && IntBody(body) && SameEqus(a, b, body)
    ensures IntEnv(Env(b.defs, rank))
  {
    hide IntLiterals;
  }

  lemma LabelSettles(a: Assembly, labelName: Option<string>)
    requires a.placed != []
    ensures var b, p := Labelled(a, labelName), a.placed[|a.placed| - 1];
            && Grows(a, b) && SameEqus(a, b, Nothing) && b.placed == a.placed
            && b.defs.Keys <= a.defs.Keys + NamesOf(Statement(labelName, Nothing, []))
            && (labelName.Some? && !b.error
                ==> labelName.value in b.defs && b.defs[labelName.value] == LabelAt(p.section, p.offset))
  {
  }

  /** One statement adds its own names and settles its own room and symbols, and nothing else changes. */
  lemma StepSettles(a: Assembly, s: Statement, rank: map<string, nat>)
    requires Ready(a, rank) && RankedBody(s.body, rank) && IntEnv(Env(a.defs, rank)) && IntBody(s.body)
    requires forall d | d in s.dots :: d !in a.defs
    ensures var b := Advance(a, s, rank);
            && Env(b.defs, rank).Acyclic() && Grows(a, b) && IntEnv(Env(b.defs, rank))
            && b.defs.Keys <= a.defs.Keys + NamesOf(s)
            && (!b.error ==> Settled(Env(b.defs, rank), s, b.placed[|a.placed|]))
  {
    hide Eval, Place, IntLiterals, IntEnv, IntBody, RightSize, HeightIn, Ready, Labelled, RankedBody, SameEqus;
    CurrentInTable(a, rank);
    DotsReady(a, s.dots, rank);
    DotsDefine(a, s.dots);
    var dotted := a.DefineDots(s.dots);
    PlaceReady(dotted, s.body, rank);
    PlaceSettles(dotted, s.body, rank);
    PlaceEqus(dotted, s.body, rank);
    var placed := Place(dotted, s.body, rank);
    LabelledReady(placed, s.labelName, rank);
    LabelSettles(placed, s.labelName);
    var b := Labelled(placed, s.labelName);
    SpaceEnv(dotted, rank);
    SpaceEnv(b, rank);
    assert SameEqus(a, dotted, s.body) by { DotsEqus(a, s.dots, s.body); }
    StillInt(a, dotted, s.body, rank);
    StillInt(dotted, placed, s.body, rank);
    assert IntEnv(Env(b.defs, rank)) by { NothingInt(); StillInt(placed, b, Nothing, rank); }
    assert Adds(Env(dotted.defs, rank), Env(b.defs, rank));
    if !b.error { RightSizeStable(Env(dotted.defs, rank), Env(b.defs, rank), b.placed[|a.placed|]); }
  }

  lemma NothingInt()
    ensures IntBody(Nothing)
  {
  }

  lemma DotsEqus(a: Assembly, dots: seq<string>, body: Body)
    requires a.table.current < |a.table.records| && forall d | d in dots :: d !in a.defs
    ensures SameEqus(a, a.DefineDots(dots), body)
  {
    DotsDefine(a, dots);
  }

  /** Every `.equ` symbol comes from a statement. */
  ghost predicate EqusPlaced(a: Assembly)
  {
    forall name | name in a.defs && a.defs[name].Equ? ::
      exists p | p in a.placed :: p.body == Equal(name, a.defs[name].expr)
  }

  lemma StepEqus(a: Assembly, s: Statement, rank: map<string, nat>)
    requires Ready(a, rank) && RankedBody(s.body, rank) && FreshHead(a, s) && EqusPlaced(a)
    ensures EqusPlaced(Advance(a, s, rank))
  {
    hide Place, RightSize, HeightIn, Ready, Labelled, RankedBody;
    CurrentInTable(a, rank);
    DotsReady(a, s.dots, rank);
    DotsEqus(a, s.dots, s.body);
    var dotted, b := a.DefineDots(s.dots), Advance(a, s, rank);
    PlaceReady(dotted, s.body, rank);
    PlaceSettles(dotted, s.body, rank);
    PlaceEqus(dotted, s.body, rank);
    LabelSettles(Place(dotted, s.body, rank), s.labelName);
    assert forall p | p in a.placed :: p in b.placed;
    assert b.placed[|a.placed|].body == s.body;
  }

  lemma {:induction false} RunEqus(a: Assembly, program: Program, rank: map<string, nat>)
    requires Ready(a, rank) && Ranked(program, rank) && IntProgram(program) && IntEnv(Env(a.defs, rank))
    requires Numbered(program) && FreshDots(a, program) && EqusPlaced(a)
    ensures EqusPlaced(PassOne(a, program, rank))
    decreases |program|
  {
    hide Ready, Advance, NamesOf, IntEnv, IntBody, RankedBody, Settled, FreshDots, Numbered, EqusPlaced;
    if program != [] {
      assert FreshHead(a, program[0]) by { FirstFresh(a, program); }
      StepSettles(a, program[0], rank);
      FreshDotsRest(a, program, rank);
      StepEqus(a, program[0], rank);
      RunEqus(Advance(a, program[0], rank), program[1..], rank);
    }
  }

  /** `.` symbols of a program that are not defined yet. */
  ghost predicate FreshDots(a: Assembly, program: Program)
  {
    forall s, d | s in program && d in s.dots :: d !in a.defs
  }

  /** The names a statement adds are no `.` symbols of later ones. */
  lemma StillFresh(a: Assembly, b: Assembly, program: Program)
    requires program != [] && Numbered(program) && FreshDots(a, program)
    requires b.defs.Keys <= a.defs.Keys + NamesOf(program[0])
    ensures Numbered(program[1..]) && FreshDots(b, program[1..])
  {
    hide NamesOf;
    var rest := program[1..];
    forall s, d | s in rest && d in s.dots ensures d !in b.defs {
      var j :| 0 <= j < |rest| && rest[j] == s;
      assert program[j + 1] == s;
    }
  }

  lemma FreshDotsRest(a: Assembly, program: Program, rank: map<string, nat>)
    requires Ready(a, rank) && Ranked(program, rank) && IntProgram(program) && IntEnv(Env(a.defs, rank))
    requires program != [] && Numbered(program) && FreshDots(a, program)
    ensures FreshDots(Advance(a, program[0], rank), program[1..]) && Numbered(program[1..])
  {
    hide Ready, Advance, NamesOf, IntEnv, IntBody, RankedBody, Settled;
    StepSettles(a, program[0], rank);
    StillFresh(a, Advance(a, program[0], rank), program);
  }

  /** The symbols and rooms of an error-free program when pass one ends: a label stands for the offset of
      its statement in its statement's section, whatever comes after; an `.equ` keeps its expression and
      the section it was written in; `.space` sizes are the ones the final symbols give. */
  lemma {:induction false} PassOneSettles(a: Assembly, program: Program, rank: map<string, nat>)
    requires Ready(a, rank) && Ranked(program, rank) && IntProgram(program) && IntEnv(Env(a.defs, rank))
    requires Numbered(program) && FreshDots(a, program)
    ensures var b := PassOne(a, program, rank);
            && Env(b.defs, rank).Acyclic() && Grows(a, b) && IntEnv(Env(b.defs, rank))
            && (!b.error ==> forall i | 0 <= i < |program| ::
                  Settled(Env(b.defs, rank), program[i], b.placed[|a.placed| + i]))
    decreases |program|
  {
    hide Ready, Advance, NamesOf, IntEnv, IntBody, RankedBody, Settled, FreshDots, Numbered;
    var b := PassOne(a, program, rank);
    SpaceEnv(b, rank);
    if program != [] {
      var next := Advance(a, program[0], rank);
      assert FreshHead(a, program[0]) by { FirstFresh(a, program); }
      StepSettles(a, program[0], rank);
      FreshDotsRest(a, program, rank);
      PassOneSettles(next, program[1..], rank);
      if !b.error {
        SettledStable(Env(next.defs, rank), Env(b.defs, rank), program[0], next.placed[|a.placed|]);
        forall i | 0 <= i < |program| ensures Settled(Env(b.defs, rank), program[i], b.placed[|a.placed| + i]) {
          if i > 0 { assert program[i] == program[1..][i - 1]; }
        }
      }
    }
  }

  ghost predicate FreshHead(a: Assembly, s: Statement) { forall d | d in s.dots :: d !in a.defs }

  lemma FirstFresh(a: Assembly, program: Program)
    requires program != [] && FreshDots(a, program)
    ensures FreshHead(a, program[0])
  {
  }

  /** The statement gives `name` a definition by its label or its `.equ`. */
  predicate Defines(s: Statement, name: string)
  {
    s.labelName == Some(name) || (s.body.Equal? && s.body.name == name)
  }

  /** A statement that defines a name again is an error. */
  lemma DefinedAlready(a: Assembly, s: Statement, rank: map<string, nat>, name: string)
    requires Ready(a, rank) && RankedBody(s.body, rank) && Defines(s, name) && name in a.defs
    ensures Advance(a, s, rank).error
  {
    hide Eval, State.Select, Reserved, TextBytes, AlignSize, HeightIn, SizeFails, Ready;
    CurrentInTable(a, rank);
    DotsReady(a, s.dots, rank);
    DotsDefine(a, s.dots);
    PlaceReady(a.DefineDots(s.dots), s.body, rank);
    PlaceSettles(a.DefineDots(s.dots), s.body, rank);
  }

  /** A name that is defined stays defined, and a later definition of it is an error however far off. */
  lemma {:induction false} RedefinitionFails(a: Assembly, program: Program, rank: map<string, nat>, i: nat,
                                             name: string)
    requires Ready(a, rank) && Ranked(program, rank) && IntProgram(program) && IntEnv(Env(a.defs, rank))
    requires Numbered(program) && FreshDots(a, program)
    requires i < |program| && Defines(program[i], name) && name in a.defs
    ensures PassOne(a, program, rank).error
    decreases |program|
  {
    hide Ready, Advance, NamesOf, IntEnv, IntBody, RankedBody, Settled, FreshDots, Numbered, Defines;
    assert FreshHead(a, program[0]) by { FirstFresh(a, program); }
    StepSettles(a, program[0], rank);
    FreshDotsRest(a, program, rank);
    var next := Advance(a, program[0], rank);
    if i == 0 {
      DefinedAlready(a, program[0], rank, name);
      PassOneSettles(next, program[1..], rank);
    } else {
      RedefinitionFails(next, program[1..], rank, i - 1, name);
    }
  }

  /** No error-free program defines a name twice. */
  lemma {:induction false} DefinedOnce(a: Assembly, program: Program, rank: map<string, nat>, i: nat, j: nat,
                                       name: string)
    requires Ready(a, rank) && Ranked(program, rank) && IntProgram(program) && IntEnv(Env(a.defs, rank))
    requires Numbered(program) && FreshDots(a, program)
    requires i < j < |program| && Defines(program[i], name) && Defines(program[j], name)
    ensures PassOne(a, program, rank).error
    decreases |program|
  {
    hide Ready, Advance, NamesOf, IntEnv, IntBody, RankedBody, Settled, FreshDots, Numbered, Defines;
    assert FreshHead(a, program[0]) by { FirstFresh(a, program); }
    StepSettles(a, program[0], rank);
    FreshDotsRest(a, program, rank);
    var next := Advance(a, program[0], rank);
    if i > 0 {
      DefinedOnce(next, program[1..], rank, i - 1, j - 1, name);
    } else if next.error {
      PassOneSettles(next, program[1..], rank);
    } else {
      assert name in next.defs by { SettledName(Env(next.defs, rank), program[0], next.placed[|a.placed|], name); }
      RedefinitionFails(next, program[1..], rank, j - 1, name);
    }
  }

  lemma SettledName(env: Env, s: Statement, p: Placed, name: string)
    requires env.Acyclic() && Settled(env, s, p) && Defines(s, name)
    ensures name in env.defs
  {
    hide RightSize;
  }

  /** Statement `s` defines a name that is in use, or the same name twice. */
  predicate Twice(used: set<string>, s: Statement)
  {
    || (s.body.Equal? && (s.body.name in used || s.body.name in s.dots))
    || (s.labelName.Some? && (s.labelName.value in used || s.labelName.value in s.dots))
    || (s.body.Equal? && s.labelName == Some(s.body.name))
  }

  /** The size of `.space` cannot be evaluated, or is an error, with the symbols defined by then. */
  predicate SizeUnknown(a: Assembly, s: Statement, rank: map<string, nat>)
    requires Ready(a, rank)
  {
    && s.body.Space? && a.table.current < |a.table.records|
    && (DotsReady(a, s.dots, rank); SizeFails(Env(a.DefineDots(s.dots).defs, rank), s.body.size))
  }

  lemma StepErrorIff(a: Assembly, s: Statement, rank: map<string, nat>)
    requires Ready(a, rank) && RankedBody(s.body, rank)
    ensures Advance(a, s, rank).error <==> a.error || Twice(a.defs.Keys, s) || SizeUnknown(a, s, rank)
    ensures Advance(a, s, rank).defs.Keys == a.defs.Keys + NamesOf(s)
  {
    hide Place, SizeFails, Ready, RankedBody;
    CurrentInTable(a, rank);
    DotsReady(a, s.dots, rank);
    DotsDefine(a, s.dots);
    PlaceReady(a.DefineDots(s.dots), s.body, rank);
    PlaceErrorIff(a.DefineDots(s.dots), s.body, rank);
  }

  lemma PlaceErrorIff(a: Assembly, body: Body, rank: map<string, nat>)
    requires Ready(a, rank) && RankedBody(body, rank)
    ensures Env(a.defs, rank).Acyclic() && Place(a, body, rank).placed != []
    ensures Place(a, body, rank).error
            <==> a.error || (body.Equal? && body.name in a.defs)
                 || (body.Space? && SizeFails(Env(a.defs, rank), body.size))
    ensures Place(a, body, rank).defs.Keys == a.defs.Keys + if body.Equal? then {body.name} else {}
  {
    hide Eval, State.Select, Reserved, TextBytes, AlignSize, HeightIn, SizeFails, SpaceSize;
  }

  /** The names of the first `n` statements. */
  function NamesBefore(program: Program, n: nat): set<string>
    requires n <= |program|
  {
    set i, name | 0 <= i < n && name in NamesOf(program[i]) :: name
  }

  lemma {:induction false} PassOneNames(a: Assembly, program: Program, rank: map<string, nat>, n: nat)
    requires Ready(a, rank) && Ranked(program, rank) && n <= |program|
    ensures Ranked(program[..n], rank)
    ensures PassOne(a, program[..n], rank).defs.Keys == a.defs.Keys + NamesBefore(program, n)
    decreases n
  {
    hide Ready, Advance, NamesOf, RankedBody;
    if n > 0 {
      PassOneNames(a, program, rank, n - 1);
      PassOneSnoc(a, program, rank, n - 1);
      StepErrorIff(PassOne(a, program[..n - 1], rank), program[n - 1], rank);
    }
  }

  lemma {:induction false} PassOneSnoc(a: Assembly, program: Program, rank: map<string, nat>, n: nat)
    requires Ready(a, rank) && Ranked(program, rank) && n < |program|
    ensures Ranked(program[..n], rank) && Ranked(program[..n + 1], rank)
    ensures PassOne(a, program[..n + 1], rank) == Advance(PassOne(a, program[..n], rank), program[n], rank)
    decreases n
  {
    hide Ready, Advance, RankedBody;
    if n == 0 {
      assert program[..1][1..] == [] && program[..0] == [];
    } else {
      assert program[..n][1..] == program[1..][..n - 1] && program[..n + 1][1..] == program[1..][..n];
      PassOneSnoc(Advance(a, program[0], rank), program[1..], rank, n - 1);
    }
  }

  /** Statement `j` is an error in pass one. */
  ghost predicate FailsInPassOne(a: Assembly, program: Program, rank: map<string, nat>, j: nat)
    requires Ready(a, rank) && Ranked(program, rank) && j < |program|
  {
    || Twice(a.defs.Keys + NamesBefore(program, j), program[j])
    || SizeUnknown(PassOne(a, program[..j], rank), program[j], rank)
  }

  /** Pass one reports an error exactly when some statement defines a name that is in use by then, or asks for room
      whose size is not known by then. */
  lemma {:induction false} PassOneErrorIff(a: Assembly, program: Program, rank: map<string, nat>, n: nat)
    requires Ready(a, rank) && Ranked(program, rank) && n <= |program|
    ensures Ranked(program[..n], rank)
    ensures PassOne(a, program[..n], rank).error
            <==> a.error || exists j | 0 <= j < n :: FailsInPassOne(a, program, rank, j)
    decreases n
  {
    hide Ready, Advance, NamesOf, NamesBefore, RankedBody, Twice, SizeUnknown;
    if n > 0 {
      PassOneErrorIff(a, program, rank, n - 1);
      PassOneSnoc(a, program, rank, n - 1);
      PassOneNames(a, program, rank, n - 1);
      var before := PassOne(a, program[..n - 1], rank);
      StepErrorIff(before, program[n - 1], rank);
      assert before.defs.Keys == a.defs.Keys + NamesBefore(program, n - 1);
      assert PassOne(a, program[..n], rank).error <==> before.error || FailsInPassOne(a, program, rank, n - 1);
    }
  }
}
