/** The manual's endless loop, `b .`, with a word after it that holds the loop's address: a program that meets
    every condition of the end-to-end results, and what they say of it. */
module Example {
  import opened Machine
  import opened Expressions
  import S = LazySymbols
  import opened Sections
  import opened Placement
  import opened Relocations
  import opened IntelHex
  import opened Assembler
  import opened WholeProgram
  import L = Layout
  import C = CodeGeneration
  import N = Instructions
  import I = InstructionSet
  import G = PcRelative

  const DOT := "line#1"
  const RANK: map<string, nat> := map[]
  const GIVEN: map<string, nat> := map[]
  const LOOP := L.Instr(N.BranchTo(N.B, Identifier(DOT, 0)))
  const ADDRESS_WORD := L.Values(2, [Identifier(DOT, 0)])
  const PROGRAM: L.Program := [L.Statement(I.None, LOOP, [DOT]), L.Statement(I.None, ADDRESS_WORD, [])]

  /** Both statements in `.text`, one after the other. */
  const ROOMS := [L.Placed(LOOP, 0, 0, 2), L.Placed(ADDRESS_WORD, 0, 2, 2)]

  function Filler(n: nat): Bytes { Repeat(FILLER, n) }

  function AfterLoop(): L.Assembly
  {
    L.Assembly(State([Record(".text", Filler(2))], 0), map[DOT := LabelAt(0, 0)], ROOMS[..1], false)
  }

  function AfterAll(): L.Assembly
  {
    L.Assembly(State([Record(".text", Filler(4))], 0), map[DOT := LabelAt(0, 0)], ROOMS, false)
  }

  lemma IsWellFormed()
    ensures WellFormed(PROGRAM, RANK)
  {
    assert DOT == "line#1" && DOT != "";
  }

  lemma FirstStep()
    ensures L.Ready(L.Start(), RANK) && L.Advance(L.Start(), PROGRAM[0], RANK) == AfterLoop()
  {
    L.StartLaid(RANK);
    var s := PROGRAM[0];
    var dotted := L.Start().DefineDots(s.dots);
    assert s.dots[0] == DOT && s.dots[1..] == [];
    var next := L.Start().(defs := L.Start().defs[DOT := LabelAt(0, L.Start().Here())]);
    assert next.defs == map[DOT := LabelAt(0, 0)];
    assert next.DefineDots(s.dots[1..]) == next;
    assert dotted == L.Start().(defs := map[DOT := LabelAt(0, 0)]);
    assert [] + Filler(2) == Filler(2);
    assert L.Advance(L.Start(), s, RANK) == AfterLoop();
  }

  lemma SecondStep()
    requires L.Ready(AfterLoop(), RANK)
    ensures L.Advance(AfterLoop(), PROGRAM[1], RANK) == AfterAll()
  {
    assert Filler(2) + Filler(2) == Filler(4);
  }

  /** Pass one, statement by statement. */
  lemma ParsedLoop()
    ensures WellFormed(PROGRAM, RANK) && Parsed(PROGRAM, RANK) == AfterAll()
  {
    hide L.Advance, L.Ready;
    IsWellFormed();
    FirstStep();
    SecondStep();
    var rest := PROGRAM[1..];
    assert rest[0] == PROGRAM[1] && rest[1..] == [];
    assert L.PassOne(AfterAll(), rest[1..], RANK) == AfterAll();
    assert L.PassOne(AfterLoop(), rest, RANK) == AfterAll();
  }

  /** The symbols of the program, and its two operands. */
  lemma Operand()
    ensures var env := Env(map[DOT := LabelAt(0, 0)], RANK);
            && env.Acyclic() && Eval(env, Identifier(DOT, 0)) == Outcome(true, Label, 0, false)
            && BaseSymbol(env, Identifier(DOT, 0)) == DOT && env.SectionOf(DOT) == 0
  {
  }

  lemma Links()
    ensures var env := Env(map[DOT := LabelAt(0, 0)], RANK);
            && env.Acyclic()
            && C.AllLinks(env, ROOMS, |ROOMS|) == [Relocation(0, 2, 0, 16, AbsoluteField, DOT, 0)]
  {
    hide Eval, BaseSymbol;
    Operand();
    var env := Env(map[DOT := LabelAt(0, 0)], RANK);
    assert C.LinksOf(env, ROOMS[0]) == [];
    assert C.ItemsLinks(env, 0, 2, 2, [Identifier(DOT, 0)], 0) == [];
    assert C.LinksOf(env, ROOMS[1]) == [Relocation(0, 2, 0, 16, AbsoluteField, DOT, 0)];
    assert C.AllLinks(env, ROOMS, 0) == [] && C.AllLinks(env, ROOMS, 1) == [];
  }

  lemma NothingWrong()
    ensures var env := Env(map[DOT := LabelAt(0, 0)], RANK);
            && env.Acyclic() && forall k | 0 <= k < |ROOMS| :: !C.Wrong(env, Loadable, ROOMS[k])
  {
    hide Eval, BaseSymbol;
    Operand();
    var env := Env(map[DOT := LabelAt(0, 0)], RANK);
    assert !C.Wrong(env, Loadable, ROOMS[0]);
    assert !C.Wrong(env, Loadable, ROOMS[1]);
  }

  lemma Sizes()
    ensures var env := Env(map[DOT := LabelAt(0, 0)], RANK);
            && env.Acyclic()
            && |Code(AfterAll(), env)| == 1 && |Code(AfterAll(), env)[0].contents| == 4
            && Code(AfterAll(), env)[0].name == ".text" && Addresses(AfterAll(), env, GIVEN) == [0]
  {
    hide C.Image, Align;
    ParsedLoop();
    ParsedPrepared(PROGRAM, RANK);
    var env := Env(map[DOT := LabelAt(0, 0)], RANK);
    CodeGenerated(AfterAll(), env);
    L.GatherSize(ROOMS, C.Images(env, ROOMS), 2, 0);
    assert L.SizeBefore(ROOMS, 1, 0) == 2;
    assert Code(AfterAll(), env)[1..] == [];
  }

  /** The program is assembled, and its section fits. */
  lemma Assembles()
    ensures WellFormed(PROGRAM, RANK) && Succeeds(PROGRAM, RANK, GIVEN) && Fitting(PROGRAM, RANK, GIVEN)
  {
    hide WellFormed, Parsed, C.Wrong, C.AllLinks, Code, Addresses, Prepared;
    ParsedLoop();
    ParsedPrepared(PROGRAM, RANK);
    var a, env := AfterAll(), Env(map[DOT := LabelAt(0, 0)], RANK);
    Sizes();
    Links();
    NothingWrong();
    assert KindOf(".text") == Loadable;
    PreparedParts(a, env);
    LinksInTable(a, env);
    assert !C.SomeWrong(env, KindsFor(a), a.placed, |a.placed|);
    assert !AnyRefused(env, [0], [Relocation(0, 2, 0, 16, AbsoluteField, DOT, 0)]);
  }

  /** Where the two statements are, and what the second one means. */
  lemma Places()
    ensures WellFormed(PROGRAM, RANK)
    ensures WholeProgram.AddressOf(PROGRAM, RANK, GIVEN, 0) == 0
    ensures IsLoaded(PROGRAM, RANK, 0) && IsWritten(PROGRAM, RANK, 0)
    ensures Names(PROGRAM, RANK, 0, 0, DOT, 0)
    ensures IsLoaded(PROGRAM, RANK, 1) && SafeItem(PROGRAM, RANK, GIVEN, 1, 0)
    ensures ItemAddress(PROGRAM, RANK, GIVEN, 1, 0) == 2 && ItemMeaning(PROGRAM, RANK, GIVEN, 1, 0) == [0, 0]
  {
    hide WellFormed, Parsed, Code, Addresses;
    ParsedLoop();
    Sizes();
    Operand();
    assert KindOf(".text") == Loadable;
    assert WordBytes(0) == [0, 0];
  }

  /** The file of the program: at address 0 a branch to address 0, and after it the loop's address. */
  method LoopInFile() returns (lines: seq<Line>, ghost word: Word, ghost c: I.Code)
    ensures I.Decode(word) == I.Some(c) && (c.Branch? || c.LoadRelative?) && G.TargetOf(c, 0) == 0
    ensures forall u | 0 <= u < 2 :: LoadedByte(u, WordBytes(word)[u]) in Decode(lines)
    ensures LoadedByte(2, 0) in Decode(lines) && LoadedByte(3, 0) in Decode(lines)
  {
    hide WellFormed, Succeeds, Fitting, Exact, Decode, I.Decode, WholeProgram.AddressOf, IsLoaded, IsWritten;
    hide Names, SafeItem, ItemAddress, ItemMeaning, MeansAfterLinking, WordBytes, G.TargetOf;
    hide ProgramImage, WrittenFrom, Tidy, Addressable, Eval;
    Assembles();
    FittingIsAddressable(PROGRAM, RANK, GIVEN);
    Places();
    var ok;
    ok, lines := Assemble(PROGRAM, RANK, GIVEN);
    word, c := InstructionInFile(PROGRAM, RANK, GIVEN, lines, 0);
    ReachesStatement(PROGRAM, RANK, GIVEN, lines, 0, 0, DOT, 0, c);
    ItemInFile(PROGRAM, RANK, GIVEN, lines, 1, 0, 0);
    ItemInFile(PROGRAM, RANK, GIVEN, lines, 1, 0, 1);
  }

  const SUM := Binary(Identifier("n", 0), Add, Value(1), 0)
  const SEVEN: map<string, Definition> := map["n" := Equ(0, Value(7))]

  /** `.equ n, 7`, an evaluation, and a label after it. */
  function Steps(seven: S.Node, x: S.Node): seq<S.Step>
  {
    [S.EquAdded("n", 0, seven), S.Asked(S.EvaluateNode(x)), S.LabelAdded("m", 0, 2)]
  }

  lemma Eight(defs: map<string, Definition>)
    requires defs == SEVEN || defs == SEVEN["m" := LabelAt(0, 2)]
    ensures Env(defs, RANK).Acyclic() && Eval(Env(defs, RANK), SUM) == Outcome(true, Absolute, 8, false)
  {
    var env := Env(defs, RANK);
    assert Eval(env, Value(7)) == Outcome(true, Absolute, 7, false);
    assert Eval(env, Identifier("n", 0)) == Outcome(true, Absolute, 7, false);
  }

  /** No step fails, and what the definitions are after the last. */
  lemma StepsSucceed(seven: S.Node, x: S.Node)
    requires seven.tree == Value(7) && x.tree == SUM
    ensures var start, steps := Env(map[], RANK), Steps(seven, x);
            S.AfterAll(start, steps) == Env(SEVEN["m" := LabelAt(0, 2)], RANK) && !S.SomeFails(start, steps)
  {
    hide Eval, S.AfterAll, S.SomeFails;
    var start, steps := Env(map[], RANK), Steps(seven, x);
    assert steps[..0] == [] && steps[..0] + [steps[0]] == steps[..1];
    assert steps[..1] + [steps[1]] == steps[..2] && steps[..2] + [steps[2]] == steps;
    NoStepYet(start, steps[..0]);
    Eight(SEVEN);
    S.NextStep(start, steps[..0], steps[0]);
    S.NextStep(start, steps[..1], steps[1]);
    S.NextStep(start, steps[..2], steps[2]);
  }

  lemma NoStepYet(start: Env, none: seq<S.Step>)
    requires none == []
    ensures S.AfterAll(start, none) == start && !S.SomeFails(start, none)
  {
  }

  /** An evaluation between two definitions, through the caches: `n + 1` is 8. */
  method SumThroughCaches() returns (answer: S.Answer)
    ensures answer == S.Answer(true, Absolute, 8)
  {
    hide Eval, S.AfterAll, S.SomeFails, S.Evaluator.Valid, S.Evaluator.Wired;
    var evaluator := new S.Evaluator(RANK);
    var x := evaluator.Build(SUM);
    var seven := evaluator.Build(Value(7));
    StepsSucceed(seven, x);
    Eight(SEVEN["m" := LabelAt(0, 2)]);
    var answers := evaluator.Perform(Steps(seven, x));
    answer := answers[1];
  }
}
