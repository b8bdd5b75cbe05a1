/** Small programs that the assembler accepts and gets wrong, one for each condition that its results carry. */
module Counterexamples {
  import opened Bits
  import opened Machine
  import opened Expressions
  import opened ExactArithmetic
  import opened Relocatable
  import opened Stability
  import opened Sections
  import opened Placement
  import opened Relocations
  import opened MemoryImages
  import opened IntelHex
  import opened Assembler
  import opened WholeProgram
  import L = Layout
  import T = TwoPass
  import C = CodeGeneration
  import I = InstructionSet
  import N = Instructions
  import S = SectionNames
  import opened Statements
  import G = Logisim
  import E = Example

  const NO_RANK: map<string, nat> := map[]

  /** `lbl: .word 5 - lbl`, with `.text` given the address 0x100. */
  const LBL := "lbl"
  const ONLY_LABEL: map<string, Definition> := map[LBL := LabelAt(0, 0)]
  const DIFFERENCE := Binary(Value(5), Subtract, Identifier(LBL, 0), 0)
  const WORD := L.Values(2, [DIFFERENCE])
  const MINUS: L.Program := [L.Statement(I.Some(LBL), WORD, [])]
  const AT_100: map<string, nat> := map[".text" := 0x100]

  /** One labelled statement in `.text`. */
  function Single(body: L.Body, size: nat): L.Assembly
  {
    L.Assembly(State([Record(".text", E.Filler(size))], 0), ONLY_LABEL, [L.Placed(body, 0, 0, size)], false)
  }

  lemma SingleParsed(body: L.Body, size: nat, program: L.Program)
    requires program == [L.Statement(I.Some(LBL), body, [])] && T.IntBody(body)
    requires if body.Values? then size == body.grain * |body.values| else body.Instr? && size == 2
    ensures WellFormed(program, NO_RANK) && Parsed(program, NO_RANK) == Single(body, size)
  {
    hide T.IntBody;
    assert LBL == "lbl" && LBL != "";
    var start, s := L.Start(), program[0];
    L.StartLaid(NO_RANK);
    assert start.DefineDots(s.dots) == start;
    assert [] + E.Filler(size) == E.Filler(size);
    assert L.Advance(start, s, NO_RANK) == Single(body, size);
    assert program[1..] == [];
    assert L.PassOne(Single(body, size), program[1..], NO_RANK) == Single(body, size);
  }

  lemma SingleCode(body: L.Body, size: nat, env: Env, given: map<string, nat>)
    requires Prepared(Single(body, size), env) && ".text" in given
    ensures env.Acyclic()
    ensures |Code(Single(body, size), env)| == 1 && |Code(Single(body, size), env)[0].contents| == size
    ensures Addresses(Single(body, size), env, given) == [given[".text"]]
  {
    hide C.Image, Align, Prepared;
    var a := Single(body, size);
    PreparedParts(a, env);
    CodeGenerated(a, env);
    L.GatherSize(a.placed, C.Images(env, a.placed), 1, 0);
    assert Code(a, env)[1..] == [];
  }

  lemma DifferenceOperand()
    ensures var env := Env(ONLY_LABEL, NO_RANK);
            && env.Acyclic() && Eval(env, DIFFERENCE) == Outcome(true, Label, 5, false)
            && BaseSymbol(env, DIFFERENCE) == LBL && env.SectionOf(LBL) == 0
  {
    var env := Env(ONLY_LABEL, NO_RANK);
    assert Eval(env, Value(5)) == Outcome(true, Absolute, 5, false);
    assert Eval(env, Identifier(LBL, 0)) == Outcome(true, Label, 0, false);
  }

  lemma DifferenceLinks()
    ensures var env, p := Env(ONLY_LABEL, NO_RANK), L.Placed(WORD, 0, 0, 2);
            && env.Acyclic() && !C.Wrong(env, Loadable, p)
            && C.AllLinks(env, [p], 1) == [Relocation(0, 0, 0, 16, AbsoluteField, LBL, 5)]
  {
    hide Eval, BaseSymbol;
    DifferenceOperand();
    var env, p := Env(ONLY_LABEL, NO_RANK), L.Placed(WORD, 0, 0, 2);
    assert C.ItemsLinks(env, 0, 0, 2, [DIFFERENCE], 0) == [];
    assert C.LinksOf(env, p) == [Relocation(0, 0, 0, 16, AbsoluteField, LBL, 5)];
    assert C.AllLinks(env, [p], 0) == [];
  }

  lemma MinusAssembles()
    ensures WellFormed(MINUS, NO_RANK) && Succeeds(MINUS, NO_RANK, AT_100) && Fitting(MINUS, NO_RANK, AT_100)
  {
    hide WellFormed, Parsed, C.Wrong, C.AllLinks, Code, Addresses, Prepared;
    SingleParsed(WORD, 2, MINUS);
    ParsedPrepared(MINUS, NO_RANK);
    var a, env := Single(WORD, 2), Env(ONLY_LABEL, NO_RANK);
    SingleCode(WORD, 2, env, AT_100);
    DifferenceLinks();
    assert KindOf(".text") == Loadable;
    PreparedParts(a, env);
    LinksInTable(a, env);
    assert !C.SomeWrong(env, KindsFor(a), a.placed, |a.placed|);
    assert !AnyRefused(env, [0x100], [Relocation(0, 0, 0, 16, AbsoluteField, LBL, 5)]);
  }

  /** The value in the file is 0x105; five minus the label's address is 0xFF05. */
  method MinusInFile() returns (lines: seq<Line>)
    ensures LoadedByte(0x100, 0x05) in Decode(lines) && LoadedByte(0x101, 0x01) in Decode(lines)
    ensures WellFormed(MINUS, NO_RANK) && ItemAddress(MINUS, NO_RANK, AT_100, 0, 0) == 0x100
    ensures ItemMeaning(MINUS, NO_RANK, AT_100, 0, 0) == [0x05, 0xFF]
  {
    hide WellFormed, Succeeds, Fitting, Exact, Decode, ItemAddress, ItemMeaning, ItemStored, IsLoaded, Symbols;
    hide ProgramImage, WrittenFrom, Tidy, Addressable, Eval;
    MinusAssembles();
    FittingIsAddressable(MINUS, NO_RANK, AT_100);
    MinusValues();
    var ok;
    ok, lines := Assemble(MINUS, NO_RANK, AT_100);
    ItemStoredInFile(MINUS, NO_RANK, AT_100, lines, 0, 0, 0);
    ItemStoredInFile(MINUS, NO_RANK, AT_100, lines, 0, 0, 1);
  }

  lemma DifferenceMeaning(base: Relocatable.Layout)
    requires base(0) == 0x100
    ensures var env := Env(ONLY_LABEL, NO_RANK); env.Acyclic() && TrueValue(env, base, DIFFERENCE) == 0xFF05
  {
    var env := Env(ONLY_LABEL, NO_RANK);
    assert TrueValue(env, base, Identifier(LBL, 0)) == 0x100;
    assert TrueValue(env, base, Value(5)) == 5;
    TrueSum(5, 0x100);
  }

  lemma MinusValues()
    ensures WellFormed(MINUS, NO_RANK) && IsLoaded(MINUS, NO_RANK, 0)
    ensures Eval(Symbols(MINUS, NO_RANK), DIFFERENCE).ok && ItemAddress(MINUS, NO_RANK, AT_100, 0, 0) == 0x100
    ensures ItemStored(MINUS, NO_RANK, AT_100, 0, 0) == [0x05, 0x01]
    ensures ItemMeaning(MINUS, NO_RANK, AT_100, 0, 0) == [0x05, 0xFF]
  {
    hide WellFormed, Parsed, Code, Addresses, Eval, BaseSymbol, Prepared;
    SingleParsed(WORD, 2, MINUS);
    ParsedPrepared(MINUS, NO_RANK);
    SingleCode(WORD, 2, Env(ONLY_LABEL, NO_RANK), AT_100);
    DifferenceOperand();
    DifferenceMeaning(BaseLayout(MINUS, NO_RANK, AT_100));
    assert KindOf(".text") == Loadable;
    assert WordBytes(0x105) == [0x05, 0x01] && WordBytes(0xFF05) == [0x05, 0xFF];
  }

  /** `.word ptr`, `.equ ptr, var` in `.text` at 0, and `var: .word 0` in `.data` at 0x10. */
  const PTR := "ptr"
  const VAR := "var"
  const PTR_RANK: map<string, nat> := map[PTR := 1]
  const ALIAS_WORD := L.Values(2, [Identifier(PTR, 0)])
  const ZERO_WORD := L.Values(2, [Value(0)])
  const EQU := L.Equal(PTR, Identifier(VAR, 0))
  const ALIAS: L.Program :=
    [L.Statement(I.None, ALIAS_WORD, []), L.Statement(I.None, EQU, []),
     L.Statement(I.None, L.InSection(".data"), []), L.Statement(I.Some(VAR), ZERO_WORD, [])]
  const AT_0_10: map<string, nat> := map[".text" := 0, ".data" := 0x10]
  const ALIAS_ROOMS := [L.Placed(ALIAS_WORD, 0, 0, 2), L.Placed(EQU, 0, 2, 0),
                        L.Placed(L.InSection(".data"), 1, 0, 0), L.Placed(ZERO_WORD, 1, 0, 2)]
  const ALIAS_DEFS: map<string, Definition> := map[PTR := Equ(0, Identifier(VAR, 0)), VAR := LabelAt(1, 0)]

  function AliasAfter(n: nat): L.Assembly
    requires n <= 4
  {
    var text, data := Record(".text", E.Filler(2)), Record(".data", E.Filler(if n == 4 then 2 else 0));
    L.Assembly(if n == 0 then State([Record(".text", [])], 0)
               else if n <= 2 then State([text], 0) else State([text, data], 1),
               if n < 2 then map[] else if n < 4 then map[PTR := Equ(0, Identifier(VAR, 0))] else ALIAS_DEFS,
               ALIAS_ROOMS[..n], false)
  }

  lemma AliasStep(n: nat)
    requires n < 4 && L.Ready(AliasAfter(n), PTR_RANK) && L.RankedBody(ALIAS[n].body, PTR_RANK)
    ensures L.Advance(AliasAfter(n), ALIAS[n], PTR_RANK) == AliasAfter(n + 1)
  {
    assert AliasAfter(n).DefineDots([]) == AliasAfter(n);
    assert [] + E.Filler(2) == E.Filler(2) && E.Filler(2) + E.Filler(0) == E.Filler(2);
    assert [] + E.Filler(0) == E.Filler(0) == [];
  }

  lemma AliasParsed()
    ensures WellFormed(ALIAS, PTR_RANK) && Parsed(ALIAS, PTR_RANK) == AliasAfter(4)
  {
    hide L.Advance, L.Ready;
    AliasWellFormed();
    L.StartLaid(PTR_RANK);
    assert L.Start() == AliasAfter(0);
    AliasRun(0);
    assert ALIAS[0..] == ALIAS;
  }

  lemma AliasWellFormed()
    ensures WellFormed(ALIAS, PTR_RANK)
  {
    assert PTR == "ptr" && PTR != "" && VAR == "var" && VAR != "";
  }

  lemma {:induction false} AliasRun(n: nat)
    requires n <= 4 && L.Ready(AliasAfter(n), PTR_RANK) && L.Ranked(ALIAS, PTR_RANK)
    ensures L.PassOne(AliasAfter(n), ALIAS[n..], PTR_RANK) == AliasAfter(4)
    decreases 4 - n
  {
    hide L.Advance, L.Ready, AliasAfter;
    if n < 4 {
      assert ALIAS[n..][0] == ALIAS[n] && ALIAS[n..][1..] == ALIAS[n + 1..] && ALIAS[n] in ALIAS;
      AliasStep(n);
      AliasRun(n + 1);
    }
  }

  /** What the symbols and operands of the program evaluate to. */
  lemma AliasOperand()
    ensures var env := Env(ALIAS_DEFS, PTR_RANK);
            && env.Acyclic() && Eval(env, Identifier(VAR, 0)) == Outcome(true, Label, 0, false)
            && Eval(env, Identifier(PTR, 0)) == Outcome(true, Label, 0, false)
            && Eval(env, Value(0)) == Outcome(true, Absolute, 0, false)
            && BaseSymbol(env, Identifier(PTR, 0)) == PTR && env.SectionOf(PTR) == 0
  {
    assert PTR == "ptr" && VAR == "var";
  }

  lemma AliasSizes()
    ensures L.SizeBefore(ALIAS_ROOMS, 4, 0) == 2 && L.SizeBefore(ALIAS_ROOMS, 4, 1) == 2
  {
    assert L.SizeBefore(ALIAS_ROOMS, 0, 0) == L.SizeBefore(ALIAS_ROOMS, 0, 1) == 0;
    assert L.SizeBefore(ALIAS_ROOMS, 1, 0) == 2 && L.SizeBefore(ALIAS_ROOMS, 1, 1) == 0;
    assert L.SizeBefore(ALIAS_ROOMS, 2, 0) == 2 && L.SizeBefore(ALIAS_ROOMS, 2, 1) == 0;
    assert L.SizeBefore(ALIAS_ROOMS, 3, 0) == 2 && L.SizeBefore(ALIAS_ROOMS, 3, 1) == 0;
  }

  lemma AliasCode()
    ensures var a, env := AliasAfter(4), Env(ALIAS_DEFS, PTR_RANK);
            && env.Acyclic() && |Code(a, env)| == 2
            && Code(a, env)[0].name == ".text" && |Code(a, env)[0].contents| == 2
            && Code(a, env)[1].name == ".data" && |Code(a, env)[1].contents| == 2
            && Addresses(a, env, AT_0_10) == [0, 0x10]
  {
    hide C.Image, Align, Prepared, L.SizeBefore, L.Gather, L.Sized;
    var a, env := AliasAfter(4), Env(ALIAS_DEFS, PTR_RANK);
    AliasParsed();
    ParsedPrepared(ALIAS, PTR_RANK);
    PreparedParts(a, env);
    CodeGenerated(a, env);
    L.GatherSize(a.placed, C.Images(env, a.placed), 4, 0);
    L.GatherSize(a.placed, C.Images(env, a.placed), 4, 1);
    AliasSizes();
    assert a.placed == ALIAS_ROOMS;
    TwoBases(Code(a, env), AT_0_10);
  }

  lemma TwoBases(secs: seq<Record>, given: map<string, nat>)
    requires |secs| == 2 && secs[0].name in given && secs[1].name in given
    ensures Bases(secs, given, 0) == [given[secs[0].name], given[secs[1].name]]
  {
    hide Align;
    assert secs[1..][1..] == [];
  }

  lemma AliasLinks()
    ensures var env := Env(ALIAS_DEFS, PTR_RANK);
            && env.Acyclic() && (forall k | 0 <= k < 4 :: !C.Wrong(env, Loadable, ALIAS_ROOMS[k]))
            && C.AllLinks(env, ALIAS_ROOMS, 4) == [Relocation(0, 0, 0, 16, AbsoluteField, PTR, 0)]
  {
    hide Eval, BaseSymbol;
    AliasOperand();
    var env := Env(ALIAS_DEFS, PTR_RANK);
    assert C.ItemsLinks(env, 0, 0, 2, [Identifier(PTR, 0)], 0) == [];
    assert C.LinksOf(env, ALIAS_ROOMS[0]) == [Relocation(0, 0, 0, 16, AbsoluteField, PTR, 0)];
    assert C.ItemsLinks(env, 1, 0, 2, [Value(0)], 0) == [];
    assert C.LinksOf(env, ALIAS_ROOMS[3]) == [];
    assert C.AllLinks(env, ALIAS_ROOMS, 0) == [];
    assert C.AllLinks(env, ALIAS_ROOMS, 2) == C.AllLinks(env, ALIAS_ROOMS, 1);
    assert !C.Wrong(env, Loadable, ALIAS_ROOMS[0]) && !C.Wrong(env, Loadable, ALIAS_ROOMS[1]);
    assert !C.Wrong(env, Loadable, ALIAS_ROOMS[2]) && !C.Wrong(env, Loadable, ALIAS_ROOMS[3]);
  }

  lemma NothingWrong(env: Env, kinds: seq<Kind>, placed: seq<L.Placed>)
    requires env.Acyclic() && forall i | 0 <= i < |placed| :: placed[i].section < |kinds|
    requires forall i | 0 <= i < |placed| :: kinds[placed[i].section] == Loadable && !C.Wrong(env, Loadable, placed[i])
    ensures !C.SomeWrong(env, kinds, placed, |placed|)
  {
    hide C.Wrong;
  }

  lemma AliasRight()
    ensures var a, env := AliasAfter(4), Env(ALIAS_DEFS, PTR_RANK);
            Prepared(a, env) && !Rejected(a, env)
  {
    hide WellFormed, Parsed, C.Wrong, C.SomeWrong, Prepared, AliasAfter, Eval, ALIAS_ROOMS, KindsFor;
    AliasParsed();
    AliasShape();
    ParsedPrepared(ALIAS, PTR_RANK);
    var a, env := AliasAfter(4), Env(ALIAS_DEFS, PTR_RANK);
    PreparedParts(a, env);
    AliasLinks();
    NothingWrong(env, KindsFor(a), ALIAS_ROOMS);
  }

  lemma AliasShape()
    ensures var a := AliasAfter(4);
            && !a.error && a.defs == ALIAS_DEFS && a.placed == ALIAS_ROOMS && |ALIAS_ROOMS| == 4
            && forall i | 0 <= i < |ALIAS_ROOMS| ::
                 ALIAS_ROOMS[i].section < |KindsFor(a)| && KindsFor(a)[ALIAS_ROOMS[i].section] == Loadable
  {
    assert KindOf(".text") == Loadable && KindOf(".data") == Loadable;
  }

  lemma AliasLinkable()
    ensures var a, env := AliasAfter(4), Env(ALIAS_DEFS, PTR_RANK);
            Prepared(a, env) && Linkable(a, env, AT_0_10) && Roomy(a, env, AT_0_10)
  {
    hide WellFormed, Parsed, C.AllLinks, Code, Addresses, Prepared;
    AliasRight();
    var a, env := AliasAfter(4), Env(ALIAS_DEFS, PTR_RANK);
    AliasCode();
    AliasLinks();
    LinksInTable(a, env);
    assert a.placed == ALIAS_ROOMS;
    assert !AnyRefused(env, [0, 0x10], [Relocation(0, 0, 0, 16, AbsoluteField, PTR, 0)]);
  }

  lemma AliasAssembles()
    ensures WellFormed(ALIAS, PTR_RANK) && Succeeds(ALIAS, PTR_RANK, AT_0_10) && Fitting(ALIAS, PTR_RANK, AT_0_10)
  {
    hide WellFormed, Parsed, Prepared, Rejected, Linkable, Roomy;
    AliasParsed();
    ParsedPrepared(ALIAS, PTR_RANK);
    AliasRight();
    AliasLinkable();
  }

  lemma AliasMeaning(base: Relocatable.Layout)
    requires base(0) == 0 && base(1) == 0x10
    ensures var env := Env(ALIAS_DEFS, PTR_RANK);
            && env.Acyclic() && TrueValue(env, base, Identifier(PTR, 0)) == 0x10
            && Relocated(env, base, Identifier(PTR, 0)) == 0
  {
    hide Eval, BaseSymbol;
    var env := Env(ALIAS_DEFS, PTR_RANK);
    AliasOperand();
    assert PTR == "ptr" && VAR == "var";
    assert TrueValue(env, base, Identifier(VAR, 0)) == 0x10;
  }

  lemma AliasValues()
    ensures WellFormed(ALIAS, PTR_RANK) && IsLoaded(ALIAS, PTR_RANK, 0)
    ensures Eval(Symbols(ALIAS, PTR_RANK), Identifier(PTR, 0)).ok && ItemAddress(ALIAS, PTR_RANK, AT_0_10, 0, 0) == 0
    ensures ItemStored(ALIAS, PTR_RANK, AT_0_10, 0, 0) == [0, 0]
    ensures ItemMeaning(ALIAS, PTR_RANK, AT_0_10, 0, 0) == [0x10, 0]
  {
    hide WellFormed, Parsed, Code, Addresses, Eval, BaseSymbol, Prepared, Relocated, TrueValue;
    AliasParsed();
    AliasCode();
    AliasOperand();
    AliasMeaning(BaseLayout(ALIAS, PTR_RANK, AT_0_10));
    assert KindOf(".text") == Loadable;
    assert WordBytes(0) == [0, 0] && WordBytes(0x10) == [0x10, 0];
  }

  /** The word in the file is 0; the address of `var` is 0x10. */
  method AliasInFile() returns (lines: seq<Line>)
    ensures LoadedByte(0, 0) in Decode(lines)
    ensures WellFormed(ALIAS, PTR_RANK) && ItemAddress(ALIAS, PTR_RANK, AT_0_10, 0, 0) == 0
    ensures ItemMeaning(ALIAS, PTR_RANK, AT_0_10, 0, 0) == [0x10, 0]
  {
    hide WellFormed, Succeeds, Fitting, Exact, Decode, ItemAddress, ItemMeaning, ItemStored, IsLoaded, Symbols;
    hide ProgramImage, WrittenFrom, Tidy, Addressable, Eval;
    AliasAssembles();
    FittingIsAddressable(ALIAS, PTR_RANK, AT_0_10);
    AliasValues();
    var ok;
    ok, lines := Assemble(ALIAS, PTR_RANK, AT_0_10);
    ItemStoredInFile(ALIAS, PTR_RANK, AT_0_10, lines, 0, 0, 0);
  }

  /** `lbl: .byte lbl`, alone in `.text`. */
  const BYTE := L.Values(1, [Identifier(LBL, 0)])
  const LAST: L.Program := [L.Statement(I.Some(LBL), BYTE, [])]
  const AT_0: map<string, nat> := map[".text" := 0]

  lemma LastLinks()
    ensures var env, p := Env(ONLY_LABEL, NO_RANK), L.Placed(BYTE, 0, 0, 1);
            && env.Acyclic() && !C.Wrong(env, Loadable, p)
            && C.AllLinks(env, [p], 1) == [Relocation(0, 0, 0, 8, AbsoluteField, LBL, 0)]
  {
    var env, p := Env(ONLY_LABEL, NO_RANK), L.Placed(BYTE, 0, 0, 1);
    assert Eval(env, Identifier(LBL, 0)) == Outcome(true, Label, 0, false);
    assert C.ItemsLinks(env, 0, 0, 1, [Identifier(LBL, 0)], 0) == [];
    assert C.LinksOf(env, p) == [Relocation(0, 0, 0, 8, AbsoluteField, LBL, 0)];
    assert C.AllLinks(env, [p], 0) == [];
  }

  /** One byte was reserved for the section; linking makes it two. */
  lemma LastByteGrows()
    ensures WellFormed(LAST, NO_RANK) && Succeeds(LAST, NO_RANK, AT_0)
    ensures |Parsed(LAST, NO_RANK).table.records[0].contents| == 1
    ensures |ProgramImage(LAST, NO_RANK, AT_0)[0].contents| == 2
  {
    hide WellFormed, Parsed, C.Wrong, C.AllLinks, Code, Addresses, Prepared;
    SingleParsed(BYTE, 1, LAST);
    ParsedPrepared(LAST, NO_RANK);
    var a, env := Single(BYTE, 1), Env(ONLY_LABEL, NO_RANK);
    SingleCode(BYTE, 1, env, AT_0);
    LastLinks();
    assert KindOf(".text") == Loadable;
    PreparedParts(a, env);
    LinksInTable(a, env);
    assert !C.SomeWrong(env, KindsFor(a), a.placed, |a.placed|);
    var r := Relocation(0, 0, 0, 8, AbsoluteField, LBL, 0);
    assert !AnyRefused(env, [0], [r]);
    var contents := Stripped(Code(a, env));
    assert Fixes(env, [0], [r]) == [FixOf(env, [0], r)];
    AppliedSizeIff(contents[0], FixOf(env, [0], r));
    assert ApplyAll(contents, [FixOf(env, [0], r)]) == Apply(contents, FixOf(env, [0], r));
  }

  function Backwards(): Image { [Resident(Loadable, 0x100, [9]), Resident(Loadable, 0, [7])] }

  lemma BackwardsShows(m: Bytes)
    requires |m| == Pow2(16) == 0x1_0000 && m[0] == 7 && m[0x100] == 9
    ensures Shows(m, 16, Backwards()) && Fits(Backwards(), 16)
  {
    hide Pow2;
  }

  /** A section at 0x100 before one at 0: the file for the range from 0 to 0x80 has nothing of the second. */
  lemma ScanStops(m: Bytes)
    requires |m| == Pow2(16) == 0x1_0000 && m[0] == 7 && m[0x100] == 9
    ensures Shows(m, 16, Backwards()) && Fits(Backwards(), 16)
    ensures Wanted(Backwards(), 0, 0x80, 1, LoadedByte(0, 7))
    ensures Decode(FileLines(m, 16, Backwards(), Range(1, 0, 0, 0x80)) + [END_OF_FILE]) == []
  {
    hide Pow2, Shows, Fits;
    BackwardsShows(m);
    assert FileLines(m, 16, Backwards(), Range(1, 0, 0, 0x80)) == [];
    assert [] + [END_OF_FILE] == [END_OF_FILE];
  }

  /** The two halves of the part from 1 to 3 put the byte at 1 into the even memory, at address 0. */
  lemma HalvesMisaligned(m: Bytes)
    requires |m| == Pow2(16)
    ensures Merged(Cells(m, 16, 1, 1, 2), Cells(m, 16, 2, 1, 2), 0, m[1])
  {
    Pow2Table();
    HalfCells(m, 16, 1, 3, 0, 0);
    assert Cells(m, 16, 1, 1, 2)[0] == LoadedByte(0, m[1]);
  }

  /** Memory 1, 7, 7: the image of the range from 0 to 2 expands to all three. */
  lemma RunOverruns(m: Bytes)
    requires |m| == Pow2(16) && m[..3] == [1, 7, 7]
    ensures G.Expand(G.Tokens(G.Scanned(m, 16, false, 0, 2, 1), 0)) == [1, 7, 7]
  {
    hide G.Tokens, G.Expand;
    Pow2Table();
    assert m[..3][0] == m[0] && m[..3][1] == m[1] && m[..3][2] == m[2];
    var e := G.Scanned(m, 16, false, 0, 2, 1);
    SmallLowBits(0, 16);
    SmallLowBits(1, 16);
    SmallLowBits(2, 16);
    assert G.At(0, 1, 0) == 0 && G.At(0, 1, 1) == 1 && G.At(0, 1, 2) == 2;
    assert e == [1, 7, 7];
    G.ExpandExact(e, 0);
  }

  /** Labels at offsets 0 and 0x10 of a section at 0xFFF8: the second is at a lower address. */
  lemma OrderingWraps(base: Relocatable.Layout)
    requires base(0) == 0xFFF8
    ensures var env, e := Env(map["a" := LabelAt(0, 0), "b" := LabelAt(0, 0x10)], NO_RANK),
                          Binary(Identifier("a", 0), Lesser, Identifier("b", 0), 0);
            env.Acyclic() && Eval(env, e) == Outcome(true, Absolute, 1, false) && TrueValue(env, base, e) == 0
  {
    var env, a, b := Env(map["a" := LabelAt(0, 0), "b" := LabelAt(0, 0x10)], NO_RANK), Identifier("a", 0),
                     Identifier("b", 0);
    assert Eval(env, a) == Outcome(true, Label, 0, false) && Eval(env, b) == Outcome(true, Label, 0x10, false);
    assert BaseSymbol(env, a) == "a" && BaseSymbol(env, b) == "b";
    assert TrueValue(env, base, a) == 0xFFF8 && TrueValue(env, base, b) == 8;
  }

  lemma ShiftedOut()
    ensures BinaryInt(LeftShift, 0x8000, 17) == 0 && ExactInt(LeftShift, 0x8000, 17) == 0x1_0000_0000
  {
    hide Pow2;
    assert Pow2(17) == 0x2_0000 by { Pow2Table(); Pow2Sum(16, 1); }
    assert BinaryInt(LeftShift, 0x8000, 17) == I32(0x8000 * Pow2(17));
  }

  /** `0x8000 << 17` is 2^32, and is accepted as zero. */
  lemma ShiftLosesBit(env: Env)
    requires env.Acyclic()
    ensures Eval(env, Binary(Value(0x8000), LeftShift, Value(17), 0)) == Outcome(true, Absolute, 0, false)
    ensures ExactInt(LeftShift, 0x8000, 17) == 0x1_0000_0000
  {
    hide Eval, BinaryInt, ExactInt;
    ShiftedOut();
    EvalValue(env, 0x8000);
    EvalValue(env, 17);
    EvalBinary(env, Binary(Value(0x8000), LeftShift, Value(17), 0));
  }

  /** `lbl: mov r0, lbl`, with `.text` at some address. */
  const MOVE := L.Instr(N.MoveImmediate(false, 0, Identifier(LBL, 0)))
  const MOVES: L.Program := [L.Statement(I.Some(LBL), MOVE, [])]

  function At(base: nat): map<string, nat> { map[".text" := base] }

  lemma MoveOperand()
    ensures var env := Env(ONLY_LABEL, NO_RANK);
            && env.Acyclic() && Eval(env, Identifier(LBL, 0)) == Outcome(true, Label, 0, false)
            && BaseSymbol(env, Identifier(LBL, 0)) == LBL
  {
  }

  lemma MoveLinks()
    ensures var env, p := Env(ONLY_LABEL, NO_RANK), L.Placed(MOVE, 0, 0, 2);
            && env.Acyclic() && !C.Wrong(env, Loadable, p)
            && C.AllLinks(env, [p], 1) == [Relocation(0, 0, 4, 8, AbsoluteField, LBL, 0)]
  {
    hide Eval, BaseSymbol;
    MoveOperand();
    var env, p := Env(ONLY_LABEL, NO_RANK), L.Placed(MOVE, 0, 0, 2);
    assert C.LinksOf(env, p) == [Relocation(0, 0, 4, 8, AbsoluteField, LBL, 0)];
    assert C.AllLinks(env, [p], 0) == [];
  }

  lemma MoveRefusedIff(base: nat)
    requires base <= 0xFFFE
    ensures var env, r := Env(ONLY_LABEL, NO_RANK), Relocation(0, 0, 4, 8, AbsoluteField, LBL, 0);
            InTable(env, 1, r) && (AnyRefused(env, [base], [r]) <==> base > 0x100)
  {
    Pow2Table();
    AbsoluteRefusedIff(Env(ONLY_LABEL, NO_RANK), [base], Relocation(0, 0, 4, 8, AbsoluteField, LBL, 0));
  }

  /** The program is assembled up to address 0x100, and from 0x101 on refused. */
  lemma MoveAssemblesIff(base: nat)
    requires base <= 0xFFFE
    ensures WellFormed(MOVES, NO_RANK) && Fitting(MOVES, NO_RANK, At(base))
    ensures Succeeds(MOVES, NO_RANK, At(base)) <==> base <= 0x100
  {
    hide WellFormed, Parsed, C.Wrong, C.AllLinks, Code, Addresses, Prepared, AnyRefused;
    SingleParsed(MOVE, 2, MOVES);
    ParsedPrepared(MOVES, NO_RANK);
    var a, env := Single(MOVE, 2), Env(ONLY_LABEL, NO_RANK);
    SingleCode(MOVE, 2, env, At(base));
    MoveLinks();
    MoveRefusedIff(base);
    assert KindOf(".text") == Loadable;
    PreparedParts(a, env);
    LinksInTable(a, env);
    assert !C.SomeWrong(env, KindsFor(a), a.placed, |a.placed|);
  }

  /** At 0x100 it is accepted, and the file has `mov r0, 0`. */
  method MoveInFile() returns (lines: seq<Line>)
    ensures LoadedByte(0x100, 0x00) in Decode(lines) && LoadedByte(0x101, 0x60) in Decode(lines)
  {
    hide WellFormed, Succeeds, Fitting, Exact, Decode, IsLoaded, Symbols, IsWritten, SpelledAfterLinking;
    hide ProgramImage, WrittenFrom, Tidy, Addressable, Eval, WholeProgram.AddressOf, MeansAfterLinking, WordBytes;
    hide I.Decode;
    MoveAssemblesIff(0x100);
    FittingIsAddressable(MOVES, NO_RANK, At(0x100));
    MovePlaces();
    var ok;
    ok, lines := Assemble(MOVES, NO_RANK, At(0x100));
    ghost var word, c := InstructionInFile(MOVES, NO_RANK, At(0x100), lines, 0);
    MoveWord(word);
    assert LoadedByte(0x100 + 1, WordBytes(word)[1]) in Decode(lines);
  }

  lemma MovePlaces()
    ensures WellFormed(MOVES, NO_RANK) && IsLoaded(MOVES, NO_RANK, 0) && IsWritten(MOVES, NO_RANK, 0)
    ensures WholeProgram.AddressOf(MOVES, NO_RANK, At(0x100), 0) == 0x100
  {
    hide WellFormed, Parsed, Code, Addresses, Prepared;
    SingleParsed(MOVE, 2, MOVES);
    ParsedPrepared(MOVES, NO_RANK);
    SingleCode(MOVE, 2, Env(ONLY_LABEL, NO_RANK), At(0x100));
    assert KindOf(".text") == Loadable;
  }

  lemma MoveWord(word: Word)
    requires WellFormed(MOVES, NO_RANK) && SpelledAfterLinking(MOVES, NO_RANK, At(0x100), 0, word)
    ensures WordBytes(word) == [0x00, 0x60]
  {
    hide WellFormed, Parsed, Code, Addresses, Prepared, Eval, BaseSymbol;
    SingleParsed(MOVE, 2, MOVES);
    ParsedPrepared(MOVES, NO_RANK);
    SingleCode(MOVE, 2, Env(ONLY_LABEL, NO_RANK), At(0x100));
    MoveOperand();
    SplitWord(0x6000);
  }

  /** `lbl:` and then `.data` and `.byte 1`: the label is in `.data`. */
  const RENAMED: L.Program :=
    [L.Statement(I.Some(LBL), L.Nothing, []), L.Statement(I.None, L.InSection(".data"), []),
     L.Statement(I.None, L.Values(1, [Value(1)]), [])]

  lemma LabelIsRenamed()
    ensures WellFormed(RENAMED, NO_RANK) && !Parsed(RENAMED, NO_RANK).error
    ensures SectionNameOf(RENAMED, NO_RANK, 0) == ".data"
  {
    hide Parsed, WellFormed;
    RenamedSizes();
    SectionSelected(RENAMED, NO_RANK, 0, 2);
    var one, two := RENAMED[1..], RENAMED[1..][1..];
    assert two == [RENAMED[2]];
    assert S.NameFrom(".data", two, 0) == ".data";
    assert S.NameFrom(".text", one, 1) == ".data";
    assert S.NameFrom(".text", RENAMED, 2) == ".data";
  }

  lemma RenamedAccepted()
    ensures WellFormed(RENAMED, NO_RANK) && !Parsed(RENAMED, NO_RANK).error
  {
    hide Parsed;
    assert LBL == "lbl" && LBL != "";
    ParsedErrorIff(RENAMED, NO_RANK);
    forall j | 0 <= j < 3 ensures !FailsFirst(RENAMED, NO_RANK, j) {
      L.StartLaid(NO_RANK);
      if j == 0 { assert T.NamesBefore(RENAMED, 0) == {}; }
    }
  }

  lemma RenamedSizes()
    ensures WellFormed(RENAMED, NO_RANK) && !Parsed(RENAMED, NO_RANK).error
    ensures S.FirstRoom(Parsed(RENAMED, NO_RANK).placed, 0, 2)
  {
    hide Parsed, WellFormed, Eval;
    RenamedAccepted();
    StatementSettled(RENAMED, NO_RANK, 0);
    StatementSettled(RENAMED, NO_RANK, 1);
    StatementSettled(RENAMED, NO_RANK, 2);
    assert Room(RENAMED, NO_RANK, 0).size == 0 && Room(RENAMED, NO_RANK, 1).size == 0;
    assert Room(RENAMED, NO_RANK, 2).size == 1;
  }
}
