/** The phases of the assembler, from the statements to the lines of the Intel HEX file. */
module Assembler {
  import opened Bits
  import opened Machine
  import opened Expressions
  import opened ExactArithmetic
  import opened Stability
  import opened LazySymbols
  import opened Sections
  import opened Placement
  import opened MemorySpaces
  import opened MemoryImages
  import opened IntelHex
  import opened Relocations
  import L = Layout
  import T = TwoPass
  import C = CodeGeneration
  import K = Linking
  import O = ObjectCode
  import opened PassOneActions

  lemma LoadedShows(m: Bytes, n: nat, image: Image)
    requires |m| == Pow2(n) && Fits(image, n)
    ensures Shows(LoadAll(m, n, image), n, image)
  {
    hide LoadAll, Fits, Pow2;
    forall p | p in image ensures ShowsOne(LoadAll(m, n, image), n, p) {
      var k :| 0 <= k < |image| && image[k] == p;
      forall a: nat | p.Covers(a) ensures a < Pow2(n) && LoadAll(m, n, image)[a] == p.contents[a - p.base] {
        LoadHit(m, n, image, k, a);
      }
    }
  }

  /** Reading the lines back gives exactly the bytes of the image's loadable sections, each once. */
  ghost predicate Exact(lines: seq<Line>, image: Image)
  {
    NoRepeats(Decode(lines)) && forall x :: x in Decode(lines) <==> Held(image, x)
  }

  lemma PageSizes()
    ensures Bitwise(And, 0x1000, 0x1000 - 1) == 0 && Bitwise(And, 0x10, 0x10 - 1) == 0
  {
    hide Bitwise, LowBits, Pow2;
    Pow2Table();
    AndMask(0x1000, 12);
    AndMask(0x10, 4);
    LowBitsMod(0x1000, 12);
    LowBitsMod(0x10, 4);
  }

  lemma MoreIsGreater(a: nat, b: nat)
    requires a < b
    ensures Pow2(a) < Pow2(b)
  {
    Pow2Monotone(a + 1, b);
  }

  lemma SameExponent(a: nat, b: nat)
    requires Pow2(a) == Pow2(b)
    ensures a == b
  {
    hide Pow2;
    if a < b { MoreIsGreater(a, b); }
    if b < a { MoreIsGreater(b, a); }
  }

  /** The program's memory: 4 KiB pages, 64 KiB in all. */
  method NewMemory() returns (memory: MemorySpace)
    ensures memory.Valid() && fresh(memory.repr) && memory.Bits() == 16
    ensures forall i | 0 <= i < |memory.Flat()| :: memory.Flat()[i] == 0
  {
    hide Bitwise, Pow2;
    PageSizes();
    memory := new MemorySpace(0x1000, 0x1_0000);
    Pow2Sum(memory.pageBits, memory.tableBits);
    Pow2Table();
    SameExponent(memory.Bits(), 16);
  }

  /** Sections in their final places. */
  ghost predicate InPlace(t: SectionTable)
    reads t, t.table, t.located
  {
    && multiset(t.located) == multiset(t.table) && Sorted(Placed(t.located))
    && Fits(ImageOf(t.table), 16)
  }

  /** The default address range takes in every section. */
  lemma RangeCovers(t: SectionTable)
    requires t.table != [] && InPlace(t)
    ensures forall p | p in ImageOf(t.table) :: LowerAddress(t) <= p.base && p.Extent().End() <= HigherAddress(t)
    ensures LowerAddress(t) <= HigherAddress(t)
  {
    hide Pow2, Fits, Sorted;
    var image, list := ImageOf(t.table), Placed(t.located);
    assert t.table[0] in multiset(t.located);
    forall i | 0 <= i < |list| ensures list[i].End() <= 0x1_0000 { LocatedFits(t, i); }
    forall p | p in image ensures LowerAddress(t) <= p.base && p.Extent().End() <= HigherAddress(t) {
      var k :| 0 <= k < |image| && image[k] == p;
      assert t.table[k] in multiset(t.located);
      var i :| 0 <= i < |t.located| && t.located[i] == t.table[k];
      SortedExtremes(list, i);
    }
    SortedExtremes(list, 0);
  }

  lemma LocatedFits(t: SectionTable, i: nat)
    requires InPlace(t) && i < |t.located|
    ensures Placed(t.located)[i].End() <= 0x1_0000
  {
    hide Sorted, Pow2;
    Pow2Table();
    assert t.located[i] in multiset(t.table);
    var k :| 0 <= k < |t.table| && t.table[k] == t.located[i];
    assert ImageOf(t.table)[k].Extent().End() <= Pow2(16);
  }

  /** `locate` has listed every section, none before one at a lower address. */
  ghost predicate InOrder(t: SectionTable)
    reads t, t.table, t.located
  {
    && multiset(t.located) == multiset(t.table)
    && (t.located != [] ==> t.located[0].baseAddress <= t.located[|t.located| - 1].baseAddress)
  }

  /** Every section ends where 32 bits can say. */
  ghost predicate Addressable(image: Image) { forall p | p in image :: p.Extent().End() < 0x1_0000_0000 }

  lemma RangeInOrder(t: SectionTable)
    requires t.table != [] && InOrder(t) && Addressable(ImageOf(t.table))
    ensures LowerAddress(t) <= HigherAddress(t)
  {
    assert t.table[0] in multiset(t.located);
    var first, last := t.located[0], t.located[|t.located| - 1];
    assert first in multiset(t.table) && last in multiset(t.table);
    var k :| 0 <= k < |t.table| && t.table[k] == last;
    assert ImageOf(t.table)[k] == ResidentOf(last) && ResidentOf(last) in ImageOf(t.table);
    assert U32(last.baseAddress + |last.contents|) == last.baseAddress + |last.contents|;
    assert U32(first.baseAddress) == first.baseAddress;
  }

  /** Memory before anything is loaded. */
  function Zeros(): (m: Bytes)
    ensures |m| == Pow2(16)
  {
    Repeat(0, Pow2(16))
  }

  /** The lines of a byte-wide file, written from the memory the image was loaded into. */
  ghost predicate WrittenFrom(lines: seq<Line>, image: Image)
  {
    exists lower: nat, higher: nat | lower <= higher ::
      lines == FileLines(LoadAll(Zeros(), 16, image), 16, image, Range(1, 0, lower, higher)) + [END_OF_FILE]
  }

  /** Lines a loader accepts, up to the end-of-file line. */
  ghost predicate Tidy(lines: seq<Line>)
  {
    && lines != [] && lines[|lines| - 1] == Line(0, 0, 1, [], 0xFF)
    && Sum(LineBytes(lines[|lines| - 1])) % 0x100 == 0
    && forall i | 0 <= i < |lines| - 1 :: Loadable64K(lines[i])
  }

  /** Loading the memory and writing the file, for the default address range and one byte per word. */
  method WriteHex(t: SectionTable) returns (lines: seq<Line>)
    requires t.Valid() && t.table != [] && InOrder(t) && Addressable(ImageOf(t.table))
    ensures WrittenFrom(lines, ImageOf(t.table))
    ensures InPlace(t) ==> Exact(lines, ImageOf(t.table)) && Tidy(lines)
  {
    hide Pow2, Fits, Shows, Sorted, LoadAll, Held, Decode, FileLines, MemorySpace.Flat, MemorySpace.Valid;
    hide LowerAddress, HigherAddress, InOrder, Exact, Tidy, InPlace;
    ghost var image := ImageOf(t.table);
    RangeInOrder(t);
    var memory := NewMemory();
    assert memory.Flat() == Zeros();
    LoadMemorySpace(t.table, memory);
    assert ImageOf(t.table) == image;
    lines := BinaryHexIntel(t.table, memory, Range(1, 0, LowerAddress(t), HigherAddress(t)));
    if InPlace(t) { FittingFile(t, lines); }
  }

  lemma FittingFile(t: SectionTable, lines: seq<Line>)
    requires t.table != [] && InPlace(t) && LowerAddress(t) <= HigherAddress(t)
    requires var image := ImageOf(t.table);
             lines == FileLines(LoadAll(Zeros(), 16, image), 16, image,
                                Range(1, 0, LowerAddress(t), HigherAddress(t))) + [END_OF_FILE]
    ensures Exact(lines, ImageOf(t.table)) && Tidy(lines)
  {
    hide Pow2, Shows, Sorted, LoadAll, Held, Decode, FileLines, LowerAddress, HigherAddress, Loadable64K, LineBytes;
    var image := ImageOf(t.table);
    RangeCovers(t);
    LoadedShows(Zeros(), 16, image);
    WholeRangeExact(LoadAll(Zeros(), 16, image), 16, image, LowerAddress(t), HigherAddress(t));
    assert forall p | p in image :: p.Extent().End() <= 0x1_0000 by { Pow2Table(); }
    FileTidy(LoadAll(Zeros(), 16, image), 16, image, Range(1, 0, LowerAddress(t), HigherAddress(t)));
    EndTidy();
  }

  /** What the parser guarantees of a program: `rank` orders its `.equ` symbols, and names are not empty. */
  ghost predicate WellFormed(program: L.Program, rank: map<string, nat>)
  {
    && L.Ranked(program, rank) && T.IntProgram(program) && T.Numbered(program)
    && forall s | s in program :: "" !in T.NamesOf(s)
  }

  /** The state when pass one ends. */
  ghost function Parsed(program: L.Program, rank: map<string, nat>): (a: L.Assembly)
    requires WellFormed(program, rank)
    ensures |a.placed| == |program|
  {
    L.StartLaid(rank);
    L.PassOne(L.Start(), program, rank)
  }

  lemma {:induction false} NotDefined(a: L.Assembly, program: L.Program, rank: map<string, nat>, name: string)
    requires L.Ready(a, rank) && L.Ranked(program, rank) && T.IntProgram(program) && IntEnv(Env(a.defs, rank))
    requires T.Numbered(program) && T.FreshDots(a, program)
    requires name !in a.defs && forall s | s in program :: name !in T.NamesOf(s)
    ensures name !in L.PassOne(a, program, rank).defs
    decreases |program|
  {
    hide L.Ready, L.Advance, T.NamesOf, T.IntBody, IntEnv, L.RankedBody, T.Settled, T.FreshDots, T.Numbered, T.Grows;
    if program != [] {
      assert T.FreshHead(a, program[0]) by { T.FirstFresh(a, program); }
      T.StepSettles(a, program[0], rank);
      T.FreshDotsRest(a, program, rank);
      NotDefined(L.Advance(a, program[0], rank), program[1..], rank, name);
    }
  }

  /** What an error-free pass one leaves for the code generator. */
  ghost predicate Prepared(a: L.Assembly, env: Env)
  {
    && env.Acyclic() && IntEnv(env) && "" !in env.defs
    && K.KnownSections(env, |a.table.records|) && L.Laid(a) && T.EqusPlaced(a) && env.defs == a.defs
    && forall p | p in a.placed :: T.RightSize(env, p) && T.IntBody(p.body)
  }

  lemma ParsedPrepared(program: L.Program, rank: map<string, nat>)
    requires WellFormed(program, rank) && !Parsed(program, rank).error
    ensures Prepared(Parsed(program, rank), Env(Parsed(program, rank).defs, rank))
  {
    hide L.Advance, T.NamesOf, T.IntBody, L.RankedBody, T.Numbered, T.Grows, L.Laid, L.PassOne, T.RightSize;
    hide T.EqusPlaced;
    var start, a := L.Start(), Parsed(program, rank);
    var env := Env(a.defs, rank);
    L.StartLaid(rank);
    L.RunLaid(start, program, rank);
    T.PassOneSettles(start, program, rank);
    assert T.EqusPlaced(a) by { RunFromStart(program, rank); }
    NotDefined(start, program, rank, "");
    forall p | p in a.placed ensures T.RightSize(env, p) && T.IntBody(p.body) {
      var i :| 0 <= i < |a.placed| && a.placed[i] == p;
      assert T.Settled(env, program[i], a.placed[|start.placed| + i]);
      assert program[i] in program;
    }
  }

  lemma RunFromStart(program: L.Program, rank: map<string, nat>)
    requires WellFormed(program, rank)
    ensures T.EqusPlaced(Parsed(program, rank))
  {
    hide L.PassOne, L.Ranked, T.IntProgram, T.Numbered;
    L.StartLaid(rank);
    T.RunEqus(L.Start(), program, rank);
  }

  /** Some statement is wrong. */
  ghost predicate Rejected(a: L.Assembly, env: Env)
    requires Prepared(a, env)
  {
    PreparedParts(a, env);
    C.SomeWrong(env, KindsFor(a), a.placed, |a.placed|)
  }

  /** Once no statement is wrong, every `.equ` symbol evaluates without an error. */
  lemma NoSymbolFails(a: L.Assembly, env: Env, name: string)
    requires Prepared(a, env)
    requires !Rejected(a, env)
    ensures env.Acyclic() && !DefinedError(env, name)
  {
    hide Eval, Prepared, L.Laid, L.Fitted, L.Sized, T.RightSize, Env.Acyclic, C.Wrong, DefinedError;
    PreparedParts(a, env);
    if name in env.defs && env.defs[name].Equ? {
      var i := EquStatement(a, env, name);
      assert !C.Wrong(env, KindsFor(a)[a.placed[i].section], a.placed[i]);
      WrongEqu(env, KindsFor(a)[a.placed[i].section], a.placed[i], name);
    } else {
      NotEqu(env, name);
    }
  }

  lemma NotEqu(env: Env, name: string)
    requires env.Acyclic() && !(name in env.defs && env.defs[name].Equ?)
    ensures !DefinedError(env, name)
  {
  }

  lemma WrongEqu(env: Env, kind: Kind, p: L.Placed, name: string)
    requires env.Acyclic() && p.body.Equal? && p.body.name == name
    ensures C.Wrong(env, kind, p) == DefinedError(env, name)
  {
    hide Eval;
  }

  lemma EquStatement(a: L.Assembly, env: Env, name: string) returns (i: nat)
    requires Prepared(a, env) && name in env.defs && env.defs[name].Equ?
    ensures i < |a.placed| && a.placed[i].body.Equal? && a.placed[i].body.name == name
  {
    hide L.Laid, T.RightSize, T.IntBody, IntEnv, K.KnownSections, Env.Acyclic;
    var p :| p in a.placed && p.body == L.Equal(name, env.defs[name].expr);
    i :| 0 <= i < |a.placed| && a.placed[i] == p;
  }

  /** The sections as the code generator leaves them. */
  ghost function Code(a: L.Assembly, env: Env): (secs: seq<Record>)
    requires env.Acyclic()
    ensures |secs| == |a.table.records|
  {
    seq(|a.table.records|, k requires 0 <= k < |a.table.records| =>
      Record(a.table.records[k].name, L.Gather(a.placed, C.Images(env, a.placed), |a.placed|, k)))
  }

  function Stripped(secs: seq<Record>): (contents: seq<Bytes>)
    ensures |contents| == |secs| && forall k | 0 <= k < |secs| :: contents[k] == secs[k].contents
  {
    seq(|secs|, k requires 0 <= k < |secs| => secs[k].contents)
  }

  /** The statements' images make up the sections, and the linker gets what it needs. */
  lemma CodeGenerated(a: L.Assembly, env: Env)
    requires Prepared(a, env)
    ensures var contents := Stripped(Code(a, env));
            && K.Generated(env, a.placed, contents)
            && C.Assembled(contents, a.placed, C.Images(env, a.placed)) && L.Sized(a.placed, C.Images(env, a.placed))
  {
    hide L.Gather, L.SizeBefore, T.RightSize, T.IntBody, IntEnv, C.Image, L.Reserved;
    forall i | 0 <= i < |a.placed| ensures |C.Images(env, a.placed)[i]| == a.placed[i].size {
      assert a.placed[i] in a.placed && |L.Reserves(a.placed)[i]| == a.placed[i].size;
      C.ImageSize(env, a.placed[i]);
    }
    forall k | 0 <= k < |a.table.records| ensures |Stripped(Code(a, env))[k]| == L.SizeBefore(a.placed, |a.placed|, k) {
      L.GatherSize(a.placed, C.Images(env, a.placed), |a.placed|, k);
    }
  }

  ghost function Links(a: L.Assembly, env: Env): seq<Relocation>
    requires env.Acyclic()
  {
    C.AllLinks(env, a.placed, |a.placed|)
  }

  function KindsFor(a: L.Assembly): (kinds: seq<Kind>)
    ensures |kinds| == |a.table.records|
  {
    seq(|a.table.records|, k requires 0 <= k < |a.table.records| => KindOf(a.table.records[k].name))
  }

  lemma LinksInTable(a: L.Assembly, env: Env)
    requires Prepared(a, env)
    ensures forall r | r in Links(a, env) :: InTable(env, |a.table.records|, r)
  {
    hide Prepared, L.Laid, C.Assembled, AllDisjoint, AllInside, FixOf, K.Linkable, Resolved;
    assert env.Acyclic() by { PreparedParts(a, env); }
    CodeGenerated(a, env);
    K.ProgramFixes(env, seq(|a.table.records|, _ => 0), a.placed, Stripped(Code(a, env)));
  }

  lemma PreparedParts(a: L.Assembly, env: Env)
    requires Prepared(a, env)
    ensures env.Acyclic() && L.Laid(a) && L.Fitted(a.placed, |a.table.records|)
    ensures forall p | p in a.placed :: T.RightSize(env, p)
    ensures L.Sized(a.placed, L.Reserves(a.placed))
    ensures forall i | 0 <= i < |a.placed| :: a.placed[i].section < |a.table.records|
  {
  }

  /** The addresses `locate` gives the sections. */
  ghost function Addresses(a: L.Assembly, env: Env, given: map<string, nat>): (bases: seq<nat>)
    requires env.Acyclic()
    ensures |bases| == |a.table.records|
  {
    Bases(Code(a, env), given, 0)
  }

  /** The sections do not overlap, and every relocation is accepted. */
  ghost predicate Linkable(a: L.Assembly, env: Env, given: map<string, nat>)
    requires Prepared(a, env)
  {
    LinksInTable(a, env);
    var bases := Addresses(a, env, given);
    Apart(Spans(Code(a, env), bases)) && !AnyRefused(env, bases, Links(a, env))
  }

  /** No phase after pass one reports an error. */
  ghost predicate Accepted(a: L.Assembly, env: Env, given: map<string, nat>)
    requires Prepared(a, env)
  {
    !Rejected(a, env) && Linkable(a, env, given)
  }

  /** The program is assembled without an error. */
  ghost predicate Succeeds(program: L.Program, rank: map<string, nat>, given: map<string, nat>)
    requires WellFormed(program, rank)
  {
    var a := Parsed(program, rank);
    !a.error && (ParsedPrepared(program, rank); Accepted(a, Env(a.defs, rank), given))
  }

  /** A table with the sections of a model. */
  ghost predicate Models(t: SectionTable, a: L.Assembly)
    reads t, t.table
  {
    t.Valid() && t.table != [] && t.Model() == a.table
  }

  /** The parser's phase. */
  method ParseAll(program: L.Program, ghost rank: map<string, nat>) returns (parser: Parser)
    requires WellFormed(program, rank)
    ensures fresh(parser) && fresh(parser.sections) && fresh(set s | s in parser.sections.table)
    ensures fresh(parser.evaluator) && fresh(parser.evaluator.nodes) && fresh(parser.evaluator.symbols)
    ensures parser.Valid() && parser.evaluator.env.rank == rank && parser.sections.located == []
    ensures L.Agrees(parser.Model(), Parsed(program, rank))
  {
    hide L.PassOne, L.Start, SectionTable.Model, SectionTable.Valid, Evaluator.Valid, L.Ranked, T.Numbered;
    hide T.IntProgram;
    parser := new Parser(rank);
    L.StartLaid(rank);
    assert T.FreshDots(L.Start(), program) by { NothingYet(program); }
    parser.Parse(program);
  }

  lemma NothingYet(program: L.Program)
    ensures T.FreshDots(L.Start(), program)
  {
  }

  lemma ModelKinds(t: SectionTable, a: L.Assembly)
    requires Models(t, a)
    ensures |t.table| == |a.table.records| && C.KindsOf(t.table) == KindsFor(a)
    ensures t.Valid() && forall k | 0 <= k < |t.table| :: t.table[k].name == a.table.records[k].name
    ensures forall k | 0 <= k < |t.table| :: t.Contents()[k] == a.table.records[k].contents
  {
    assert t.Model().records == a.table.records;
  }

  /** The code generator's phase. */
  method GenerateAll(t: SectionTable, evaluator: Evaluator, placed: seq<L.Placed>, operands: seq<seq<Node>>,
                     ghost a: L.Assembly)
    returns (relocations: seq<Relocation>)
    requires Prepared(a, evaluator.env) && Models(t, a) && placed == a.placed
    requires evaluator.Valid() && !evaluator.stale && evaluator.errors == 0
    requires AllTrees(operands, placed, evaluator.nodes)
    modifies (set s | s in t.table)`contents, evaluator`errors, evaluator.nodes, evaluator.symbols
    ensures t.Valid() && evaluator.Valid() && relocations == Links(a, evaluator.env)
    ensures evaluator.errors > 0 <==> Rejected(a, evaluator.env)
    ensures evaluator.errors == 0 ==> Holds(t, Code(a, evaluator.env))
  {
    hide L.Gather, L.Laid, Prepared, L.Fitted, L.Sized, T.RightSize, C.SomeWrong, L.Reserved, SectionTable.Model;
    hide Evaluator.Valid, AllTrees, C.Assembled, Models, Holds, Code, KindsFor;
    ghost var env := evaluator.env;
    PreparedParts(a, env);
    ModelKinds(t, a);
    LaidAssembled(t, a);
    relocations := C.GenerateCode(t, evaluator, placed, operands);
    assert C.KindsOf(t.table) == KindsFor(a);
    if evaluator.errors == 0 { AssembledHolds(t, a, env); }
  }

  lemma AssembledHolds(t: SectionTable, a: L.Assembly, env: Env)
    requires env.Acyclic() && |t.table| == |a.table.records|
    requires forall k | 0 <= k < |t.table| :: t.table[k].name == a.table.records[k].name
    requires C.Assembled(t.Contents(), a.placed, C.Images(env, a.placed))
    ensures Holds(t, Code(a, env))
  {
    hide L.Gather;
    forall k | 0 <= k < |t.table| ensures Code(a, env)[k] == Record(t.table[k].name, t.table[k].contents) {
      assert t.Contents()[k] == t.table[k].contents;
    }
  }

  lemma LaidAssembled(t: SectionTable, a: L.Assembly)
    requires Models(t, a) && L.Laid(a)
    ensures C.Assembled(t.Contents(), a.placed, L.Reserves(a.placed))
  {
    hide L.Gather;
    ModelKinds(t, a);
  }

  /** The list `locate` made: all sections, in order of address. */
  ghost predicate Listed(t: SectionTable, list: seq<Span>)
    reads t, t.table, t.located
  {
    && |list| == |t.located| && multiset(t.located) == multiset(t.table) && Sorted(list)
    && forall i | 0 <= i < |list| :: list[i].base == t.located[i].baseAddress
  }

  lemma PlacedList(t: SectionTable, spans: seq<Span>)
    requires PlacedUpTo(t, spans, |t.table|)
    ensures Listed(t, Placed(t.located)) && Apart(spans) && |spans| == |t.table|
    ensures forall k | 0 <= k < |t.table| :: SpanOf(t.table[k]) == spans[k]
  {
    assert t.table[..|t.table|] == t.table && spans[..|t.table|] == spans;
  }

  lemma PlacedInOrder(t: SectionTable, spans: seq<Span>)
    requires PlacedUpTo(t, spans, |t.table|)
    ensures InOrder(t) && multiset(t.located) == multiset(t.table)
    ensures t.located != [] ==> t.located[0].baseAddress <= t.located[|t.located| - 1].baseAddress
  {
    hide Sorted, Apart;
    PlacedList(t, spans);
    if t.located != [] { SortedExtremes(Placed(t.located), |t.located| - 1); }
  }

  /** Sections whose addresses and sizes are still those in `spans` are still in order. */
  lemma StillPlaced(t: SectionTable, spans: seq<Span>, list: seq<Span>)
    requires Listed(t, list) && Apart(spans) && |spans| == |t.table|
    requires forall k | 0 <= k < |t.table| :: SpanOf(t.table[k]) == spans[k]
    requires forall i | 0 <= i < |list| :: list[i].size == |t.located[i].contents|
    ensures PlacedUpTo(t, spans, |t.table|)
  {
    assert t.table[..|t.table|] == t.table && spans[..|t.table|] == spans;
    assert Placed(t.located) == list;
  }

  /** The list as it was when the sections had these contents. */
  ghost predicate SizesBefore(t: SectionTable, list: seq<Span>, before: seq<Bytes>)
    reads t
  {
    && |list| == |t.located| && |before| == |t.table|
    && forall i, k | 0 <= i < |list| && 0 <= k < |before| && t.located[i] == t.table[k] :: list[i].size == |before[k]|
  }

  lemma SizesNow(t: SectionTable, list: seq<Span>, before: seq<Bytes>)
    requires list == Placed(t.located) && before == t.Contents()
    ensures SizesBefore(t, list, before)
  {
  }

  /** Spans as bases and sizes. */
  ghost predicate SpansAre(spans: seq<Span>, bases: seq<nat>, contents: seq<Bytes>)
  {
    && |spans| == |bases| == |contents|
    && forall k | 0 <= k < |spans| :: spans[k] == Span(bases[k], |contents[k]|)
  }

  lemma SpansNow(t: SectionTable, spans: seq<Span>)
    requires PlacedUpTo(t, spans, |t.table|)
    ensures SpansAre(spans, AddressesOf(t.table), t.Contents())
  {
    hide Sorted, Apart;
    forall k | 0 <= k < |spans| ensures spans[k] == Span(AddressesOf(t.table)[k], |t.Contents()[k]|) {
      assert SpanOf(t.table[k]) == spans[k];
    }
  }

  lemma SameBases(t: SectionTable)
    requires multiset(t.located) == multiset(t.table)
    requires t.located != [] ==> t.located[0].baseAddress <= t.located[|t.located| - 1].baseAddress
    ensures InOrder(t)
  {
  }

  /** Sections that kept their sizes are where they were. */
  lemma SizesStillPlaced(t: SectionTable, spans: seq<Span>, list: seq<Span>, bases: seq<nat>, before: seq<Bytes>)
    requires Listed(t, list) && Apart(spans) && |spans| == |t.table| && SpansAre(spans, bases, before)
    requires SizesBefore(t, list, before)
    requires AddressesOf(t.table) == bases && SameSizes(t.Contents(), before)
    ensures PlacedUpTo(t, spans, |t.table|)
  {
    hide Sorted, Apart, PlacedUpTo;
    forall k | 0 <= k < |t.table| ensures SpanOf(t.table[k]) == spans[k] {
      assert |t.Contents()[k]| == |before[k]| && t.table[k].baseAddress == AddressesOf(t.table)[k];
    }
    forall i | 0 <= i < |list| ensures list[i].size == |t.located[i].contents| {
      assert t.located[i] in multiset(t.table);
      var k :| 0 <= k < |t.table| && t.table[k] == t.located[i];
      assert |t.Contents()[k]| == |before[k]|;
    }
    StillPlaced(t, spans, list);
  }

  /** The linker's phase. */
  method LinkAll(t: SectionTable, evaluator: Evaluator, relocations: seq<Relocation>, ghost spans: seq<Span>)
    requires t.Valid() && evaluator.Valid() && !evaluator.stale
    requires forall r | r in relocations :: InTable(evaluator.env, |t.table|, r)
    requires forall name :: evaluator.env.Acyclic() && !DefinedError(evaluator.env, name)
    requires PlacedUpTo(t, spans, |t.table|)
    modifies (set s | s in t.table)`contents, evaluator`errors, evaluator.nodes, evaluator.symbols
    ensures t.Valid() && evaluator.Valid() && AddressesOf(t.table) == old(AddressesOf(t.table))
    ensures t.Contents() == ApplyAll(old(t.Contents()), Fixes(evaluator.env, AddressesOf(t.table), relocations))
    ensures evaluator.errors > 0
            <==> old(evaluator.errors) > 0 || AnyRefused(evaluator.env, AddressesOf(t.table), relocations)
    ensures InOrder(t)
    ensures SameSizes(t.Contents(), old(t.Contents())) ==> PlacedUpTo(t, spans, |t.table|)
  {
    hide InTable, ApplyAll, Fixes, AnyRefused, PlacedUpTo, SectionTable.Valid, Sorted, Apart, Evaluator.Valid;
    hide DefinedError, InOrder, SizesBefore, SameSizes, Env.Acyclic, Placed, SpanOf, SpansAre;
    ghost var list, bases, before := Placed(t.located), AddressesOf(t.table), t.Contents();
    PlacedList(t, spans);
    PlacedInOrder(t, spans);
    SizesNow(t, list, before);
    SpansNow(t, spans);
    Relocate(t, evaluator, relocations);
    SameBases(t);
    if SameSizes(t.Contents(), before) { SizesStillPlaced(t, spans, list, bases, before); }
  }

  /** The linked sections in their places: addresses as `locate` chose them, contents as the linker left them. */
  ghost predicate Built(t: SectionTable, a: L.Assembly, env: Env, given: map<string, nat>)
    requires Prepared(a, env)
    reads t, t.table, t.located
  {
    LinksInTable(a, env);
    var bases, code := Addresses(a, env, given), Code(a, env);
    && t.Valid() && t.table != [] && |t.table| == |code| && AddressesOf(t.table) == bases && InOrder(t)
    && (forall k | 0 <= k < |code| :: t.table[k].name == code[k].name)
    && t.Contents() == ApplyAll(Stripped(code), Fixes(env, bases, Links(a, env)))
    && (SameSizes(t.Contents(), Stripped(code)) ==> PlacedUpTo(t, Spans(code, bases), |code|))
  }

  /** Placing and linking. */
  method PlaceAndLink(t: SectionTable, evaluator: Evaluator, ghost a: L.Assembly, given: map<string, nat>,
                      relocations: seq<Relocation>)
    returns (ok: bool)
    requires Prepared(a, evaluator.env) && t.Valid() && t.table != [] && t.located == []
    requires evaluator.Valid() && !evaluator.stale && evaluator.errors == 0
    requires forall name :: evaluator.env.Acyclic() && !DefinedError(evaluator.env, name)
    requires Holds(t, Code(a, evaluator.env)) && relocations == Links(a, evaluator.env)
    modifies t`located, (set s | s in t.table)`baseAddress, (set s | s in t.table)`contents
    modifies evaluator`errors, evaluator.nodes, evaluator.symbols
    ensures t.Valid()
    ensures ok <==> Linkable(a, evaluator.env, given)
    ensures ok ==> Built(t, a, evaluator.env, given)
  {
    hide Prepared, Apart, Bases, InTable, ApplyAll, Fixes, AnyRefused, PlacedUpTo, SectionTable.Valid, C.AllLinks;
    hide Evaluator.Valid, DefinedError, InOrder;
    ghost var env := evaluator.env;
    PreparedParts(a, env);
    ghost var code, bases := Code(a, env), Addresses(a, env, given);
    ghost var spans := Spans(code, bases);
    LinksInTable(a, env);
    ok := Locate(t, given, code);
    if !ok { return; }
    PlacedAddresses(t, code, bases);
    assert t.Contents() == Stripped(code);
    LinkAll(t, evaluator, relocations, spans);
    ok := evaluator.errors == 0;
  }

  lemma PlacedAddresses(t: SectionTable, secs: seq<Record>, bases: seq<nat>)
    requires |bases| == |secs| && PlacedUpTo(t, Spans(secs, bases), |secs|)
    ensures |t.table| == |secs| && AddressesOf(t.table) == bases
  {
    var spans := Spans(secs, bases);
    forall k | 0 <= k < |secs| ensures t.table[k].baseAddress == bases[k] {
      assert SpanOf(t.table[k]) == spans[k];
    }
  }

  /** A table with the sections of a program that was assembled without an error. */
  ghost predicate Done(t: SectionTable, program: L.Program, rank: map<string, nat>, given: map<string, nat>)
    requires WellFormed(program, rank)
    reads t, t.table, t.located
  {
    var a := Parsed(program, rank);
    !a.error && (ParsedPrepared(program, rank); Built(t, a, Env(a.defs, rank), given))
  }

  lemma ParserModels(parser: Parser)
    requires parser.Valid()
    ensures Models(parser.sections, parser.Model())
  {
  }

  /** The phases of `main` up to the linker, with their error gates. */
  method Build(program: L.Program, ghost rank: map<string, nat>, given: map<string, nat>)
    returns (t: SectionTable, ok: bool)
    requires WellFormed(program, rank)
    ensures t.Valid() && (ok <==> Succeeds(program, rank, given))
    ensures ok ==> Done(t, program, rank, given)
  {
    hide Prepared, Linkable, Built, C.SomeWrong, WellFormed, SectionTable.Valid, L.Laid, Evaluator.Valid, AllTrees;
    hide DefinedError;
    var parser := ParseAll(program, rank);
    t := parser.sections;
    var evaluator := parser.evaluator;
    ghost var a := Parsed(program, rank);
    assert t.Valid() && Models(t, parser.Model()) by { ParserModels(parser); }
    if evaluator.errors > 0 { return t, false; }
    evaluator.ValidParts();
    assert evaluator.env == Env(a.defs, rank);
    ParsedPrepared(program, rank);
    var relocations := GenerateAll(t, evaluator, parser.statements, parser.operands, a);
    if evaluator.errors > 0 { return t, false; }
    forall name ensures evaluator.env.Acyclic() && !DefinedError(evaluator.env, name) {
      NoSymbolFails(a, evaluator.env, name);
    }
    ok := PlaceAndLink(t, evaluator, a, given, relocations);
  }

  /** The image a program stands for: each section at its address, its statements' images one after the
      other, with the relocations' values linked in. */
  ghost function FinalImage(a: L.Assembly, env: Env, given: map<string, nat>): (image: Image)
    requires Prepared(a, env)
    ensures |image| == |a.table.records|
  {
    LinksInTable(a, env);
    var bases, code := Addresses(a, env, given), Code(a, env);
    var linked := ApplyAll(Stripped(code), Fixes(env, bases, Links(a, env)));
    seq(|code|, k requires 0 <= k < |code| => Resident(KindOf(code[k].name), bases[k], linked[k]))
  }

  /** Linking keeps every size, and every section ends within 64 KiB. */
  ghost predicate Roomy(a: L.Assembly, env: Env, given: map<string, nat>)
    requires Prepared(a, env)
  {
    && (forall r | r in Links(a, env) :: !K.OnLastByte(Stripped(Code(a, env)), r))
    && (forall k | 0 <= k < |a.table.records| ::
          Spans(Code(a, env), Addresses(a, env, given))[k].End() <= 0x1_0000)
  }

  lemma SizesKept(a: L.Assembly, env: Env, given: map<string, nat>)
    requires Prepared(a, env) && Roomy(a, env, given)
    ensures LinkedSizes(a, env, given)
  {
    hide Prepared, C.Assembled, ApplyAll, AllDisjoint, AllInside, FixOf, K.Linkable, Resolved, Bases, K.Generated;
    PreparedParts(a, env);
    CodeGenerated(a, env);
    LinksInTable(a, env);
    var bases, contents := Addresses(a, env, given), Stripped(Code(a, env));
    K.ProgramFixes(env, bases, a.placed, contents);
  }

  ghost predicate LinkedSizes(a: L.Assembly, env: Env, given: map<string, nat>)
    requires Prepared(a, env)
  {
    LinksInTable(a, env);
    var code := Stripped(Code(a, env));
    SameSizes(ApplyAll(code, Fixes(env, Addresses(a, env, given), Links(a, env))), code)
  }

  lemma BuiltImage(t: SectionTable, a: L.Assembly, env: Env, given: map<string, nat>)
    requires Prepared(a, env) && Built(t, a, env, given)
    ensures ImageOf(t.table) == FinalImage(a, env, given)
  {
    hide Prepared, ApplyAll, Fixes, Bases, PlacedUpTo, SameSizes, InTable, C.AllLinks, C.Images, L.Gather;
    PreparedParts(a, env);
    LinksInTable(a, env);
    var image := ImageOf(t.table);
    forall k | 0 <= k < |image| ensures image[k] == FinalImage(a, env, given)[k] {
      assert t.Contents()[k] == t.table[k].contents && AddressesOf(t.table)[k] == t.table[k].baseAddress;
    }
  }

  lemma BuiltPlaced(t: SectionTable, a: L.Assembly, env: Env, given: map<string, nat>)
    requires Prepared(a, env) && Built(t, a, env, given) && LinkedSizes(a, env, given)
    ensures env.Acyclic() && PlacedUpTo(t, Spans(Code(a, env), Addresses(a, env, given)), |t.table|)
  {
    hide Prepared, ApplyAll, Fixes, Bases, PlacedUpTo, SameSizes, InTable, C.AllLinks, C.Images, L.Gather;
    PreparedParts(a, env);
  }

  /** Sections placed apart and ending within 64 KiB. */
  lemma PlacedFits(t: SectionTable, spans: seq<Span>)
    requires PlacedUpTo(t, spans, |t.table|) && forall k | 0 <= k < |spans| :: spans[k].End() <= 0x1_0000
    ensures InPlace(t)
  {
    hide Sorted, Pow2;
    PlacedList(t, spans);
    Pow2Table();
    var image := ImageOf(t.table);
    forall k | 0 <= k < |image| ensures image[k].Extent() == spans[k] {
      assert SpanOf(t.table[k]) == spans[k];
    }
  }

  /** A table that was built from a program that fits is in place. */
  lemma BuiltInPlace(t: SectionTable, a: L.Assembly, env: Env, given: map<string, nat>)
    requires Prepared(a, env) && Built(t, a, env, given) && Roomy(a, env, given)
    ensures InPlace(t)
  {
    hide Prepared, Bases, PlacedUpTo, SameSizes, LinkedSizes, InTable, C.AllLinks, C.Images, L.Gather, FinalImage;
    hide InPlace;
    PreparedParts(a, env);
    SizesKept(a, env, given);
    BuiltPlaced(t, a, env, given);
    PlacedFits(t, Spans(Code(a, env), Addresses(a, env, given)));
  }

  /** The image of a program assembled without an error. */
  ghost function ProgramImage(program: L.Program, rank: map<string, nat>, given: map<string, nat>): Image
    requires WellFormed(program, rank) && Succeeds(program, rank, given)
  {
    ParsedPrepared(program, rank);
    FinalImage(Parsed(program, rank), Env(Parsed(program, rank).defs, rank), given)
  }

  /** A program whose sections fit, should it be assembled without an error. */
  ghost predicate Fitting(program: L.Program, rank: map<string, nat>, given: map<string, nat>)
    requires WellFormed(program, rank)
  {
    Succeeds(program, rank, given)
    ==> (ParsedPrepared(program, rank); Roomy(Parsed(program, rank), Env(Parsed(program, rank).defs, rank), given))
  }

  lemma FittingIsAddressable(program: L.Program, rank: map<string, nat>, given: map<string, nat>)
    requires WellFormed(program, rank) && Succeeds(program, rank, given) && Fitting(program, rank, given)
    ensures Addressable(ProgramImage(program, rank, given))
  {
    hide Prepared, WellFormed, Roomy, FinalImage, Parsed, Addressable, Accepted;
    ParsedPrepared(program, rank);
    RoomyIsAddressable(Parsed(program, rank), Env(Parsed(program, rank).defs, rank), given);
  }

  /** End to end: the program is refused exactly when some phase finds it wrong; otherwise the file is written from
      the memory its image was loaded into. If the sections fit, reading the lines back gives the bytes of that
      image, nothing missing, repeated or extra, and a loader accepts every line. */
  method Assemble(program: L.Program, ghost rank: map<string, nat>, given: map<string, nat>)
    returns (ok: bool, lines: seq<Line>)
    requires WellFormed(program, rank)
    requires Succeeds(program, rank, given) ==> Addressable(ProgramImage(program, rank, given))
    ensures ok <==> Succeeds(program, rank, given)
    ensures ok ==> WrittenFrom(lines, ProgramImage(program, rank, given))
    ensures ok && Fitting(program, rank, given) ==> Exact(lines, ProgramImage(program, rank, given)) && Tidy(lines)
  {
    hide Prepared, Built, Succeeds, WellFormed, Roomy, Exact, FinalImage, InPlace, Parsed, SectionTable.Valid, Tidy;
    hide WrittenFrom, Addressable, InOrder;
    lines := [];
    var t;
    t, ok := Build(program, rank, given);
    if ok {
      ghost var a, env := Parsed(program, rank), Env(Parsed(program, rank).defs, rank);
      ParsedPrepared(program, rank);
      BuiltParts(t, a, env, given);
      if Fitting(program, rank, given) { BuiltInPlace(t, a, env, given); }
      lines := WriteHex(t);
    }
  }

  /** A program that fits has addresses to spare. */
  lemma RoomyIsAddressable(a: L.Assembly, env: Env, given: map<string, nat>)
    requires Prepared(a, env) && Roomy(a, env, given)
    ensures Addressable(FinalImage(a, env, given))
  {
    hide Prepared, ApplyAll, Fixes, Bases, C.AllLinks, C.Images, L.Gather;
    PreparedParts(a, env);
    LinksInTable(a, env);
    SizesKept(a, env, given);
    var image, spans := FinalImage(a, env, given), Spans(Code(a, env), Addresses(a, env, given));
    forall k | 0 <= k < |image| ensures image[k].Extent().End() <= 0x1_0000 {
      assert image[k].Extent() == spans[k];
    }
  }

  lemma BuiltParts(t: SectionTable, a: L.Assembly, env: Env, given: map<string, nat>)
    requires Prepared(a, env) && Built(t, a, env, given)
    ensures t.Valid() && t.table != [] && InOrder(t) && ImageOf(t.table) == FinalImage(a, env, given)
  {
    hide Prepared, Bases, PlacedUpTo, SameSizes, InTable, C.AllLinks, C.Images, L.Gather, FinalImage, InOrder;
    PreparedParts(a, env);
    BuiltImage(t, a, env, given);
  }

  /** What the phases of a successful program establish for its object code. */
  lemma ProgramLinkage(a: L.Assembly, env: Env, given: map<string, nat>)
    requires Prepared(a, env) && Accepted(a, env, given) && Roomy(a, env, given)
    ensures var bases, contents := Addresses(a, env, given), Stripped(Code(a, env));
            && O.Linkage(env, bases, a.placed, contents)
            && (forall k | 0 <= k < |contents| :: FinalImage(a, env, given)[k]
                  == Resident(KindOf(a.table.records[k].name), bases[k], O.Final(env, bases, a.placed, contents)[k]))
  {
    hide L.Gather, T.RightSize, T.IntBody, C.Image, Bases, ApplyAll, Fixes, L.Fitted, L.Sized, C.Assembled, K.Generated;
    CodeGenerated(a, env);
    LinksInTable(a, env);
  }
}
