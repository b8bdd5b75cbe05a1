/** From the source statements to the bytes of the file: what a successful run promises a programmer. */
module WholeProgram {
  import opened Machine
  import opened Expressions
  import opened ExactArithmetic
  import opened Relocatable
  import opened Sections
  import opened MemoryImages
  import opened IntelHex
  import opened Assembler
  import L = Layout
  import T = TwoPass
  import C = CodeGeneration
  import O = ObjectCode
  import K = Linking
  import Placement
  import R = Relocations
  import I = InstructionSet
  import N = Instructions
  import G = PcRelative

  /** A run of the assembler that succeeded, with its file. */
  ghost predicate Assembled(program: L.Program, rank: map<string, nat>, given: map<string, nat>, lines: seq<Line>)
  {
    && WellFormed(program, rank) && Fitting(program, rank, given) && Succeeds(program, rank, given)
    && Exact(lines, ProgramImage(program, rank, given))
  }

  /** What `Assembled` says, for proofs that hide it. */
  lemma AssembledParts(program: L.Program, rank: map<string, nat>, given: map<string, nat>, lines: seq<Line>)
    requires Assembled(program, rank, given, lines)
    ensures WellFormed(program, rank) && Fitting(program, rank, given) && Succeeds(program, rank, given)
    ensures !Parsed(program, rank).error
  {
  }

  /** The symbols when pass one ends. */
  ghost function Symbols(program: L.Program, rank: map<string, nat>): (env: Env)
    requires WellFormed(program, rank)
    ensures env.Acyclic()
  {
    L.SpaceEnv(Parsed(program, rank), rank);
    Env(Parsed(program, rank).defs, rank)
  }

  ghost function SectionBases(program: L.Program, rank: map<string, nat>, given: map<string, nat>): seq<nat>
    requires WellFormed(program, rank)
  {
    Addresses(Parsed(program, rank), Symbols(program, rank), given)
  }

  /** The room of a statement. */
  ghost function Room(program: L.Program, rank: map<string, nat>, j: nat): L.Placed
    requires WellFormed(program, rank) && j < |program|
  {
    Parsed(program, rank).placed[j]
  }

  /** The section of a statement is loaded. */
  ghost predicate IsLoaded(program: L.Program, rank: map<string, nat>, j: nat)
    requires WellFormed(program, rank) && j < |program|
  {
    var s, records := Room(program, rank, j).section, Parsed(program, rank).table.records;
    s < |records| && KindOf(records[s].name) == Loadable
  }

  /** The address of the section a statement is in. */
  ghost function BaseOf(program: L.Program, rank: map<string, nat>, given: map<string, nat>, j: nat): nat
    requires WellFormed(program, rank) && j < |program|
  {
    var s, bases := Room(program, rank, j).section, SectionBases(program, rank, given);
    if s < |bases| then bases[s] else 0
  }

  /** The address of a statement's first byte. */
  ghost function AddressOf(program: L.Program, rank: map<string, nat>, given: map<string, nat>, j: nat): nat
    requires WellFormed(program, rank) && j < |program|
  {
    BaseOf(program, rank, given, j) + Room(program, rank, j).offset
  }

  ghost function BaseLayout(program: L.Program, rank: map<string, nat>, given: map<string, nat>): Relocatable.Layout
    requires WellFormed(program, rank)
  {
    O.LayoutOf(SectionBases(program, rank, given))
  }

  /** Everything that pass one settled is still so at the end. */
  lemma StatementSettled(program: L.Program, rank: map<string, nat>, j: nat)
    requires WellFormed(program, rank) && !Parsed(program, rank).error && j < |program|
    ensures T.Settled(Symbols(program, rank), program[j], Room(program, rank, j))
    ensures IntEnv(Symbols(program, rank))
  {
    hide L.PassOne, T.Settled, T.Grows, IntEnv, L.Ranked, T.IntProgram, T.Numbered;
    L.StartLaid(rank);
    assert IntEnv(Env(L.Start().defs, rank)) && T.FreshDots(L.Start(), program) by { NothingDefined(program, rank); }
    T.PassOneSettles(L.Start(), program, rank);
    assert L.Start().placed == [];
  }

  lemma NothingDefined(program: L.Program, rank: map<string, nat>)
    ensures IntEnv(Env(L.Start().defs, rank)) && T.FreshDots(L.Start(), program)
  {
  }

  /** A label's value after placement is the address of its statement. */
  lemma LabelIsAddress(program: L.Program, rank: map<string, nat>, given: map<string, nat>, j: nat, unset: int)
    requires WellFormed(program, rank) && !Parsed(program, rank).error && j < |program|
    requires program[j].labelName.Some?
    ensures TrueValue(Symbols(program, rank), BaseLayout(program, rank, given),
                      Identifier(program[j].labelName.value, unset))
            == U16(AddressOf(program, rank, given, j))
  {
    hide Parsed, WellFormed, T.RightSize, TrueValue, Symbols, BaseLayout, BaseOf, U16;
    var env, base, p := Symbols(program, rank), BaseLayout(program, rank, given), Room(program, rank, j);
    StatementSettled(program, rank, j);
    LabelValue(env, base, program[j].labelName.value, p.section, p.offset, unset);
    assert base(p.section) == BaseOf(program, rank, given, j) by { BaseIsLayout(program, rank, given, j); }
  }

  lemma LabelValue(env: Env, base: Relocatable.Layout, name: string, section: nat, offset: nat, unset: int)
    requires env.Acyclic() && name in env.defs && env.defs[name] == LabelAt(section, offset)
    ensures TrueValue(env, base, Identifier(name, unset)) == U16(base(section) + offset)
  {
  }

  lemma BaseIsLayout(program: L.Program, rank: map<string, nat>, given: map<string, nat>, j: nat)
    requires WellFormed(program, rank) && j < |program|
    ensures BaseLayout(program, rank, given)(Room(program, rank, j).section) == BaseOf(program, rank, given, j)
  {
    hide WellFormed, Parsed, SectionBases;
  }

  /** The sections as the linker gets them. */
  ghost function Unlinked(program: L.Program, rank: map<string, nat>): seq<Bytes>
    requires WellFormed(program, rank)
  {
    Stripped(Code(Parsed(program, rank), Symbols(program, rank)))
  }

  /** A successful program is linked as `ObjectCode` describes, and a loaded byte is in the file. */
  lemma ProgramLinked(program: L.Program, rank: map<string, nat>, given: map<string, nat>, lines: seq<Line>)
    requires Assembled(program, rank, given, lines)
    ensures var env, bases, placed, contents := Symbols(program, rank), SectionBases(program, rank, given),
                                                Parsed(program, rank).placed, Unlinked(program, rank);
            && !Parsed(program, rank).error && O.Linkage(env, bases, placed, contents)
            && forall k, o | 0 <= k < |contents| && KindOf(Parsed(program, rank).table.records[k].name) == Loadable
                             && 0 <= o < |O.Final(env, bases, placed, contents)[k]| ::
                 LoadedByte(bases[k] + o, O.Final(env, bases, placed, contents)[k][o]) in Decode(lines)
  {
    hide L.PassOne, WellFormed, Parsed, Prepared, Accepted, Roomy, C.Images, L.Gather, Addresses, O.Linkage, O.Final;
    hide FinalImage;
    hide Decode, NoRepeats;
    var a, env := Parsed(program, rank), Symbols(program, rank);
    ParsedPrepared(program, rank);
    ProgramLinkage(a, env, given);
    var image, bases, contents := FinalImage(a, env, given), SectionBases(program, rank, given),
        Unlinked(program, rank);
    var final := O.Final(env, bases, a.placed, contents);
    forall k, o | 0 <= k < |contents| && KindOf(a.table.records[k].name) == Loadable && 0 <= o < |final[k]|
      ensures LoadedByte(bases[k] + o, final[k][o]) in Decode(lines)
    {
      HeldAt(image, k, o);
    }
  }

  lemma HeldAt(image: Image, k: nat, o: nat)
    requires k < |image| && image[k].kind == Loadable && o < |image[k].contents|
    ensures Held(image, LoadedByte(image[k].base + o, image[k].contents[o]))
  {
    assert image[k].Covers(image[k].base + o);
  }

  /** A `.byte` or `.word` item that can be evaluated safely under the layout the program got. */
  ghost predicate SafeItem(program: L.Program, rank: map<string, nat>, given: map<string, nat>, j: nat, i: nat)
    requires WellFormed(program, rank) && j < |program|
  {
    var env, base := Symbols(program, rank), BaseLayout(program, rank, given);
    && program[j].body.Values? && i < |program[j].body.values| && Eval(env, program[j].body.values[i]).ok
    && SafeEnv(env, base) && Safe(env, base, program[j].body.values[i])
  }

  /** Where an item is in memory. */
  ghost function ItemAddress(program: L.Program, rank: map<string, nat>, given: map<string, nat>, j: nat, i: nat): nat
    requires WellFormed(program, rank) && j < |program| && program[j].body.Values?
  {
    BaseOf(program, rank, given, j) + O.ItemAt(Room(program, rank, j).(body := program[j].body), i)
  }

  /** The value the programmer means by an item. */
  ghost function ItemMeaning(program: L.Program, rank: map<string, nat>, given: map<string, nat>, j: nat, i: nat): Bytes
    requires WellFormed(program, rank) && j < |program| && program[j].body.Values? && i < |program[j].body.values|
  {
    C.ItemBytes(program[j].body.grain,
                TrueValue(Symbols(program, rank), BaseLayout(program, rank, given), program[j].body.values[i]))
  }

  /** The bytes of an item's value plus its section's base, or of zero. */
  ghost function ItemStored(program: L.Program, rank: map<string, nat>, given: map<string, nat>, j: nat, i: nat): Bytes
    requires WellFormed(program, rank) && j < |program| && program[j].body.Values? && i < |program[j].body.values|
  {
    C.ItemBytes(program[j].body.grain,
                O.LinkedValue(Symbols(program, rank), BaseLayout(program, rank, given), program[j].body.values[i]))
  }

  /** A byte of an item in the linked section. */
  lemma ItemInRoom(program: L.Program, rank: map<string, nat>, given: map<string, nat>, lines: seq<Line>, j: nat,
                   i: nat, u: nat)
    requires Assembled(program, rank, given, lines) && j < |program|
    requires program[j].body.Values? && i < |program[j].body.values| && u < program[j].body.grain
    ensures var env, bases, placed, contents := Symbols(program, rank), SectionBases(program, rank, given),
                                                Parsed(program, rank).placed, Unlinked(program, rank);
            var p := placed[j];
            && O.Linkage(env, bases, placed, contents) && p.section < |contents| && p.body == program[j].body
            && var c := O.Final(env, bases, placed, contents)[p.section];
               O.ItemAt(p, i) + u < |c| && c[O.ItemAt(p, i) + u] == ItemStored(program, rank, given, j, i)[u]
  {
    hide WellFormed, Parsed, Decode, O.Linkage, O.Final, SafeEnv, Safe, TrueValue, Relocated, O.LayoutOf, T.RightSize;
    hide Eval, Addresses, Code, C.ItemBytes, Exact, Fitting, Succeeds, C.LinksOf, R.InTable, R.Refused;
    var env, bases, placed, contents := Symbols(program, rank), SectionBases(program, rank, given),
                                        Parsed(program, rank).placed, Unlinked(program, rank);
    ProgramLinked(program, rank, given, lines);
    StatementSettled(program, rank, j);
    StatementAccepted(program, rank, given, j);
    O.ItemHoldsValue(env, bases, placed, contents, j, i);
    var p := placed[j];
    var c := O.Final(env, bases, placed, contents)[p.section];
    assert c[O.ItemAt(p, i) + u] == c[O.ItemAt(p, i)..O.ItemAt(p, i) + p.body.grain][u];
  }

  /** The file has, at the address of every item of a loaded section, its relocated value; zero for an item that could
      not be evaluated. */
  lemma ItemStoredInFile(program: L.Program, rank: map<string, nat>, given: map<string, nat>, lines: seq<Line>, j: nat,
                         i: nat, u: nat)
    requires Assembled(program, rank, given, lines) && j < |program| && IsLoaded(program, rank, j)
    requires program[j].body.Values? && i < |program[j].body.values| && u < program[j].body.grain
    ensures LoadedByte(ItemAddress(program, rank, given, j, i) + u, ItemStored(program, rank, given, j, i)[u])
            in Decode(lines)
  {
    hide WellFormed, Parsed, Decode, O.Linkage, O.Final, Relocated, Eval, Addresses, Code, C.ItemBytes, Exact;
    hide Fitting, Succeeds, ItemStored;
    ProgramLinked(program, rank, given, lines);
    ItemInRoom(program, rank, given, lines, j, i, u);
    var p, bases := Room(program, rank, j), SectionBases(program, rank, given);
    var o := O.ItemAt(p, i) + u;
    var c := O.Final(Symbols(program, rank), bases, Parsed(program, rank).placed, Unlinked(program, rank))[p.section];
    assert LoadedByte(bases[p.section] + o, c[o]) in Decode(lines);
  }

  /** The file has, at the address of every safe item in a loaded section, the bytes of the value its expression
      has once all sections are placed. */
  lemma ItemInFile(program: L.Program, rank: map<string, nat>, given: map<string, nat>, lines: seq<Line>, j: nat,
                   i: nat, u: nat)
    requires Assembled(program, rank, given, lines) && j < |program| && IsLoaded(program, rank, j)
    requires SafeItem(program, rank, given, j, i) && u < program[j].body.grain
    ensures LoadedByte(ItemAddress(program, rank, given, j, i) + u, ItemMeaning(program, rank, given, j, i)[u])
            in Decode(lines)
  {
    hide WellFormed, Parsed, Decode, SafeEnv, Safe, TrueValue, Relocated, Eval, Exact, Fitting, Succeeds, ItemAddress;
    ItemStoredInFile(program, rank, given, lines, j, i, u);
    OperandMeaning(Symbols(program, rank), BaseLayout(program, rank, given), program[j].body.values[i]);
  }

  /** A statement that fills its room with text or with one byte: the byte, if an expression, can be evaluated. */
  ghost predicate Fills(program: L.Program, rank: map<string, nat>, j: nat)
    requires WellFormed(program, rank) && j < |program|
  {
    match program[j].body
    case Text(_, _) => true
    case Space(_, initial) => Eval(Symbols(program, rank), initial).ok
    case Aligned(power) => Eval(Symbols(program, rank), power).ok
    case _ => false
  }

  /** The strings of `.ascii`, as many initial bytes as `.space` asks for, the zeros of `.align`. */
  ghost function FillOf(program: L.Program, rank: map<string, nat>, j: nat): Bytes
    requires WellFormed(program, rank) && j < |program|
  {
    var env := Symbols(program, rank);
    match program[j].body
    case Text(zero, strings) => L.TextBytes(zero, strings, |strings|)
    case Space(size, initial) => Repeat(U8(Eval(env, initial).Operand()), Eval(env, size).Operand())
    case Aligned(power) => Repeat(0, L.AlignSize(Room(program, rank, j).offset, power))
    case _ => []
  }

  lemma ImageFills(env: Env, kind: Kind, p: L.Placed)
    requires env.Acyclic() && IntEnv(env) && T.IntBody(p.body) && T.RightSize(env, p) && !C.Wrong(env, kind, p)
    requires p.body.Space? ==> Eval(env, p.body.initial).ok
    requires p.body.Aligned? ==> Eval(env, p.body.power).ok
    ensures p.body.Text? ==> C.Image(env, p) == L.TextBytes(p.body.zero, p.body.strings, |p.body.strings|)
    ensures p.body.Space? ==> (C.Image(env, p) == Repeat(U8(Eval(env, p.body.initial).Operand()),
                                                        Eval(env, p.body.size).Operand()))
    ensures p.body.Aligned? ==> C.Image(env, p) == Repeat(0, L.AlignSize(p.offset, p.body.power))
    ensures p.body.Text? || p.body.Space? || p.body.Aligned? ==> C.LinksOf(env, p) == []
  {
    hide Eval, BaseSymbol, L.TextBytes, L.AlignSize, IntEnv, IntLiterals;
    match p.body {
      case Space(size, initial) =>
        assert size in L.OperandsOf(p.body) && initial in L.OperandsOf(p.body);
        EvalSane(env, size);
        EvalSane(env, initial);
      case Aligned(power) =>
        assert power in L.OperandsOf(p.body);
        EvalSane(env, power);
      case _ =>
    }
  }

  /** A byte of such a statement in the linked section. */
  lemma FillInRoom(program: L.Program, rank: map<string, nat>, given: map<string, nat>, lines: seq<Line>, j: nat,
                   u: nat)
    requires Assembled(program, rank, given, lines) && j < |program|
    requires Fills(program, rank, j) && u < |FillOf(program, rank, j)|
    ensures var env, bases, placed, contents := Symbols(program, rank), SectionBases(program, rank, given),
                                                Parsed(program, rank).placed, Unlinked(program, rank);
            var p := placed[j];
            && O.Linkage(env, bases, placed, contents) && p.section < |contents|
            && var c := O.Final(env, bases, placed, contents)[p.section];
               p.offset + u < |c| && c[p.offset + u] == FillOf(program, rank, j)[u]
  {
    hide WellFormed, Parsed, Decode, O.Linkage, O.Final, T.RightSize, Eval, L.TextBytes, L.AlignSize, C.Image, C.Wrong;
    hide Addresses, Code, Exact, Fitting, Succeeds, C.LinksOf, R.InTable, R.Refused, T.IntBody, IntEnv, K.KnownSections;
    hide C.Assembled, K.Generated, L.Sized, L.Fitted;
    var env, bases, placed, contents := Symbols(program, rank), SectionBases(program, rank, given),
                                        Parsed(program, rank).placed, Unlinked(program, rank);
    ProgramLinked(program, rank, given, lines);
    StatementSettled(program, rank, j);
    StatementAccepted(program, rank, given, j);
    O.LinkageParts(env, bases, placed, contents);
    assert placed[j] in placed;
    ImageFills(env, KindOf(Parsed(program, rank).table.records[placed[j].section].name), placed[j]);
    O.ImageRoom(env, bases, placed, contents, j);
    O.PlainByte(env, bases, placed, contents, j, u);
  }

  /** The file has, at the address of every `.ascii`, `.asciz`, `.space` or `.align` in a loaded section, its bytes. */
  lemma FillInFile(program: L.Program, rank: map<string, nat>, given: map<string, nat>, lines: seq<Line>, j: nat,
                   u: nat)
    requires Assembled(program, rank, given, lines) && j < |program| && IsLoaded(program, rank, j)
    requires Fills(program, rank, j) && u < |FillOf(program, rank, j)|
    ensures LoadedByte(AddressOf(program, rank, given, j) + u, FillOf(program, rank, j)[u]) in Decode(lines)
  {
    hide WellFormed, Parsed, Decode, O.Linkage, O.Final, Fills, FillOf, Addresses, Code, Exact, Fitting, Succeeds;
    ProgramLinked(program, rank, given, lines);
    FillInRoom(program, rank, given, lines, j, u);
    var p, bases := Room(program, rank, j), SectionBases(program, rank, given);
    var o := p.offset + u;
    var c := O.Final(Symbols(program, rank), bases, Parsed(program, rank).placed, Unlinked(program, rank))[p.section];
    assert LoadedByte(bases[p.section] + o, c[o]) in Decode(lines);
  }

  /** No phase refused a statement: it is not wrong, and its relocations are accepted. */
  lemma StatementAccepted(program: L.Program, rank: map<string, nat>, given: map<string, nat>, j: nat)
    requires WellFormed(program, rank) && Succeeds(program, rank, given) && j < |program|
    ensures var env, bases, p := Symbols(program, rank), SectionBases(program, rank, given), Room(program, rank, j);
            && p.section < |bases| && !C.Wrong(env, KindOf(Parsed(program, rank).table.records[p.section].name), p)
            && forall r | r in C.LinksOf(env, p) :: R.InTable(env, |bases|, r) && !R.Refused(env, bases, r)
  {
    hide WellFormed, Parsed, Prepared, C.LinksOf, C.AllLinks, R.InTable, R.Refused, Addresses, C.Wrong, Code;
    var a, env := Parsed(program, rank), Symbols(program, rank);
    ParsedPrepared(program, rank);
    PreparedParts(a, env);
    LinksInTable(a, env);
    forall r | r in C.LinksOf(env, a.placed[j]) ensures r in Links(a, env) {
      O.OwnLink(env, a.placed, |a.placed|, j, r);
    }
  }

  /** A statement of a loaded section is within the first 64 KiB. */
  lemma StatementFits(program: L.Program, rank: map<string, nat>, given: map<string, nat>, j: nat)
    requires WellFormed(program, rank) && Succeeds(program, rank, given) && Fitting(program, rank, given)
        && j < |program|
    ensures Room(program, rank, j).offset <= 0x1_0000
  {
    hide WellFormed, Parsed, Prepared, C.Images, Addresses, L.Gather, L.SizeBefore, L.Fitted, L.Sized, C.Assembled;
    var a, env := Parsed(program, rank), Symbols(program, rank);
    ParsedPrepared(program, rank);
    PreparedParts(a, env);
    CodeGenerated(a, env);
    C.SlotHolds(Stripped(Code(a, env)), a.placed, C.Images(env, a.placed), j);
    var span := Placement.Spans(Code(a, env), Addresses(a, env, given))[a.placed[j].section];
    assert span.End() <= 0x1_0000;
  }

  /** An instruction whose word is written: every one but a shift whose count cannot be evaluated. */
  ghost predicate IsWritten(program: L.Program, rank: map<string, nat>, j: nat)
    requires WellFormed(program, rank) && j < |program|
  {
    program[j].body.Instr? && N.Writes(Symbols(program, rank), program[j].body.instruction)
  }

  /** What an instruction means once its label operand is known. */
  ghost predicate MeansAfterLinking(program: L.Program, rank: map<string, nat>, given: map<string, nat>, j: nat,
                                    c: I.Code)
    requires WellFormed(program, rank) && j < |program| && program[j].body.Instr?
  {
    var env, i, p := Symbols(program, rank), program[j].body.instruction, Room(program, rank, j);
    var site := N.Site(p.section, p.offset);
    && !N.Faulty(env, i, site)
    && (i.LoadLabel? && N.IsLabel(env, i.target) ==> 0 <= Eval(env, i.target).Operand() - p.offset - 2 < 128)
    && c == O.Resolve(env, BaseLayout(program, rank, given), i, site)
  }

  lemma TwoBytes(env: Env, p: L.Placed)
    requires env.Acyclic() && T.RightSize(env, p) && p.body.Instr?
    ensures p.size == 2
  {
    hide Eval;
  }

  lemma WordInBytes(c: Bytes, o: nat)
    requires o + 2 <= |c|
    ensures WordBytes(WordAt(c, o)) == [c[o], c[o + 1]]
  {
  }

  /** The word of an instruction in the linked section. */
  lemma InstructionWord(program: L.Program, rank: map<string, nat>, given: map<string, nat>, lines: seq<Line>, j: nat)
    returns (c: I.Code)
    requires Assembled(program, rank, given, lines) && j < |program| && IsWritten(program, rank, j)
    ensures var env, bases, contents := Symbols(program, rank), SectionBases(program, rank, given),
        Unlinked(program, rank);
            var p := Room(program, rank, j);
            && O.Linkage(env, bases, Parsed(program, rank).placed, contents) && p.section < |contents|
            && MeansAfterLinking(program, rank, given, j, c)
            && var final := O.Final(env, bases, Parsed(program, rank).placed, contents)[p.section];
               p.offset + 2 <= |final| && I.Decode(WordAt(final, p.offset)) == I.Some(c)
  {
    hide WellFormed, Parsed, Decode, O.Linkage, O.Final, O.LayoutOf, T.RightSize, Eval, N.Writes, N.Faulty, O.Resolve;
    hide WordAt;
    hide Addresses, Code, Exact, Fitting, Succeeds, C.LinksOf, R.InTable, R.Refused, I.Decode;
    var env, bases, placed, contents := Symbols(program, rank), SectionBases(program, rank, given),
                                        Parsed(program, rank).placed, Unlinked(program, rank);
    ProgramLinked(program, rank, given, lines);
    StatementSettled(program, rank, j);
    StatementAccepted(program, rank, given, j);
    StatementFits(program, rank, given, j);
    TwoBytes(env, placed[j]);
    O.InstructionDecodes(env, bases, placed, contents, j);
    O.FinalRoom(env, bases, placed, contents, j);
    c := O.Resolve(env, O.LayoutOf(bases), program[j].body.instruction, N.Site(placed[j].section, placed[j].offset));
  }

  /** The word of an instruction once its label operand is known, as numbers. */
  ghost predicate SpelledAfterLinking(program: L.Program, rank: map<string, nat>, given: map<string, nat>, j: nat,
                                      word: Word)
    requires WellFormed(program, rank) && j < |program| && program[j].body.Instr?
  {
    var env, i, offset := Symbols(program, rank), program[j].body.instruction, Room(program, rank, j).offset;
    && O.LoadField(env, i, offset) >= 0
    && N.Spelled(env, i, offset, O.LoadField(env, i, offset), O.MoveValue(env, BaseLayout(program, rank, given), i),
                 word)
  }

  lemma WordSpelled(program: L.Program, rank: map<string, nat>, given: map<string, nat>, j: nat, word: Word, c: I.Code)
    requires WellFormed(program, rank) && j < |program| && program[j].body.Instr?
    requires MeansAfterLinking(program, rank, given, j, c) && I.Decode(word) == I.Some(c)
    ensures SpelledAfterLinking(program, rank, given, j, word)
  {
    hide WellFormed, Parsed, Eval, BaseSymbol, N.Spelled, O.Resolve, N.Faulty, I.Decode, I.Encode, O.LoadField;
    hide O.MoveValue, O.LayoutOf, SectionBases;
    var p := Room(program, rank, j);
    O.ResolveSpelled(Symbols(program, rank), BaseLayout(program, rank, given), program[j].body.instruction,
                     N.Site(p.section, p.offset));
    I.EncodeDecode(word);
  }

  /** The file has, at the address of every instruction in a loaded section, a word that decodes to the
      instruction with its label operand resolved, and is the number that the instruction set gives it. */
  lemma InstructionInFile(program: L.Program, rank: map<string, nat>, given: map<string, nat>, lines: seq<Line>, j: nat)
    returns (word: Word, c: I.Code)
    requires Assembled(program, rank, given, lines) && j < |program| && IsLoaded(program, rank, j)
    requires IsWritten(program, rank, j)
    ensures I.Decode(word) == I.Some(c) && MeansAfterLinking(program, rank, given, j, c)
    ensures SpelledAfterLinking(program, rank, given, j, word)
    ensures forall u | 0 <= u < 2 ::
              LoadedByte(AddressOf(program, rank, given, j) + u, WordBytes(word)[u]) in Decode(lines)
  {
    hide WellFormed, Parsed, Decode, O.Linkage, O.Final, MeansAfterLinking, WordAt, WordBytes, Addresses, Code, Exact;
    hide Fitting, Succeeds, I.Decode, SpelledAfterLinking, N.Writes, Eval;
    c := InstructionWord(program, rank, given, lines, j);
    ProgramLinked(program, rank, given, lines);
    var p, bases := Room(program, rank, j), SectionBases(program, rank, given);
    var final := O.Final(Symbols(program, rank), bases, Parsed(program, rank).placed,
                         Unlinked(program, rank))[p.section];
    word := WordAt(final, p.offset);
    WordSpelled(program, rank, given, j, word, c);
    WordInBytes(final, p.offset);
    var o := p.offset + 1;
    assert LoadedByte(bases[p.section] + p.offset, final[p.offset]) in Decode(lines);
    assert LoadedByte(bases[p.section] + o, final[o]) in Decode(lines);
  }

  /** A name for the place of statement `k`: its label, or `.` in its operands. */
  predicate Marks(program: L.Program, k: nat, name: string)
    requires k < |program|
  {
    || program[k].labelName == I.Some(name)
    || (name in program[k].dots && !program[k].body.InSection?)
  }

  /** The instruction refers to the place of statement `k`, at an even distance. */
  ghost predicate Names(program: L.Program, rank: map<string, nat>, j: nat, k: nat, name: string, unset: int)
    requires WellFormed(program, rank) && j < |program| && k < |program|
  {
    && Marks(program, k, name) && IsWritten(program, rank, j)
    && (var i := program[j].body.instruction;
        (i.BranchTo? || i.LoadLabel?) && i.target == Identifier(name, unset))
    && Room(program, rank, k).offset < 0x1_0000
    && (Room(program, rank, k).offset - Room(program, rank, j).offset) % 2 == 0
  }

  lemma MarkedPlace(program: L.Program, rank: map<string, nat>, k: nat, name: string)
    requires WellFormed(program, rank) && !Parsed(program, rank).error && k < |program| && Marks(program, k, name)
    ensures var env, q := Symbols(program, rank), Room(program, rank, k);
            name in env.defs && env.defs[name] == LabelAt(q.section, q.offset)
  {
    hide WellFormed, Parsed, T.RightSize;
    StatementSettled(program, rank, k);
  }

  lemma LabelOperand(env: Env, name: string, section: nat, offset: nat, unset: int)
    requires env.Acyclic() && name in env.defs && env.defs[name] == LabelAt(section, offset) && offset < 0x1_0000
    ensures var x := Identifier(name, unset);
            N.IsLabel(env, x) && Eval(env, x).Operand() == offset && env.SectionOf(BaseSymbol(env, x)) == section
  {
  }

  lemma SameSectionTarget(env: Env, i: N.Instruction, site: N.Site)
    requires env.Acyclic() && (i.BranchTo? || i.LoadLabel?) && N.IsLabel(env, i.target) && !N.Faulty(env, i, site)
    ensures env.SectionOf(BaseSymbol(env, i.target)) == site.section
  {
    hide Eval, BaseSymbol;
  }

  /** An instruction that names a label reaches its section's base plus its offset. */
  lemma ReachesOffset(env: Env, layout: Relocatable.Layout, i: N.Instruction, site: N.Site, base: nat,
                      name: string, section: nat, offset: nat, unset: int)
    requires env.Acyclic() && name in env.defs && env.defs[name] == LabelAt(section, offset) && offset < 0x1_0000
    requires (i.BranchTo? || i.LoadLabel?) && i.target == Identifier(name, unset) && !N.Faulty(env, i, site)
    requires i.LoadLabel? ==> 0 <= Eval(env, i.target).Operand() - site.offset - 2 < 128
    requires site.offset < 0x7FFF_0000 && (offset - site.offset) % 2 == 0
    ensures section == site.section
    ensures var c := O.Resolve(env, layout, i, site);
            (c.Branch? || c.LoadRelative?) && G.TargetOf(c, base + site.offset) == base + offset
  {
    hide Eval, BaseSymbol, N.IsLabel, N.Faulty, N.Meaning, G.TargetOf, O.Resolve;
    LabelOperand(env, name, section, offset, unset);
    SameSectionTarget(env, i, site);
    TargetReached(env, layout, i, site, base);
  }

  lemma SameBase(program: L.Program, rank: map<string, nat>, given: map<string, nat>, j: nat, k: nat)
    requires WellFormed(program, rank) && j < |program| && k < |program|
    ensures Room(program, rank, j).section == Room(program, rank, k).section
            ==> BaseOf(program, rank, given, j) == BaseOf(program, rank, given, k)
  {
    hide WellFormed, Parsed, SectionBases;
  }

  /** From statement to statement: the word that stands for a branch or `ldr rd, label` in the file jumps to, or
      loads from, the address the labelled statement has in the file; `b .` is a loop. */
  lemma ReachesStatement(program: L.Program, rank: map<string, nat>, given: map<string, nat>, lines: seq<Line>,
                         j: nat, k: nat, name: string, unset: int, c: I.Code)
    requires Assembled(program, rank, given, lines) && j < |program| && k < |program|
    requires Names(program, rank, j, k, name, unset) && MeansAfterLinking(program, rank, given, j, c)
    ensures c.Branch? || c.LoadRelative?
    ensures G.TargetOf(c, AddressOf(program, rank, given, j)) == AddressOf(program, rank, given, k)
  {
    hide WellFormed, Parsed, Decode, Eval, BaseSymbol, N.IsLabel, N.Faulty, N.Writes, G.TargetOf, T.RightSize;
    hide O.Resolve, O.LayoutOf, SectionBases, Exact, Fitting, Succeeds, Assembled, BaseOf, BaseLayout;
    AssembledParts(program, rank, given, lines);
    var env, i, p, q := Symbols(program, rank), program[j].body.instruction, Room(program, rank, j),
                        Room(program, rank, k);
    MarkedPlace(program, rank, k, name);
    StatementFits(program, rank, given, j);
    assert BaseOf(program, rank, given, j) == BaseOf(program, rank, given, k) || p.section != q.section by {
      SameBase(program, rank, given, j, k);
    }
    assert i.LoadLabel? ==> N.IsLabel(env, i.target) by { LabelOperand(env, name, q.section, q.offset, unset); }
    ReachesOffset(env, BaseLayout(program, rank, given), i, N.Site(p.section, p.offset),
                  BaseOf(program, rank, given, j), name, q.section, q.offset, unset);
  }
  /** The operand of an instruction can be evaluated safely under the layout the program got. */
  ghost predicate SafeOperand(program: L.Program, rank: map<string, nat>, given: map<string, nat>, x: Expr)
    requires WellFormed(program, rank)
  {
    var env, base := Symbols(program, rank), BaseLayout(program, rank, given);
    SafeEnv(env, base) && Safe(env, base, x) && Eval(env, x).ok
  }

  /** A safe operand, relocated, is the value the programmer means. */
  lemma OperandMeaning(env: Env, base: Relocatable.Layout, x: Expr)
    requires env.Acyclic() && SafeEnv(env, base) && Safe(env, base, x) && Eval(env, x).ok
    ensures Relocated(env, base, x) == TrueValue(env, base, x)
    ensures N.IsLabel(env, x)
            ==> TrueValue(env, base, x) == U16(SymbolBase(env, base, BaseSymbol(env, x)) + Eval(env, x).Operand())
  {
    hide Eval, BaseSymbol, SafeEnv, Safe, SymbolBase;
    Soundness(env, base, x);
    OperandStands(env, base, Eval(env, x), BaseSymbol(env, x), TrueValue(env, base, x));
  }

  /** `mov rd, operand` and `movt rd, operand` carry the low byte of the value their operand has once all sections
      are placed. */
  lemma MoveMeansValue(program: L.Program, rank: map<string, nat>, given: map<string, nat>, j: nat, c: I.Code)
    requires WellFormed(program, rank) && j < |program| && program[j].body.Instr?
    requires MeansAfterLinking(program, rank, given, j, c) && program[j].body.instruction.MoveImmediate?
    requires SafeOperand(program, rank, given, program[j].body.instruction.constant)
    ensures var i := program[j].body.instruction;
            c == I.MoveConstant(i.high, i.rd,
                                TrueValue(Symbols(program, rank), BaseLayout(program, rank, given), i.constant) % 256)
  {
    hide WellFormed, Parsed, Eval, BaseSymbol, SafeEnv, Safe, TrueValue, Relocated, O.LayoutOf, N.Faulty, SectionBases;
    OperandMeaning(Symbols(program, rank), BaseLayout(program, rank, given), program[j].body.instruction.constant);
  }

  /** A branch or `ldr rd, target` whose target is a label, or a label and a constant, at an even distance. */
  ghost predicate Targets(program: L.Program, rank: map<string, nat>, j: nat, x: Expr)
    requires WellFormed(program, rank) && j < |program|
  {
    && IsWritten(program, rank, j) && N.IsLabel(Symbols(program, rank), x)
    && (var i := program[j].body.instruction; (i.BranchTo? || i.LoadLabel?) && i.target == x)
    && (Eval(Symbols(program, rank), x).Operand() - Room(program, rank, j).offset) % 2 == 0
  }

  lemma TargetReached(env: Env, layout: Relocatable.Layout, i: N.Instruction, site: N.Site, base: nat)
    requires env.Acyclic() && (i.BranchTo? || i.LoadLabel?) && N.IsLabel(env, i.target) && !N.Faulty(env, i, site)
    requires i.LoadLabel? ==> 0 <= Eval(env, i.target).Operand() - site.offset - 2 < 128
    requires site.offset < 0x7FFF_0000 && (Eval(env, i.target).Operand() - site.offset) % 2 == 0
    ensures var c := O.Resolve(env, layout, i, site);
            && (c.Branch? || c.LoadRelative?)
            && G.TargetOf(c, base + site.offset) == base + Eval(env, i.target).Operand()
  {
    hide Eval, BaseSymbol, N.IsLabel, N.Faulty, N.Meaning, G.TargetOf;
    if i.BranchTo? { O.BranchTarget(env, i, site, base); } else { O.LoadTarget(env, layout, i, site, base); }
  }

  /** Any safe target: the word in the file jumps to, or loads from, the address that the target expression has once
      all sections are placed. */
  lemma ReachesTarget(program: L.Program, rank: map<string, nat>, given: map<string, nat>, lines: seq<Line>,
                      j: nat, x: Expr, c: I.Code)
    requires Assembled(program, rank, given, lines) && j < |program| && Targets(program, rank, j, x)
    requires MeansAfterLinking(program, rank, given, j, c) && SafeOperand(program, rank, given, x)
    ensures c.Branch? || c.LoadRelative?
    ensures var env, base := Symbols(program, rank), BaseLayout(program, rank, given);
            var target := G.TargetOf(c, AddressOf(program, rank, given, j));
            && target == BaseOf(program, rank, given, j) + Eval(env, x).Operand()
            && U16(target) == TrueValue(env, base, x)
  {
    hide WellFormed, Parsed, Decode, Eval, BaseSymbol, N.IsLabel, N.Faulty, N.Writes, G.TargetOf, SafeEnv, Safe;
    hide O.Resolve, O.LayoutOf, SectionBases, Exact, Fitting, Succeeds, Assembled, BaseOf, BaseLayout, TrueValue;
    AssembledParts(program, rank, given, lines);
    var env, i, p := Symbols(program, rank), program[j].body.instruction, Room(program, rank, j);
    var site := N.Site(p.section, p.offset);
    StatementFits(program, rank, given, j);
    SameSectionTarget(env, i, site);
    TargetReached(env, BaseLayout(program, rank, given), i, site, BaseOf(program, rank, given, j));
    OperandMeaning(env, BaseLayout(program, rank, given), x);
    BaseIsLayout(program, rank, given, j);
    assert BaseSymbol(env, x) in env.defs by { TargetDefined(env, BaseLayout(program, rank, given), x); }
  }

  lemma TargetDefined(env: Env, base: Relocatable.Layout, x: Expr)
    requires env.Acyclic() && SafeEnv(env, base) && Safe(env, base, x) && N.IsLabel(env, x)
    ensures BaseSymbol(env, x) in env.defs
  {
    hide Eval, BaseSymbol, SafeEnv, Safe;
    Soundness(env, base, x);
  }
}
