/** Pass one: every statement takes its place in a section, and symbols get their definitions. */
module Layout {
  import opened Bits
  import opened Machine
  import opened Expressions
  import opened Sections
  import opened InstructionSet
  import opened Instructions
  import P = Placement

  /** `.byte` and `.word`. */
  type Grain = g: nat | g == 1 || g == 2 witness 1

  datatype Body =
    | Nothing
    | Instr(instruction: Instruction)
    | InSection(name: string)
    | Values(grain: Grain, values: seq<Expr>)
    | Text(zero: bool, strings: seq<Bytes>)
    | Space(size: Expr, initial: Expr)
    | Equal(name: string, expr: Expr)
    | Aligned(power: Expr)

  /** The expressions in a statement. */
  function OperandsOf(body: Body): seq<Expr>
  {
    match body
    case Instr(i) => OperandsIn(i)
    case Values(_, values) => values
    case Space(size, initial) => [size, initial]
    case Equal(_, x) => [x]
    case Aligned(x) => [x]
    case _ => []
  }

  /** `dots` names the `.` symbols in the statement's operands. */
  datatype Statement = Statement(labelName: Option<string>, body: Body, dots: seq<string>)

  type Program = seq<Statement>

  /** A statement with the room it was given. */
  datatype Placed = Placed(body: Body, section: nat, offset: nat, size: nat)

  /** The strings of `.ascii`, each with a zero after it for `.asciz`: the first `n` of them. */
  function TextBytes(zero: bool, strings: seq<Bytes>, n: nat): Bytes
    requires n <= |strings|
  {
    if n == 0 then [] else TextBytes(zero, strings, n - 1) + strings[n - 1] + if zero then [0] else []
  }

  /** The bytes of the first `n` strings, with a zero after each for `.asciz`. */
  function TextLength(zero: bool, strings: seq<Bytes>, n: nat): nat
    requires n <= |strings|
  {
    if n == 0 then 0 else TextLength(zero, strings, n - 1) + |strings[n - 1]| + if zero then 1 else 0
  }

  /** Every string is there, after those before it, and for `.asciz` a zero after it. */
  lemma {:induction false} TextAt(zero: bool, strings: seq<Bytes>, n: nat, k: nat)
    requires k < n <= |strings|
    ensures var t, at, s := TextBytes(zero, strings, n), TextLength(zero, strings, k), strings[k];
            && |t| == TextLength(zero, strings, n) && at + |s| + (if zero then 1 else 0) <= |t|
            && t[at..at + |s|] == s && (zero ==> t[at + |s|] == 0)
  {
    TextSize(zero, strings, n);
    TextSize(zero, strings, n - 1);
    if k < n - 1 {
      TextAt(zero, strings, n - 1, k);
      var t, at, s := TextBytes(zero, strings, n - 1), TextLength(zero, strings, k), strings[k];
      assert TextBytes(zero, strings, n)[at..at + |s|] == t[at..at + |s|];
    }
  }

  lemma {:induction false} TextSize(zero: bool, strings: seq<Bytes>, n: nat)
    requires n <= |strings|
    ensures |TextBytes(zero, strings, n)| == TextLength(zero, strings, n)
  {
    if n > 0 { TextSize(zero, strings, n - 1); }
  }

  /** What the constructors put into the section: text as it stands, filler for everything else. */
  function Reserved(p: Placed): Bytes
  {
    if p.body.Text? then TextBytes(p.body.zero, p.body.strings, |p.body.strings|) else Repeat(FILLER, p.size)
  }

  datatype Assembly = Assembly(table: State, defs: map<string, Definition>, placed: seq<Placed>, error: bool) {

    function Here(): nat
      requires table.current < |table.records|
    {
      |table.records[table.current].contents|
    }

    /** `.` symbols are labels at the end of the current section. */
    function DefineDots(dots: seq<string>): Assembly
      requires table.current < |table.records|
      decreases |dots|
    {
      if dots == [] then this
      else this.(defs := defs[dots[0] := LabelAt(table.current, Here())]).DefineDots(dots[1..])
    }

    /** Takes a statement's room in the current section. */
    function Take(body: Body, size: nat): Assembly
      requires table.current < |table.records|
    {
      var p := Placed(body, table.current, Here(), size);
      this.(table := table.Append(Reserved(p)), placed := placed + [p])
    }

    function Fail(failed: bool): Assembly { this.(error := error || failed) }

    /** A label or an `.equ`: a second definition is an error. */
    function Define(name: string, d: Definition): Assembly
    {
      if name in defs then Fail(true) else this.(defs := defs[name := d])
    }

    function Selected(name: string): Assembly
      requires table.current < |table.records|
    {
      this.(table := table.Select(name))
    }
  }

  /** Two runs of pass one: refused both, or the same. */
  ghost predicate Agrees(a: Assembly, b: Assembly) { a.error == b.error && (!b.error ==> a == b) }

  /** The room `.space` takes: its size must be known when it is read. */
  function SpaceSize(env: Env, size: Expr): nat
    requires env.Acyclic()
  {
    if Eval(env, size).ok then Eval(env, size).Operand() else 0
  }

  /** A `.space` whose size is not known yet, or is wrong. */
  predicate SizeFails(env: Env, size: Expr)
    requires env.Acyclic()
  {
    !Eval(env, size).ok || Eval(env, size).error
  }

  /** The room `.align` takes: the constructor reads its operand's value before anything has evaluated it,
      which for a literal is the literal. */
  function AlignSize(offset: nat, x: Expr): nat { U32(P.Align(offset, U16(Unassigned(x))) - offset) }

  /** The `.equ` expressions of a program can be ranked: none depends on itself. */
  predicate RankedBody(body: Body, rank: map<string, nat>)
  {
    body.Equal? ==> HeightIn(rank, body.expr) <= Rank(rank, body.name)
  }

  predicate Ranked(program: Program, rank: map<string, nat>)
  {
    forall s | s in program :: RankedBody(s.body, rank)
  }

  /** A state pass one can be in. */
  ghost predicate Ready(a: Assembly, rank: map<string, nat>)
  {
    && a.table.Valid() && Env(a.defs, rank).Acyclic()
    && forall name | name in a.defs :: a.defs[name].section < |a.table.records|
  }

  /** The constructor of a statement's body. */
  function Place(a: Assembly, body: Body, rank: map<string, nat>): Assembly
    requires Ready(a, rank)
  {
    match body
    case Nothing => a.Take(body, 0)
    case Instr(_) => a.Take(body, 2)
    case InSection(name) => a.Selected(name).Take(body, 0)
    case Values(grain, values) => a.Take(body, grain * |values|)
    case Text(zero, strings) => a.Take(body, |TextBytes(zero, strings, |strings|)|)
    case Space(size, _) => a.Fail(SizeFails(Env(a.defs, rank), size)).Take(body, SpaceSize(Env(a.defs, rank), size))
    case Equal(name, x) => a.Define(name, Equ(a.table.current, x)).Take(body, 0)
    case Aligned(x) => a.Take(body, AlignSize(a.Here(), x))
  }

  /** One statement: its `.` symbols, its body, then its label. */
  function Advance(a: Assembly, s: Statement, rank: map<string, nat>): (b: Assembly)
    requires Ready(a, rank) && RankedBody(s.body, rank)
    ensures Ready(b, rank) && |b.placed| == |a.placed| + 1
  {
    hide Ready, Place;
    assert a.table.current < |a.table.records| by { CurrentInTable(a, rank); }
    DotsReady(a, s.dots, rank);
    var dotted := a.DefineDots(s.dots);
    PlaceReady(dotted, s.body, rank);
    var b := Place(dotted, s.body, rank);
    LabelledReady(b, s.labelName, rank);
    Labelled(b, s.labelName)
  }

  /** `add_label`, for the statement placed last. */
  function Labelled(a: Assembly, labelName: Option<string>): Assembly
    requires a.placed != []
  {
    if labelName == None then a
    else
      var p := a.placed[|a.placed| - 1];
      a.Define(labelName.value, LabelAt(p.section, p.offset))
  }

  /** Pass one over a whole program. */
  function PassOne(a: Assembly, program: Program, rank: map<string, nat>): (b: Assembly)
    requires Ready(a, rank) && Ranked(program, rank)
    ensures Ready(b, rank) && |b.placed| == |a.placed| + |program|
    decreases |program|
  {
    if program == [] then a else PassOne(Advance(a, program[0], rank), program[1..], rank)
  }

  /** An error stays. */
  lemma {:induction false} ErrorStays(a: Assembly, program: Program, rank: map<string, nat>)
    requires Ready(a, rank) && Ranked(program, rank) && a.error
    ensures PassOne(a, program, rank).error
    decreases |program|
  {
    hide Ready, Advance, RankedBody;
    if program != [] {
      AdvanceError(a, program[0], rank);
      ErrorStays(Advance(a, program[0], rank), program[1..], rank);
    }
  }

  lemma AdvanceError(a: Assembly, s: Statement, rank: map<string, nat>)
    requires Ready(a, rank) && RankedBody(s.body, rank) && a.error
    ensures Advance(a, s, rank).error
  {
    hide Ready, Place;
    CurrentInTable(a, rank);
    DotsReady(a, s.dots, rank);
    PlaceReady(a.DefineDots(s.dots), s.body, rank);
    PlaceError(a.DefineDots(s.dots), s.body, rank);
  }

  lemma PlaceError(a: Assembly, body: Body, rank: map<string, nat>)
    requires Ready(a, rank) && RankedBody(body, rank) && a.error
    ensures Place(a, body, rank).error
  {
    hide Eval, State.Select, Reserved, TextBytes, AlignSize, HeightIn, SizeFails, SpaceSize;
  }

  /** `main` has selected `.text`. */
  function Start(): Assembly { Assembly(State([Record(".text", [])], 0), map[], [], false) }

  lemma TakeReady(a: Assembly, body: Body, size: nat, rank: map<string, nat>)
    requires Ready(a, rank)
    ensures Ready(a.Take(body, size), rank)
  {
    StepSound(a.table, Appending(Reserved(Placed(body, a.table.current, a.Here(), size))), "");
  }

  lemma SelectedReady(a: Assembly, name: string, rank: map<string, nat>)
    requires Ready(a, rank)
    ensures Ready(a.Selected(name), rank)
  {
    StepSound(a.table, Selecting(name), "");
  }

  lemma DefineReady(a: Assembly, name: string, d: Definition, rank: map<string, nat>)
    requires Ready(a, rank) && d.section < |a.table.records|
    requires d.Equ? ==> HeightIn(rank, d.expr) <= Rank(rank, name)
    ensures Ready(a.(defs := a.defs[name := d]), rank) && Ready(a.Define(name, d), rank)
  {
  }

  lemma {:induction false} DotsReady(a: Assembly, dots: seq<string>, rank: map<string, nat>)
    requires Ready(a, rank)
    ensures var b := a.DefineDots(dots);
            Ready(b, rank) && b.placed == a.placed && b.table == a.table && b.error == a.error
    decreases |dots|
  {
    hide Ready;
    CurrentInTable(a, rank);
    if dots != [] {
      var d := LabelAt(a.table.current, a.Here());
      DefineReady(a, dots[0], d, rank);
      DotsReady(a.(defs := a.defs[dots[0] := d]), dots[1..], rank);
    }
  }

  lemma CurrentInTable(a: Assembly, rank: map<string, nat>)
    requires Ready(a, rank)
    ensures a.table.current < |a.table.records|
  {
  }

  lemma PlaceReady(a: Assembly, body: Body, rank: map<string, nat>)
    requires Ready(a, rank) && RankedBody(body, rank)
    ensures Ready(Place(a, body, rank), rank) && |Place(a, body, rank).placed| == |a.placed| + 1
    ensures Place(a, body, rank).placed[|a.placed|].section < |Place(a, body, rank).table.records|
  {
    hide Ready, Eval, HeightIn, SpaceSize, SizeFails, State.Select;
    CurrentInTable(a, rank);
    match body {
      case Nothing => TakeReady(a, body, 0, rank);
      case Instr(_) => TakeReady(a, body, 2, rank);
      case InSection(name) =>
        SelectedReady(a, name, rank);
        CurrentInTable(a.Selected(name), rank);
        TakeReady(a.Selected(name), body, 0, rank);
      case Values(grain, values) => TakeReady(a, body, grain * |values|, rank);
      case Text(zero, strings) => TakeReady(a, body, |TextBytes(zero, strings, |strings|)|, rank);
      case Space(size, _) =>
        SpaceEnv(a, rank);
        FailReady(a, SizeFails(Env(a.defs, rank), size), rank);
        TakeReady(a.Fail(SizeFails(Env(a.defs, rank), size)), body, SpaceSize(Env(a.defs, rank), size), rank);
      case Equal(name, x) =>
        DefineReady(a, name, Equ(a.table.current, x), rank);
        TakeReady(a.Define(name, Equ(a.table.current, x)), body, 0, rank);
      case Aligned(x) => TakeReady(a, body, AlignSize(a.Here(), x), rank);
    }
  }

  lemma SpaceEnv(a: Assembly, rank: map<string, nat>)
    requires Ready(a, rank)
    ensures Env(a.defs, rank).Acyclic()
  {
  }

  lemma FailReady(a: Assembly, failed: bool, rank: map<string, nat>)
    requires Ready(a, rank)
    ensures Ready(a.Fail(failed), rank)
  {
  }

  lemma LabelledReady(a: Assembly, labelName: Option<string>, rank: map<string, nat>)
    requires Ready(a, rank) && a.placed != [] && a.placed[|a.placed| - 1].section < |a.table.records|
    ensures Ready(Labelled(a, labelName), rank) && Labelled(a, labelName).placed == a.placed
  {
    hide Ready;
    if labelName != None {
      var p := a.placed[|a.placed| - 1];
      DefineReady(a, labelName.value, LabelAt(p.section, p.offset), rank);
    }
  }

  /** The bytes of section `k` from the first `j` statements, statement after statement. */
  function Gather(placed: seq<Placed>, slices: seq<Bytes>, j: nat, k: nat): Bytes
    requires j <= |placed| && j <= |slices|
  {
    if j == 0 then []
    else Gather(placed, slices, j - 1, k) + if placed[j - 1].section == k then slices[j - 1] else []
  }

  /** The room the first `j` statements take in section `k`. */
  function SizeBefore(placed: seq<Placed>, j: nat, k: nat): nat
    requires j <= |placed|
  {
    if j == 0 then 0 else SizeBefore(placed, j - 1, k) + if placed[j - 1].section == k then placed[j - 1].size else 0
  }

  function Reserves(placed: seq<Placed>): (slices: seq<Bytes>)
    ensures |slices| == |placed| && forall i | 0 <= i < |placed| :: slices[i] == Reserved(placed[i])
  {
    seq(|placed|, i requires 0 <= i < |placed| => Reserved(placed[i]))
  }

  /** Each statement has its room at the offset where the statements before it in its section end. */
  ghost predicate Fitted(placed: seq<Placed>, count: nat)
  {
    forall i | 0 <= i < |placed| ::
      placed[i].section < count && placed[i].offset == SizeBefore(placed, i, placed[i].section)
  }

  ghost predicate Sized(placed: seq<Placed>, slices: seq<Bytes>)
  {
    |slices| == |placed| && forall i | 0 <= i < |placed| :: |slices[i]| == placed[i].size
  }

  /** Every section is the statements placed in it, one after the other. */
  ghost predicate Laid(a: Assembly)
  {
    && Fitted(a.placed, |a.table.records|) && Sized(a.placed, Reserves(a.placed))
    && forall k | 0 <= k < |a.table.records| ::
         a.table.records[k].contents == Gather(a.placed, Reserves(a.placed), |a.placed|, k)
  }

  lemma {:induction false} GatherSame(p: seq<Placed>, q: seq<Placed>, s: seq<Bytes>, t: seq<Bytes>, j: nat, k: nat)
    requires j <= |p| <= |s| && j <= |q| <= |t| && p[..j] == q[..j] && s[..j] == t[..j]
    ensures Gather(p, s, j, k) == Gather(q, t, j, k) && SizeBefore(p, j, k) == SizeBefore(q, j, k)
  {
    if j > 0 {
      assert p[j - 1] == p[..j][j - 1] == q[j - 1] && s[j - 1] == s[..j][j - 1] == t[j - 1];
      assert p[..j - 1] == p[..j][..j - 1] && s[..j - 1] == s[..j][..j - 1];
      GatherSame(p, q, s, t, j - 1, k);
    }
  }

  lemma {:induction false} GatherSize(placed: seq<Placed>, slices: seq<Bytes>, j: nat, k: nat)
    requires Sized(placed, slices) && j <= |placed|
    ensures |Gather(placed, slices, j, k)| == SizeBefore(placed, j, k)
  {
    if j > 0 { GatherSize(placed, slices, j - 1, k); }
  }

  /** A section no statement is in holds nothing. */
  lemma {:induction false} GatherNothing(placed: seq<Placed>, slices: seq<Bytes>, j: nat, k: nat)
    requires j <= |placed| <= |slices| && forall i | 0 <= i < |placed| :: placed[i].section < k
    ensures Gather(placed, slices, j, k) == []
  {
    if j > 0 { GatherNothing(placed, slices, j - 1, k); }
  }

  lemma ReservesSnoc(placed: seq<Placed>, p: Placed)
    ensures Reserves(placed + [p]) == Reserves(placed) + [Reserved(p)]
  {
  }

  lemma TakeLaid(a: Assembly, body: Body, size: nat)
    requires Laid(a) && a.table.current < |a.table.records|
    requires |Reserved(Placed(body, a.table.current, a.Here(), size))| == size
    ensures Laid(a.Take(body, size))
  {
    hide Gather, SizeBefore, Reserved, Reserves;
    var p := Placed(body, a.table.current, a.Here(), size);
    var b, n, slices := a.Take(body, size), |a.placed|, Reserves(a.placed);
    var more := slices + [Reserved(p)];
    ReservesSnoc(a.placed, p);
    GatherSize(a.placed, slices, n, p.section);
    forall i | 0 <= i < |b.placed|
      ensures b.placed[i].section < |b.table.records|
      ensures b.placed[i].offset == SizeBefore(b.placed, i, b.placed[i].section)
    {
      assert i < n ==> b.placed[i] == a.placed[i];
      GatherSame(a.placed, b.placed, slices, more, i, b.placed[i].section);
    }
    forall k | 0 <= k < |b.table.records| ensures b.table.records[k].contents == Gather(b.placed, more, n + 1, k) {
      GatherSame(a.placed, b.placed, slices, more, n, k);
      GatherStep(b.placed, more, n, k);
    }
  }

  lemma GatherStep(placed: seq<Placed>, slices: seq<Bytes>, j: nat, k: nat)
    requires j < |placed| && j < |slices|
    ensures Gather(placed, slices, j + 1, k)
            == Gather(placed, slices, j, k) + if placed[j].section == k then slices[j] else []
  {
  }

  lemma SelectedLaid(a: Assembly, name: string)
    requires Laid(a) && a.table.current < |a.table.records|
    ensures Laid(a.Selected(name))
  {
    hide Gather, SizeBefore, Reserves, State.Find;
    GatherNothing(a.placed, Reserves(a.placed), |a.placed|, |a.table.records|);
  }

  lemma {:induction false} DotsLaid(a: Assembly, dots: seq<string>)
    requires Laid(a) && a.table.current < |a.table.records|
    ensures Laid(a.DefineDots(dots))
    decreases |dots|
  {
    if dots != [] { DotsLaid(a.(defs := a.defs[dots[0] := LabelAt(a.table.current, a.Here())]), dots[1..]); }
  }

  lemma PlaceLaid(a: Assembly, body: Body, rank: map<string, nat>)
    requires Ready(a, rank) && RankedBody(body, rank) && Laid(a)
    ensures Laid(Place(a, body, rank))
  {
    hide Ready, Eval, HeightIn, SpaceSize, SizeFails, State.Select, Gather, SizeBefore, Reserves;
    CurrentInTable(a, rank);
    SpaceEnv(a, rank);
    match body {
      case Nothing => TakeLaid(a, body, 0);
      case Instr(_) => TakeLaid(a, body, 2);
      case InSection(name) =>
        SelectedLaid(a, name);
        SelectedReady(a, name, rank);
        CurrentInTable(a.Selected(name), rank);
        TakeLaid(a.Selected(name), body, 0);
      case Values(grain, values) => TakeLaid(a, body, grain * |values|);
      case Text(zero, strings) => TakeLaid(a, body, |TextBytes(zero, strings, |strings|)|);
      case Space(size, _) =>
        TakeLaid(a.Fail(SizeFails(Env(a.defs, rank), size)), body, SpaceSize(Env(a.defs, rank), size));
      case Equal(name, x) => TakeLaid(a.Define(name, Equ(a.table.current, x)), body, 0);
      case Aligned(x) => TakeLaid(a, body, AlignSize(a.Here(), x));
    }
  }

  lemma StepLaid(a: Assembly, s: Statement, rank: map<string, nat>)
    requires Ready(a, rank) && RankedBody(s.body, rank) && Laid(a)
    ensures Laid(Advance(a, s, rank))
  {
    hide Ready, Place, Gather, SizeBefore, Reserves;
    CurrentInTable(a, rank);
    DotsReady(a, s.dots, rank);
    DotsLaid(a, s.dots);
    PlaceReady(a.DefineDots(s.dots), s.body, rank);
    PlaceLaid(a.DefineDots(s.dots), s.body, rank);
  }

  /** After any program, every section is the concatenation, in program order and across fragments, of the
      rooms of the statements in it; and each statement's offset is the sum of the sizes before it there. */
  lemma {:induction false} RunLaid(a: Assembly, program: Program, rank: map<string, nat>)
    requires Ready(a, rank) && Ranked(program, rank) && Laid(a)
    ensures Laid(PassOne(a, program, rank))
    decreases |program|
  {
    hide Ready, Laid, Advance;
    if program != [] {
      StepLaid(a, program[0], rank);
      RunLaid(Advance(a, program[0], rank), program[1..], rank);
    }
  }

  lemma StartLaid(rank: map<string, nat>)
    ensures Ready(Start(), rank) && Laid(Start())
  {
  }

  /** A statement's room in its section holds its slice. */
  lemma {:induction false} GatherSlot(placed: seq<Placed>, slices: seq<Bytes>, j: nat, i: nat)
    requires i < j <= |placed| && Sized(placed, slices)
    ensures var p, c := placed[i], Gather(placed, slices, j, placed[i].section);
            var start := SizeBefore(placed, i, p.section);
            start + p.size <= |c| && c[start..start + p.size] == slices[i]
  {
    var p := placed[i];
    GatherStep(placed, slices, j - 1, p.section);
    if i == j - 1 {
      GatherSize(placed, slices, i, p.section);
    } else {
      GatherSlot(placed, slices, j - 1, i);
    }
  }

  /** Exchanging one slice for another of its size changes that room and nothing else. */
  lemma {:induction false} GatherReplace(placed: seq<Placed>, slices: seq<Bytes>, j: nat, i: nat, slice: Bytes, k: nat)
    requires i < |placed| && j <= |placed| && Sized(placed, slices) && |slice| == placed[i].size
    ensures var p, c, d := placed[i], Gather(placed, slices, j, k), Gather(placed, slices[i := slice], j, k);
            var start := SizeBefore(placed, i, p.section);
            if i < j && k == p.section
            then start + p.size <= |c| && d == c[..start] + slice + c[start + p.size..]
            else d == c
  {
    hide SizeBefore;
    if j > 0 {
      GatherReplace(placed, slices, j - 1, i, slice, k);
      GatherStep(placed, slices, j - 1, k);
      GatherStep(placed, slices[i := slice], j - 1, k);
      if i == j - 1 {
        GatherSize(placed, slices, i, k);
      } else if i < j && k == placed[i].section {
        var last := if placed[j - 1].section == k then slices[j - 1] else [];
        SpliceBefore(Gather(placed, slices, j - 1, k), SizeBefore(placed, i, k), slice, last);
      }
    }
  }

  lemma SpliceBefore(c: Bytes, start: nat, slice: Bytes, last: Bytes)
    requires start + |slice| <= |c|
    ensures c[..start] + slice + c[start + |slice|..] + last
            == (c + last)[..start] + slice + (c + last)[start + |slice|..]
  {
  }

  /** Short of the 32-bit top, `.align n` ends at a multiple of 2^n and takes less than 2^n bytes. */
  lemma AlignSizeAligns(offset: nat, n: Word)
    requires offset + Pow2(n) <= 0x1_0000_0000
    ensures LowBits(offset + AlignSize(offset, Value(n)), n) == 0 && AlignSize(offset, Value(n)) < Pow2(n)
  {
    hide Pow2, LowBits, P.Align, ShiftRight;
    var p := Pow2(n);
    var k := ShiftRight(offset, n);
    assert U16(n) == n;
    ShiftRightSplit(offset, n);
    LowBitsMod(offset, n);
    if LowBits(offset, n) == 0 {
      P.AlignLeast(offset, n, k);
    } else {
      assert (k + 1) * p == k * p + p;
      P.AlignLeast(offset, n, k + 1);
    }
  }

  /** The next statement of a section starts where the one before it there ends. */
  lemma NextInSection(placed: seq<Placed>, count: nat, i: nat, j: nat)
    requires Fitted(placed, count) && i < j < |placed| && placed[i].section == placed[j].section
    requires forall k | i < k < j :: placed[k].section != placed[i].section
    ensures placed[j].offset == placed[i].offset + placed[i].size
  {
    hide SizeBefore;
    OthersTakeNothing(placed, i, j, placed[i].section);
  }

  lemma {:induction false} OthersTakeNothing(placed: seq<Placed>, i: nat, j: nat, k: nat)
    requires i < j <= |placed| && placed[i].section == k && forall m | i < m < j :: placed[m].section != k
    ensures SizeBefore(placed, j, k) == SizeBefore(placed, i, k) + placed[i].size
  {
    if i < j - 1 { OthersTakeNothing(placed, i, j - 1, k); }
  }
}
