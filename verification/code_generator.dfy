/** Pass two: every statement fills the room it was given, and leaves relocations for its labels. */
module CodeGeneration {
  import opened Machine
  import opened Expressions
  import opened Stability
  import opened LazySymbols
  import opened Sections
  import opened Relocations
  import opened InstructionSet
  import opened Instructions
  import opened Layout
  import opened TwoPass
  import opened PassOneActions

  /** The value `.byte` and `.word` store for an item; zero when it could not be evaluated. */
  function ItemValue(env: Env, x: Expr): Word
    requires env.Acyclic()
  {
    if Eval(env, x).ok then Eval(env, x).Operand() else 0
  }

  function ItemBytes(grain: Grain, value: Word): (s: Bytes)
    ensures |s| == grain
  {
    if grain == 1 then [U8(value)] else WordBytes(value)
  }

  /** The bytes of the first `n` items. */
  function ItemsBytes(env: Env, grain: Grain, values: seq<Expr>, n: nat): (s: Bytes)
    requires env.Acyclic() && n <= |values|
    ensures |s| == grain * n
  {
    if n == 0 then [] else ItemsBytes(env, grain, values, n - 1) + ItemBytes(grain, ItemValue(env, values[n - 1]))
  }

  predicate IsConstant(env: Env, x: Expr)
    requires env.Acyclic()
  {
    Eval(env, x).ok && Eval(env, x).ty == Absolute
  }

  /** What a statement leaves in its room. A shift, a `.space` or an `.align` whose operand could not be
      evaluated leaves the filler. */
  function Image(env: Env, p: Placed): Bytes
    requires env.Acyclic()
  {
    match p.body
    case Instr(i) =>
      var site := Site(p.section, p.offset);
      if !Instructions.Faulty(env, i, site) && Writes(env, i) then WordBytes(Encode(Meaning(env, i, site)))
      else Reserved(p)
    case Values(grain, values) => ItemsBytes(env, grain, values, |values|)
    case Space(size, initial) =>
      if IsConstant(env, size) && IsConstant(env, initial) then Repeat(U8(ConstantOf(env, initial)), p.size)
      else Reserved(p)
    case Aligned(x) => if IsConstant(env, x) then Repeat(0, p.size) else Reserved(p)
    case _ => Reserved(p)
  }

  /** The relocation an item leaves when it is a label. */
  function ItemLinks(env: Env, section: nat, offset: nat, grain: Grain, x: Expr): seq<Relocation>
    requires env.Acyclic()
  {
    if IsLabel(env, x)
    then [Relocation(section, offset, 0, 8 * grain, AbsoluteField, BaseSymbol(env, x), Eval(env, x).Operand())]
    else []
  }

  function ItemsLinks(env: Env, section: nat, offset: nat, grain: Grain, values: seq<Expr>, n: nat): seq<Relocation>
    requires env.Acyclic() && n <= |values|
  {
    if n == 0 then []
    else ItemsLinks(env, section, offset, grain, values, n - 1)
         + ItemLinks(env, section, offset + grain * (n - 1), grain, values[n - 1])
  }

  function LinksOf(env: Env, p: Placed): seq<Relocation>
    requires env.Acyclic()
  {
    match p.body
    case Instr(i) => Instructions.Links(env, i, Site(p.section, p.offset))
    case Values(grain, values) => ItemsLinks(env, p.section, p.offset, grain, values, |values|)
    case _ => []
  }

  predicate ItemFaulty(env: Env, kind: Kind, x: Expr)
    requires env.Acyclic()
  {
    Eval(env, x).error || (kind == Bss && ItemValue(env, x) != 0)
  }

  /** One of the first `n` items is an error. */
  predicate SomeFaulty(env: Env, kind: Kind, values: seq<Expr>, n: nat)
    requires env.Acyclic() && n <= |values|
  {
    exists i | 0 <= i < n :: ItemFaulty(env, kind, values[i])
  }

  lemma SomeFaultyNext(env: Env, kind: Kind, values: seq<Expr>, n: nat)
    requires env.Acyclic() && n < |values|
    ensures SomeFaulty(env, kind, values, n + 1)
            <==> SomeFaulty(env, kind, values, n) || ItemFaulty(env, kind, values[n])
  {
    hide ItemFaulty;
  }

  /** The statement is reported as an error. */
  ghost predicate Wrong(env: Env, kind: Kind, p: Placed)
    requires env.Acyclic()
  {
    match p.body
    case Instr(i) => Instructions.Faulty(env, i, Site(p.section, p.offset))
    case Values(_, values) => SomeFaulty(env, kind, values, |values|)
    case Space(size, initial) =>
      || Eval(env, size).error || IsLabel(env, size)
      || (IsConstant(env, size) && (Eval(env, initial).error || IsLabel(env, initial)))
    case Equal(name, _) => DefinedError(env, name)
    case Aligned(x) => Eval(env, x).error || IsLabel(env, x)
    case _ => false
  }

  /** Only the statement's own room differs. */
  ghost predicate Confined(before: seq<Bytes>, after: seq<Bytes>, p: Placed)
  {
    && |after| == |before| && p.section < |before|
    && (forall k | 0 <= k < |before| && k != p.section :: after[k] == before[k])
    && |after[p.section]| == |before[p.section]|
    && (forall i | 0 <= i < |before[p.section]| && !(p.offset <= i < p.offset + p.size) ::
          after[p.section][i] == before[p.section][i])
  }

  /** The statement's room is as pass one left it. */
  ghost predicate Untouched(contents: seq<Bytes>, p: Placed)
  {
    && InRoom(contents, p)
    && contents[p.section][p.offset..p.offset + p.size] == Reserved(p)
  }

  ghost predicate InRoom(contents: seq<Bytes>, p: Placed)
  {
    p.section < |contents| && p.offset + p.size <= |contents[p.section]|
  }

  function Put(contents: seq<Bytes>, section: nat, offset: nat, data: Bytes): seq<Bytes>
    requires section < |contents|
  {
    contents[section := Written(contents[section], offset, data)]
  }

  lemma WrittenTwice(c: Bytes, offset: nat, first: Bytes, second: Bytes)
    ensures Written(Written(c, offset, first), offset + |first|, second) == Written(c, offset, first + second)
  {
    var once, twice := Written(c, offset, first), Written(c, offset, first + second);
    var r := Written(once, offset + |first|, second);
    assert |r| == |twice|;
    forall i | 0 <= i < |r| ensures r[i] == twice[i] {
      WrittenAt(once, offset + |first|, second, i);
      WrittenAt(c, offset, first + second, i);
      if i < |once| { WrittenAt(c, offset, first, i); }
    }
  }

  lemma WrittenAt(c: Bytes, offset: nat, data: Bytes, i: nat)
    requires i < |Written(c, offset, data)|
    ensures Written(c, offset, data)[i]
            == if offset <= i < offset + |data| then data[i - offset] else if i < |c| then c[i] else 0
  {
  }

  lemma WrittenNothing(c: Bytes, offset: nat)
    requires offset <= |c|
    ensures Written(c, offset, []) == c
  {
  }

  lemma PutConfined(contents: seq<Bytes>, p: Placed, data: Bytes)
    requires InRoom(contents, p) && |data| <= p.size
    ensures Confined(contents, Put(contents, p.section, p.offset, data), p)
  {
  }

  lemma PutTwice(contents: seq<Bytes>, section: nat, offset: nat, first: Bytes, second: Bytes)
    requires section < |contents|
    ensures Put(Put(contents, section, offset, first), section, offset + |first|, second)
            == Put(contents, section, offset, first + second)
  {
    WrittenTwice(contents[section], offset, first, second);
  }

  /** Putting what is already there. */
  lemma PutReserved(contents: seq<Bytes>, p: Placed)
    requires Untouched(contents, p)
    ensures Put(contents, p.section, p.offset, Reserved(p)) == contents && Confined(contents, contents, p)
  {
    hide Reserved;
    var c, data := contents[p.section], Reserved(p);
    assert c[..p.offset] + data + c[p.offset + |data|..] == c;
  }

  lemma NothingPut(contents: seq<Bytes>, p: Placed)
    requires InRoom(contents, p)
    ensures Put(contents, p.section, p.offset, []) == contents
  {
    WrittenNothing(contents[p.section], p.offset);
  }

  /** Storing into one section of a table. */
  lemma PutStored(before: seq<Bytes>, after: seq<Bytes>, section: nat, offset: nat, data: Bytes)
    requires section < |before| == |after| && after[section] == Written(before[section], offset, data)
    requires forall k | 0 <= k < |before| && k != section :: after[k] == before[k]
    ensures after == Put(before, section, offset, data)
  {
    hide Written;
  }

  /** The sections are the statements' slices, one after the other. */
  ghost predicate Assembled(contents: seq<Bytes>, placed: seq<Placed>, slices: seq<Bytes>)
  {
    |slices| == |placed| && forall k | 0 <= k < |contents| :: contents[k] == Gather(placed, slices, |placed|, k)
  }

  lemma SlotHolds(contents: seq<Bytes>, placed: seq<Placed>, slices: seq<Bytes>, i: nat)
    requires Assembled(contents, placed, slices) && Sized(placed, slices)
    requires Fitted(placed, |contents|) && i < |placed|
    ensures var p := placed[i];
            InRoom(contents, p) && contents[p.section][p.offset..p.offset + p.size] == slices[i]
  {
    hide Gather, SizeBefore;
    GatherSlot(placed, slices, |placed|, i);
  }

  /** A change confined to one statement's room leaves every section the concatenation of its slices. */
  lemma SlotReplaced(before: seq<Bytes>, after: seq<Bytes>, placed: seq<Placed>, slices: seq<Bytes>, i: nat)
    requires Assembled(before, placed, slices) && Sized(placed, slices)
    requires Fitted(placed, |before|) && i < |placed| && Confined(before, after, placed[i])
    ensures InRoom(after, placed[i])
    ensures var p := placed[i];
            var slice := after[p.section][p.offset..p.offset + p.size];
            Sized(placed, slices[i := slice]) && Assembled(after, placed, slices[i := slice])
  {
    hide Gather, SizeBefore;
    var p := placed[i];
    SlotHolds(before, placed, slices, i);
    var slice := after[p.section][p.offset..p.offset + p.size];
    forall k | 0 <= k < |after| ensures after[k] == Gather(placed, slices[i := slice], |placed|, k) {
      GatherReplace(placed, slices, |placed|, i, slice, k);
      if k == p.section {
        assert after[k] == before[k][..p.offset] + slice + before[k][p.offset + p.size..];
      }
    }
  }

  /** An image fills its room. */
  lemma ImageSize(env: Env, p: Placed)
    requires env.Acyclic() && RightSize(env, p) && |Reserved(p)| == p.size
    ensures |Image(env, p)| == p.size
  {
    hide Eval, Instructions.Faulty, Encode, Meaning, Writes, ItemsBytes, TextBytes;
  }

  lemma PutSlice(contents: seq<Bytes>, section: nat, offset: nat, data: Bytes)
    requires section < |contents|
    ensures offset + |data| <= |Put(contents, section, offset, data)[section]|
    ensures Put(contents, section, offset, data)[section][offset..offset + |data|] == data
  {
    hide Written;
  }

  function Images(env: Env, placed: seq<Placed>): (slices: seq<Bytes>)
    requires env.Acyclic()
    ensures |slices| == |placed| && forall i | 0 <= i < |placed| :: slices[i] == Image(env, placed[i])
  {
    seq(|placed|, i requires 0 <= i < |placed| => Image(env, placed[i]))
  }

  /** The relocations of the first `n` statements. */
  function AllLinks(env: Env, placed: seq<Placed>, n: nat): seq<Relocation>
    requires env.Acyclic() && n <= |placed|
  {
    if n == 0 then [] else AllLinks(env, placed, n - 1) + LinksOf(env, placed[n - 1])
  }

  /** One of the first `n` statements is wrong. */
  ghost predicate SomeWrong(env: Env, kinds: seq<Kind>, placed: seq<Placed>, n: nat)
    requires env.Acyclic() && n <= |placed| && forall i | 0 <= i < |placed| :: placed[i].section < |kinds|
  {
    exists i | 0 <= i < n :: Wrong(env, kinds[placed[i].section], placed[i])
  }

  lemma SomeWrongNext(env: Env, kinds: seq<Kind>, placed: seq<Placed>, n: nat)
    requires env.Acyclic() && n < |placed| && forall i | 0 <= i < |placed| :: placed[i].section < |kinds|
    ensures SomeWrong(env, kinds, placed, n + 1)
            <==> SomeWrong(env, kinds, placed, n) || Wrong(env, kinds[placed[n].section], placed[n])
  {
    hide Wrong;
  }

  ghost function KindsOf(table: seq<Section>): (kinds: seq<Kind>)
    reads table
    ensures |kinds| == |table| && forall i | 0 <= i < |table| :: kinds[i] == table[i].kind
  {
    seq(|table|, i requires 0 <= i < |table| reads table => table[i].kind)
  }

  /** The first `n` slices are images, unless some statement was wrong; the others are still reserved. */
  ghost predicate Progress(env: Env, placed: seq<Placed>, slices: seq<Bytes>, n: nat, wrong: bool)
    requires env.Acyclic()
  {
    && Sized(placed, slices) && n <= |placed|
    && (forall i | n <= i < |placed| :: slices[i] == Reserved(placed[i]))
    && (!wrong ==> forall i | 0 <= i < n :: slices[i] == Image(env, placed[i]))
  }

  lemma StartProgress(env: Env, kinds: seq<Kind>, placed: seq<Placed>)
    requires env.Acyclic() && Sized(placed, Reserves(placed))
    requires forall i | 0 <= i < |placed| :: placed[i].section < |kinds|
    ensures Progress(env, placed, Reserves(placed), 0, false) && !SomeWrong(env, kinds, placed, 0)
  {
  }

  lemma Finished(env: Env, placed: seq<Placed>, slices: seq<Bytes>, wrong: bool)
    requires env.Acyclic() && Progress(env, placed, slices, |placed|, wrong)
    ensures Sized(placed, slices) && (!wrong ==> slices == Images(env, placed))
  {
    hide Image;
  }

  lemma AssembledSizes(before: seq<Bytes>, after: seq<Bytes>, placed: seq<Placed>, reserves: seq<Bytes>,
                       slices: seq<Bytes>)
    requires |before| == |after| && Assembled(before, placed, reserves) && Assembled(after, placed, slices)
    requires Sized(placed, reserves) && Sized(placed, slices)
    ensures SameSizes(after, before)
  {
    hide Gather, SizeBefore;
    forall k | 0 <= k < |before| ensures |after[k]| == |before[k]| {
      GatherSize(placed, reserves, |placed|, k);
      GatherSize(placed, slices, |placed|, k);
    }
  }

  class CodeGenerator {
    const sections: SectionTable
    const evaluator: Evaluator
    var relocations: seq<Relocation>

    ghost predicate Valid()
      reads sections, sections.table, evaluator, evaluator.nodes, evaluator.symbols
    {
      sections.Valid() && evaluator.Valid() && evaluator.env.Acyclic() && !evaluator.stale
    }

    constructor (sections: SectionTable, evaluator: Evaluator)
      requires sections.Valid() && evaluator.Valid() && !evaluator.stale
      ensures Valid() && this.sections == sections && this.evaluator == evaluator && relocations == []
    {
      evaluator.ValidParts();
      this.sections, this.evaluator, relocations := sections, evaluator, [];
    }

    ghost function KindAt(p: Placed): Kind
      requires p.section < |sections.table|
      reads sections, sections.table
    {
      sections.table[p.section].kind
    }

    /** An error is on record if one was before, or if `wrong`. */
    twostate predicate Reports(wrong: bool)
      reads evaluator
    {
      evaluator.errors > 0 <==> old(evaluator.errors) > 0 || wrong
    }

    /** The effect of visiting a statement: its relocations, an error if it is wrong, and in the sections
        its image, or if it is wrong something else that stays in its room. */
    twostate predicate Visited(p: Placed)
      requires evaluator.env.Acyclic() && p.section < |sections.table|
      reads this, sections, sections.table, evaluator
    {
      var env := evaluator.env;
      && relocations == old(relocations) + LinksOf(env, p) && Reports(Wrong(env, KindAt(p), p))
      && Confined(old(sections.Contents()), sections.Contents(), p)
      && (!Wrong(env, KindAt(p), p)
          ==> sections.Contents() == Put(old(sections.Contents()), p.section, p.offset, Image(env, p)))
    }

    /** `Sections::write8` and `Sections::write16` */
    method Store(section: nat, offset: nat, grain: Grain, value: Word)
      requires Valid() && section < |sections.table|
      modifies (set s | s in sections.table)`contents
      ensures Valid() && sections.Contents() == Put(old(sections.Contents()), section, offset, ItemBytes(grain, value))
    {
      hide Written, WordBytes, Evaluator.Valid;
      ghost var before := sections.Contents();
      if grain == 1 {
        sections.table[section].Write8(offset, U8(value));
      } else {
        sections.table[section].Write16(offset, value);
      }
      PutStored(before, sections.Contents(), section, offset, ItemBytes(grain, value));
    }

    /** `Sections::fill` */
    method Fill(section: nat, offset: nat, value: Byte, size: nat)
      requires Valid() && section < |sections.table|
      modifies (set s | s in sections.table)`contents
      ensures Valid() && sections.Contents() == Put(old(sections.Contents()), section, offset, Repeat(value, size))
    {
      hide Written, Evaluator.Valid;
      ghost var before := sections.Contents();
      sections.table[section].Fill(offset, value, size);
      PutStored(before, sections.Contents(), section, offset, Repeat(value, size));
    }

    /** An operand's type, value and symbol, as its node gives them now. */
    method Read(n: Node) returns (r: Reading)
      requires Valid() && n in evaluator.nodes
      modifies evaluator`errors, evaluator.nodes, evaluator.symbols
      ensures Valid() && ReadAs(evaluator.env, n.tree, r) && Reports(Eval(evaluator.env, n.tree).error)
      ensures sections.Contents() == old(sections.Contents())
    {
      hide SectionTable.Valid, Evaluator.Valid, Eval;
      evaluator.ValidParts();
      r := evaluator.Read(n);
    }

    /** `error_report` */
    method Report()
      requires Valid()
      modifies evaluator`errors
      ensures Valid() && evaluator.errors == old(evaluator.errors) + 1
    {
      hide SectionTable.Valid, Evaluator.Valid;
      evaluator.Report();
    }

    /** The operand of an instruction, if it has one. */
    method ReadOperand(i: Instruction, ns: seq<Node>) returns (r: Reading)
      requires Valid() && Trees(ns, OperandsIn(i), evaluator.nodes)
      modifies evaluator`errors, evaluator.nodes, evaluator.symbols
      ensures Valid() && Reports(OperandError(evaluator.env, i))
      ensures forall x | x in OperandsIn(i) :: ReadAs(evaluator.env, x, r)
      ensures sections.Contents() == old(sections.Contents())
    {
      hide SectionTable.Valid, Evaluator.Valid, Eval, ReadAs, SectionTable.Contents;
      r := Reading(false, Undefined, 0, "", 0);
      if ns != [] { r := Read(ns[0]); }
    }

    method VisitInstruction(p: Placed, ns: seq<Node>)
      requires Valid() && p.body.Instr? && RightSize(evaluator.env, p) && Untouched(sections.Contents(), p)
      requires Trees(ns, OperandsOf(p.body), evaluator.nodes)
      modifies this, (set s | s in sections.table)`contents, evaluator`errors, evaluator.nodes, evaluator.symbols
      ensures Valid() && Visited(p)
    {
      hide Eval, BaseSymbol, Env.Acyclic, Meaning, Instructions.Faulty, Encode, Instructions.Links, Written, WordBytes;
      hide SectionTable.Valid, SectionTable.Contents, Put, Confined, Evaluator.Valid, OperandError, OperandsIn, ReadAs;
      ghost var before, env := sections.Contents(), evaluator.env;
      PutReserved(before, p);
      var i, site := p.body.instruction, Site(p.section, p.offset);
      var r := ReadOperand(i, ns);
      var e := EncodeInstruction(env, i, site, r);
      relocations := relocations + e.links;
      if e.error { Report(); }
      if e.written {
        Store(p.section, p.offset, 2, e.code);
        PutConfined(before, p, ItemBytes(2, e.code));
        assert !Instructions.Faulty(env, i, site) ==> ItemBytes(2, e.code) == Image(env, p);
      }
    }

    /** One item of `.byte` or `.word` */
    method VisitItem(p: Placed, offset: nat, n: Node)
      requires Valid() && p.section < |sections.table| && p.body.Values? && n in evaluator.nodes
      modifies this, (set s | s in sections.table)`contents, evaluator`errors, evaluator.nodes, evaluator.symbols
      ensures Valid()
      ensures relocations == old(relocations) + ItemLinks(evaluator.env, p.section, offset, p.body.grain, n.tree)
      ensures Reports(ItemFaulty(evaluator.env, KindAt(p), n.tree))
      ensures sections.Contents()
              == Put(old(sections.Contents()), p.section, offset,
                     ItemBytes(p.body.grain, ItemValue(evaluator.env, n.tree)))
    {
      hide Eval, BaseSymbol, Env.Acyclic, ItemBytes, SectionTable.Valid, SectionTable.Contents, Put, Evaluator.Valid;
      var value := 0;
      var r := Read(n);
      if r.ok {
        value := r.value;
        if value != 0 && sections.table[p.section].kind == Bss { Report(); }
        if r.ty == Label {
          relocations := relocations
            + [Relocation(p.section, offset, 0, 8 * p.body.grain, AbsoluteField, r.symbol, value)];
        }
      }
      Store(p.section, offset, p.body.grain, value);
    }

    method VisitValues(p: Placed, ns: seq<Node>)
      requires Valid() && p.body.Values? && RightSize(evaluator.env, p) && Untouched(sections.Contents(), p)
      requires Trees(ns, p.body.values, evaluator.nodes)
      modifies this, (set s | s in sections.table)`contents, evaluator`errors, evaluator.nodes, evaluator.symbols
      ensures Valid() && Visited(p)
    {
      hide Eval, BaseSymbol, Env.Acyclic, ItemBytes, ItemValue, ItemFaulty, ItemLinks, Written, Reserved;
      hide SectionTable.Valid, SectionTable.Contents, Put, Confined, Evaluator.Valid;
      ghost var before, env := sections.Contents(), evaluator.env;
      var grain, values := p.body.grain, p.body.values;
      NothingPut(before, p);
      for i := 0 to |values|
        invariant Valid() && relocations == old(relocations) + ItemsLinks(env, p.section, p.offset, grain, values, i)
        invariant Reports(SomeFaulty(env, KindAt(p), values, i))
        invariant sections.Contents() == Put(before, p.section, p.offset, ItemsBytes(env, grain, values, i))
      {
        SomeFaultyNext(env, KindAt(p), values, i);
        VisitItem(p, p.offset + grain * i, ns[i]);
        PutTwice(before, p.section, p.offset, ItemsBytes(env, grain, values, i),
                 ItemBytes(grain, ItemValue(env, values[i])));
      }
      PutConfined(before, p, ItemsBytes(env, grain, values, |values|));
    }

    /** `visit(Dir_space *)` */
    method VisitSpace(p: Placed, ns: seq<Node>)
      requires Valid() && p.body.Space? && Untouched(sections.Contents(), p)
      requires Eval(evaluator.env, p.body.size).ok ==> p.size == Eval(evaluator.env, p.body.size).Operand()
      requires Trees(ns, [p.body.size, p.body.initial], evaluator.nodes)
      modifies this, (set s | s in sections.table)`contents, evaluator`errors, evaluator.nodes, evaluator.symbols
      ensures Valid() && Visited(p)
    {
      hide Eval, BaseSymbol, Env.Acyclic, SectionTable.Valid, SectionTable.Contents, Put, Confined, Evaluator.Valid;
      ghost var before := sections.Contents();
      PutReserved(before, p);
      var size := Read(ns[0]);
      if size.ok {
        if size.ty == Absolute {
          var initial := Read(ns[1]);
          if initial.ok {
            if initial.ty == Absolute {
              Fill(p.section, p.offset, U8(initial.value), size.value);
              PutConfined(before, p, Repeat(U8(initial.value), p.size));
            } else if initial.ty == Label {
              Report();
            }
          }
        } else if size.ty == Label {
          Report();
        }
      }
    }

    /** `visit(Dir_align *)` */
    method VisitAlign(p: Placed, ns: seq<Node>)
      requires Valid() && p.body.Aligned? && Untouched(sections.Contents(), p)
      requires Trees(ns, [p.body.power], evaluator.nodes)
      modifies this, (set s | s in sections.table)`contents, evaluator`errors, evaluator.nodes, evaluator.symbols
      ensures Valid() && Visited(p)
    {
      hide Eval, BaseSymbol, Env.Acyclic, SectionTable.Valid, SectionTable.Contents, Put, Confined, Evaluator.Valid;
      ghost var before := sections.Contents();
      PutReserved(before, p);
      var power := Read(ns[0]);
      if power.ok {
        if power.ty == Absolute {
          PutConfined(before, p, Repeat(0, p.size));
          Fill(p.section, p.offset, 0, p.size);
        } else if power.ty == Label {
          Report();
        }
      }
    }

    /** `visit(Dir_equ *)` */
    method VisitEqu(p: Placed)
      requires Valid() && p.body.Equal? && Untouched(sections.Contents(), p)
      modifies this, (set s | s in sections.table)`contents, evaluator`errors, evaluator.nodes, evaluator.symbols
      ensures Valid() && Visited(p)
    {
      hide Eval, BaseSymbol, Env.Acyclic, SectionTable.Valid, SectionTable.Contents, Put, Confined, Evaluator.Valid;
      PutReserved(sections.Contents(), p);
      var name := p.body.name;
      evaluator.TableParts(name);
      if name in evaluator.table { var _ := evaluator.TypeOf(evaluator.table[name]); }
    }

    method Visit(p: Placed, ns: seq<Node>)
      requires Valid() && RightSize(evaluator.env, p) && Untouched(sections.Contents(), p)
      requires Trees(ns, OperandsOf(p.body), evaluator.nodes)
      modifies this, (set s | s in sections.table)`contents, evaluator`errors, evaluator.nodes, evaluator.symbols
      ensures Valid() && Visited(p)
    {
      hide Eval, Env.Acyclic, SectionTable.Valid, SectionTable.Contents, Put, Confined, Untouched, Evaluator.Valid;
      match p.body {
        case Instr(_) => VisitInstruction(p, ns);
        case Values(_, _) => VisitValues(p, ns);
        case Space(_, _) => VisitSpace(p, ns);
        case Aligned(_) => VisitAlign(p, ns);
        case Equal(_, _) => VisitEqu(p);
        case _ => PutReserved(sections.Contents(), p);
      }
    }

    /** One statement of the loop in `main`. */
    method VisitNext(placed: seq<Placed>, operands: seq<seq<Node>>, i: nat, ghost slices: seq<Bytes>, ghost wrong: bool)
        returns (ghost next: seq<Bytes>)
      requires Valid() && AllTrees(operands, placed, evaluator.nodes)
      requires i < |placed| && RightSize(evaluator.env, placed[i]) && Fitted(placed, |sections.table|)
      requires Assembled(sections.Contents(), placed, slices) && Progress(evaluator.env, placed, slices, i, wrong)
      modifies this, (set s | s in sections.table)`contents, evaluator`errors, evaluator.nodes, evaluator.symbols
      ensures Valid() && relocations == old(relocations) + LinksOf(evaluator.env, placed[i])
      ensures Reports(Wrong(evaluator.env, KindAt(placed[i]), placed[i]))
      ensures Assembled(sections.Contents(), placed, next)
      ensures Progress(evaluator.env, placed, next, i + 1, wrong || Wrong(evaluator.env, KindAt(placed[i]), placed[i]))
    {
      hide Eval, Env.Acyclic, SectionTable.Valid, SectionTable.Contents, Confined, Assembled, Image, Wrong, LinksOf;
      hide SizeBefore, Reserved, RightSize, Evaluator.Valid, OperandsOf, Trees;
      var p := placed[i];
      ghost var before, env := sections.Contents(), evaluator.env;
      SlotHolds(before, placed, slices, i);
      Visit(p, operands[i]);
      ghost var after := sections.Contents();
      SlotReplaced(before, after, placed, slices, i);
      next := slices[i := after[p.section][p.offset..p.offset + p.size]];
      ImageSize(env, p);
      PutSlice(before, p.section, p.offset, Image(env, p));
    }

    /** The loop in `main`. */
    method VisitAll(placed: seq<Placed>, operands: seq<seq<Node>>, ghost kinds: seq<Kind>)
        returns (ghost slices: seq<Bytes>)
      requires Valid() && AllTrees(operands, placed, evaluator.nodes) && kinds == KindsOf(sections.table)
      requires Fitted(placed, |sections.table|) && Sized(placed, Reserves(placed))
      requires forall p | p in placed :: RightSize(evaluator.env, p)
      requires Assembled(sections.Contents(), placed, Reserves(placed)) && relocations == []
      modifies this, (set s | s in sections.table)`contents, evaluator`errors, evaluator.nodes, evaluator.symbols
      ensures Valid() && relocations == AllLinks(evaluator.env, placed, |placed|)
      ensures Reports(SomeWrong(evaluator.env, kinds, placed, |placed|))
      ensures Assembled(sections.Contents(), placed, slices)
      ensures Progress(evaluator.env, placed, slices, |placed|, SomeWrong(evaluator.env, kinds, placed, |placed|))
    {
      hide Eval, Env.Acyclic, SectionTable.Valid, SectionTable.Contents, Assembled, Image, Wrong, LinksOf, SomeWrong;
      hide SizeBefore, Reserved, RightSize, Progress, Evaluator.Valid, AllTrees, Gather, Confined, Sized, ItemsLinks;
      hide Reserves;
      ghost var env := evaluator.env;
      slices := Reserves(placed);
      assert Progress(env, placed, slices, 0, false) && !SomeWrong(env, kinds, placed, 0)
          by { StartProgress(env, kinds, placed); }
      for i := 0 to |placed|
        invariant Valid() && relocations == AllLinks(env, placed, i)
        invariant Reports(SomeWrong(env, kinds, placed, i))
        invariant Assembled(sections.Contents(), placed, slices)
        invariant Progress(env, placed, slices, i, SomeWrong(env, kinds, placed, i))
      {
        SomeWrongNext(env, kinds, placed, i);
        slices := VisitNext(placed, operands, i, slices, SomeWrong(env, kinds, placed, i));
      }
    }

    /** The visits of all statements, in program order: the sections keep their sizes, and unless some
        statement is wrong each is the concatenation of its statements' images. */
    method Generate(placed: seq<Placed>, operands: seq<seq<Node>>)
      requires Valid() && AllTrees(operands, placed, evaluator.nodes)
      requires Fitted(placed, |sections.table|) && Sized(placed, Reserves(placed))
      requires forall p | p in placed :: RightSize(evaluator.env, p)
      requires Assembled(sections.Contents(), placed, Reserves(placed)) && relocations == []
      modifies this, (set s | s in sections.table)`contents, evaluator`errors, evaluator.nodes, evaluator.symbols
      ensures Valid() && relocations == AllLinks(evaluator.env, placed, |placed|)
      ensures Reports(SomeWrong(evaluator.env, KindsOf(sections.table), placed, |placed|))
      ensures SameSizes(sections.Contents(), old(sections.Contents()))
      ensures evaluator.errors == 0 ==> Assembled(sections.Contents(), placed, Images(evaluator.env, placed))
    {
      hide Eval, Env.Acyclic, SectionTable.Valid, SectionTable.Contents, Assembled, SomeWrong;
      hide SizeBefore, Reserved, RightSize, Progress, Evaluator.Valid, AllTrees;
      ghost var kinds := KindsOf(sections.table);
      ghost var slices := VisitAll(placed, operands, kinds);
      Finished(evaluator.env, placed, slices, SomeWrong(evaluator.env, kinds, placed, |placed|));
      AssembledSizes(old(sections.Contents()), sections.Contents(), placed, Reserves(placed), slices);
      assert KindsOf(sections.table) == kinds;
    }
  }
  /** The code generator, from its construction to the relocations it leaves. */
  method GenerateCode(sections: SectionTable, evaluator: Evaluator, placed: seq<Placed>, operands: seq<seq<Node>>)
    returns (relocations: seq<Relocation>)
    requires sections.Valid() && evaluator.Valid() && evaluator.env.Acyclic() && !evaluator.stale
    requires evaluator.errors == 0 && AllTrees(operands, placed, evaluator.nodes)
    requires Fitted(placed, |sections.table|) && Sized(placed, Reserves(placed))
    requires forall p | p in placed :: RightSize(evaluator.env, p)
    requires Assembled(sections.Contents(), placed, Reserves(placed))
    modifies (set s | s in sections.table)`contents, evaluator`errors, evaluator.nodes, evaluator.symbols
    ensures sections.Valid() && evaluator.Valid()
    ensures KindsOf(sections.table) == old(KindsOf(sections.table))
    ensures relocations == AllLinks(evaluator.env, placed, |placed|)
    ensures evaluator.errors > 0 <==> SomeWrong(evaluator.env, KindsOf(sections.table), placed, |placed|)
    ensures evaluator.errors == 0 ==> Assembled(sections.Contents(), placed, Images(evaluator.env, placed))
  {
    hide SectionTable.Valid, SectionTable.Contents, Assembled, SomeWrong, SizeBefore, Reserved, RightSize, Fitted;
    hide Evaluator.Valid, AllTrees, Sized;
    var generator := new CodeGenerator(sections, evaluator);
    generator.Generate(placed, operands);
    relocations := generator.relocations;
  }
}
