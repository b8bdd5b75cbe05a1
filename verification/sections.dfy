/** Sections: growable byte buffers, and the table that hands them out by name. */
module Sections {
  import opened Machine

  type Bytes = seq<Byte>

  datatype Kind = Loadable | Bss | Unloaded

  /** The flags a section gets from its name. */
  function KindOf(name: string): Kind
  {
    if name == ".bss" then Bss else if name == ".stack" then Unloaded else Loadable
  }

  /** Every section is loaded but `.bss` and `.stack`. */
  lemma KindNames(name: string)
    ensures KindOf(name) == Loadable <==> name != ".bss" && name != ".stack"
    ensures KindOf(name) == Bss <==> name == ".bss"
  {
  }

  function Repeat(b: Byte, n: nat): (s: Bytes)
    ensures |s| == n && forall i | 0 <= i < n :: s[i] == b
  {
    seq(n, _ => b)
  }

  /** A buffer grown with zeros to hold at least `n` bytes. */
  function Resized(c: Bytes, n: nat): (r: Bytes)
    ensures |r| == (if n <= |c| then |c| else n) && r[..|c|] == c && forall i | |c| <= i < |r| :: r[i] == 0
  {
    if n <= |c| then c else c + Repeat(0, n - |c|)
  }

  /** A buffer after storing `data` at `offset`. */
  function Written(c: Bytes, offset: nat, data: Bytes): (r: Bytes)
    ensures |r| == if offset + |data| <= |c| then |c| else offset + |data|
    ensures r[offset..offset + |data|] == data
  {
    var d := Resized(c, offset + |data|);
    d[..offset] + data + d[offset + |data|..]
  }

  function WordBytes(w: Word): (s: Bytes)
    ensures |s| == 2 && MakeWord(s[0], s[1]) == w
  {
    [w % 0x100, w / 0x100]
  }

  /** A byte read past the end of a section. */
  const FILLER: Byte := 0x55

  function ByteAt(c: Bytes, offset: nat): Byte { if offset < |c| then c[offset] else FILLER }

  function WordAt(c: Bytes, offset: nat): Word { MakeWord(ByteAt(c, offset), ByteAt(c, offset + 1)) }

  class Section {
    var name: string
    const number: nat
    var baseAddress: nat
    var kind: Kind
    var contents: Bytes

    constructor (name: string, number: nat, kind: Kind)
      ensures this.name == name && this.number == number && this.kind == kind
      ensures baseAddress == 0 && contents == []
    {
      this.name, this.number, this.kind, baseAddress, contents := name, number, kind, 0, [];
    }

    method EnsuresSpace(size: nat)
      modifies this`contents
      ensures contents == Resized(old(contents), size)
    {
      if size > |contents| {
        contents := contents + Repeat(0, size - |contents|);
      }
    }

    method Write8(offset: nat, value: Byte)
      modifies this`contents
      ensures contents == Written(old(contents), offset, [value])
    {
      EnsuresSpace(offset + 1);
      contents := contents[offset := value];
    }

    method Write16(offset: nat, value: Word)
      modifies this`contents
      ensures contents == Written(old(contents), offset, WordBytes(value))
    {
      EnsuresSpace(offset + 2);
      contents := contents[offset := U8(value)];
      contents := contents[offset + 1 := U8(value / 0x100)];
    }

    method WriteBlock(offset: nat, data: Bytes)
      modifies this`contents
      ensures contents == Written(old(contents), offset, data)
    {
      EnsuresSpace(offset + |data|);
      contents := contents[..offset] + data + contents[offset + |data|..];
    }

    method Fill(offset: nat, value: Byte, size: nat)
      modifies this`contents
      ensures contents == Written(old(contents), offset, Repeat(value, size))
    {
      WriteBlock(offset, Repeat(value, size));
    }

    method Increase(size: nat)
      modifies this`contents
      ensures contents == old(contents) + Repeat(FILLER, size)
    {
      Fill(|contents|, FILLER, size);
    }

    method AppendBlock(data: Bytes)
      modifies this`contents
      ensures contents == old(contents) + data
    {
      WriteBlock(|contents|, data);
    }

    method Append8(value: Byte)
      modifies this`contents
      ensures contents == old(contents) + [value]
    {
      Write8(|contents|, value);
    }

    method Read16(offset: nat) returns (value: Word)
      ensures value == WordAt(contents, offset)
    {
      var byte0, byte1 := FILLER, FILLER;
      if offset < |contents| { byte0 := contents[offset]; }
      if offset + 1 < |contents| { byte1 := contents[offset + 1]; }
      value := MakeWord(byte0, byte1);
    }
  }

  /** A section as a value, and the table with the section being assembled into. */
  datatype Record = Record(name: string, contents: Bytes)

  datatype State = State(records: seq<Record>, current: nat) {

    ghost predicate Valid()
    {
      && current < |records|
      && forall i, j | 0 <= i < j < |records| :: records[i].name != records[j].name
    }

    /** The position of a name, or the length of the table. */
    function Find(name: string, from: nat := 0): (i: nat)
      requires from <= |records|
      ensures from <= i <= |records|
      ensures i < |records| ==> records[i].name == name
      ensures forall j | from <= j < i :: records[j].name != name
      decreases |records| - from
    {
      if from == |records| || records[from].name == name then from else Find(name, from + 1)
    }

    /** `set_section`: an empty lone section takes the name; a known name is resumed; else a new section. */
    function Select(name: string): State
    {
      if |records| == 1 && records[0].contents == [] then this.(records := [Record(name, [])])
      else
        var i := Find(name);
        if i < |records| then this.(current := i)
        else State(records + [Record(name, [])], |records|)
    }

    function Append(data: Bytes): State
      requires current < |records|
    {
      var r := records[current];
      this.(records := records[current := r.(contents := r.contents + data)])
    }

    /** What is stored under a name. */
    function Stored(name: string): Bytes
    {
      var i := Find(name);
      if i < |records| then records[i].contents else []
    }
  }

  datatype Operation = Selecting(name: string) | Appending(data: Bytes)

  function Step(s: State, op: Operation): State
    requires s.current < |s.records|
  {
    match op
    case Selecting(name) => s.Select(name)
    case Appending(data) => s.Append(data)
  }

  function Run(s: State, ops: seq<Operation>): State
    requires s.current < |s.records|
    decreases ops
  {
    if ops == [] then s else Run(Step(s, ops[0]), ops[1..])
  }

  /** The bytes appended while `name` was the section selected last, in program order. */
  function Fragments(ops: seq<Operation>, name: string, selected: string): Bytes
  {
    if ops == [] then []
    else
      match ops[0]
      case Selecting(other) => Fragments(ops[1..], name, other)
      case Appending(data) => (if name == selected then data else []) + Fragments(ops[1..], name, selected)
  }

  lemma FindUnique(s: State, i: nat)
    requires s.Valid() && i < |s.records|
    ensures s.Find(s.records[i].name) == i
  {
  }

  lemma StoredAt(s: State, i: nat)
    requires s.Valid() && i < |s.records|
    ensures s.Stored(s.records[i].name) == s.records[i].contents
  {
    FindUnique(s, i);
  }

  /** One step keeps the table well formed, keeps every section at its number, and moves the
      selected name; selecting stores nothing and appending stores at the selected name's end. */
  lemma StepSound(s: State, op: Operation, name: string)
    requires s.Valid()
    ensures var t := Step(s, op);
            && t.Valid() && |s.records| <= |t.records|
            && (match op
                case Selecting(n) => t.records[t.current].name == n && t.Stored(name) == s.Stored(name)
                case Appending(d) =>
                  && t.records[t.current].name == s.records[s.current].name
                  && t.Stored(name) == s.Stored(name) + if name == s.records[s.current].name then d else [])
  {
    var t := Step(s, op);
    match op {
      case Selecting(n) =>
        if |s.records| == 1 && s.records[0].contents == [] {
          assert t.records == [Record(n, [])];
        } else {
          var i := s.Find(name);
          if i < |s.records| { StoredAt(t, i); StoredAt(s, i); }
        }
      case Appending(d) =>
        assert t.Valid();
        var i := s.Find(name);
        if i < |s.records| { StoredAt(t, i); StoredAt(s, i); FindUnique(s, s.current); }
    }
  }

  /** Over any run: the table stays well formed, and what is stored under each name is what was there,
      followed by the fragments assembled while that name was selected, in program order. A name that is
      selected again is therefore resumed at its end, and renaming the first empty section loses nothing. */
  lemma {:induction false} RunConcatenates(s: State, ops: seq<Operation>, name: string)
    requires s.Valid()
    ensures Run(s, ops).Valid()
    ensures Run(s, ops).Stored(name) == s.Stored(name) + Fragments(ops, name, s.records[s.current].name)
    decreases ops
  {
    if ops != [] {
      StepSound(s, ops[0], name);
      RunConcatenates(Step(s, ops[0]), ops[1..], name);
    }
  }

  lemma AppendNothing(s: State)
    requires s.current < |s.records|
    ensures s.Append([]) == s
  {
    assert s.records[s.current].contents + [] == s.records[s.current].contents;
  }

  lemma AppendTwice(s: State, first: Bytes, second: Bytes)
    requires s.current < |s.records|
    ensures s.Append(first).Append(second) == s.Append(first + second)
  {
    assert s.records[s.current].contents + first + second == s.records[s.current].contents + (first + second);
  }

  class SectionTable {
    var table: seq<Section>
    var located: seq<Section>
    var current: Section?

    /** Numbers are positions, names differ, flags follow names, and the current section is in the table. */
    ghost predicate Valid()
      reads this, table
    {
      && (forall i | 0 <= i < |table| :: table[i].number == i && table[i].kind == KindOf(table[i].name))
      && (forall i, j | 0 <= i < j < |table| :: table[i].name != table[j].name)
      && (if table == [] then current == null else current in table)
    }

    ghost function Model(): State
      requires Valid() && table != []
      reads this, table
    {
      State(seq(|table|, i requires 0 <= i < |table| reads this, table => Record(table[i].name, table[i].contents)),
            current.number)
    }

    ghost function Contents(): (c: seq<Bytes>)
      reads this, table
      ensures |c| == |table| && forall i | 0 <= i < |c| :: c[i] == table[i].contents
    {
      seq(|table|, i requires 0 <= i < |table| reads this, table => table[i].contents)
    }

    constructor ()
      ensures Valid() && table == [] && located == []
    {
      table, located, current := [], [], null;
    }

    /** The index of a section, or the length of the table. */
    method IndexOf(name: string) returns (number: nat)
      requires Valid()
      ensures number <= |table| && (number < |table| ==> table[number].name == name)
      ensures forall i | 0 <= i < number :: table[i].name != name
      ensures table != [] ==> number == Model().Find(name)
    {
      number := 0;
      while number < |table|
        invariant 0 <= number <= |table|
        invariant forall i | 0 <= i < number :: table[i].name != name
        invariant table != [] ==> Model().Find(name) == Model().Find(name, number)
      {
        if table[number].name == name { return; }
        number := number + 1;
      }
    }

    /** `Sections::set_section`; `main` makes the first call, on an empty table. */
    method SetSection(name: string)
      requires Valid()
      modifies this`table, this`current, table
      ensures Valid() && table != [] && old(table) <= table && fresh(set s | s in table[|old(table)|..])
      ensures Model() == if old(table) == [] then State([Record(name, [])], 0) else old(Model()).Select(name)
    {
      hide State.Find;
      if |table| == 1 && |table[0].contents| == 0 {
        Rename(name);
        return;
      }
      var number := IndexOf(name);
      if number < |table| {
        Resume(number);
        return;
      }
      Push(name);
    }

    /** The lone section, still empty, takes another name. */
    method Rename(name: string)
      requires Valid() && |table| == 1 && table[0].contents == []
      modifies table
      ensures Valid() && Model() == State([Record(name, [])], 0)
    {
      table[0].name := name;
      table[0].kind := KindOf(name);
    }

    method Resume(number: nat)
      requires Valid() && number < |table|
      modifies this`current
      ensures Valid() && Model() == old(Model()).(current := number)
    {
      current := table[number];
    }

    /** Appends to the current section. */
    method AppendHere(data: Bytes)
      requires Valid() && table != []
      modifies current`contents
      ensures Valid() && Model() == old(Model()).Append(data)
    {
      current.AppendBlock(data);
    }

    /** Appends one byte to the current section. */
    method Append8Here(value: Byte)
      requires Valid() && table != []
      modifies current`contents
      ensures Valid() && Model() == old(Model()).Append([value])
    {
      current.Append8(value);
    }

    /** Reserves room at the end of the current section. */
    method IncreaseHere(size: nat)
      requires Valid() && table != []
      modifies current`contents
      ensures Valid() && Model() == old(Model()).Append(Repeat(FILLER, size))
    {
      current.Increase(size);
    }

    /** Opens a new section at the end of the table. */
    method Push(name: string)
      requires Valid() && forall i | 0 <= i < |table| :: table[i].name != name
      modifies this`table, this`current
      ensures Valid() && |table| == |old(table)| + 1 && old(table) <= table && fresh(table[|old(table)|])
      ensures Model() == State((if old(table) == [] then [] else old(Model()).records) + [Record(name, [])],
                               |old(table)|)
    {
      var s := new Section(name, |table|, KindOf(name));
      table := table + [s];
      current := s;
    }
  }
}
