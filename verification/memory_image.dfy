/** Loading the placed sections into memory. */
module MemoryImages {
  import opened Bits
  import opened Sections
  import opened Placement
  import opened MemorySpaces

  /** A section with its final address, as a value. */
  datatype Resident = Resident(kind: Kind, base: nat, contents: Bytes) {
    function Extent(): Span { Span(base, |contents|) }

    predicate Covers(address: nat) { kind == Loadable && base <= address < base + |contents| }
  }

  type Image = seq<Resident>

  /** Loading section after section, in table order. */
  function LoadAll(m: Bytes, n: nat, image: Image): (r: Bytes)
    requires |m| == Pow2(n)
    ensures |r| == Pow2(n)
    decreases |image|
  {
    if image == [] then m
    else
      var p := image[0];
      LoadAll(if p.kind == Loadable then Stored(m, n, p.base, p.contents) else m, n, image[1..])
  }

  /** Sections that overlap nowhere and end within the address space. */
  ghost predicate Fits(image: Image, n: nat)
  {
    && (forall i | 0 <= i < |image| :: image[i].Extent().End() <= Pow2(n))
    && (forall i, j | 0 <= i < j < |image| :: !Conflict(image[j].Extent(), image[i].Extent()))
  }

  lemma FitsTail(image: Image, n: nat)
    requires Fits(image, n) && image != []
    ensures Fits(image[1..], n)
  {
    hide Pow2, Conflict;
    forall i, j | 0 <= i < j < |image[1..]| ensures !Conflict(image[1..][j].Extent(), image[1..][i].Extent()) {
      assert image[1..][i] == image[i + 1] && image[1..][j] == image[j + 1];
    }
  }

  /** One section's bytes go to `base` and up, and nowhere else. */
  lemma StoredSection(m: Bytes, n: nat, p: Resident, address: nat)
    requires |m| == Pow2(n) && p.Extent().End() <= Pow2(n) && address < Pow2(n)
    ensures Stored(m, n, p.base, p.contents)[address]
            == if p.base <= address < p.base + |p.contents| then p.contents[address - p.base] else m[address]
  {
    hide Pow2, LowBits, Stored;
    if p.contents == [] {
      StoredNothing(m, n, p.base, p.contents);
    } else {
      SmallLowBits(p.base, n);
      StoredInPlace(m, n, p.base, p.contents);
    }
  }

  /** Memory that no loadable section covers is left alone. */
  lemma {:induction false} LoadMiss(m: Bytes, n: nat, image: Image, address: nat)
    requires |m| == Pow2(n) && Fits(image, n) && address < Pow2(n)
    requires forall i | 0 <= i < |image| :: !image[i].Covers(address)
    ensures LoadAll(m, n, image)[address] == m[address]
    decreases |image|
  {
    hide Pow2, Stored;
    if image != [] {
      var p := image[0];
      FitsTail(image, n);
      StoredSection(m, n, p, address);
      LoadMiss(if p.kind == Loadable then Stored(m, n, p.base, p.contents) else m, n, image[1..], address);
    }
  }

  /** A loadable section's bytes are in memory at its address. */
  lemma {:induction false} LoadHit(m: Bytes, n: nat, image: Image, k: nat, address: nat)
    requires |m| == Pow2(n) && Fits(image, n) && k < |image| && image[k].Covers(address)
    ensures address < Pow2(n)
    ensures LoadAll(m, n, image)[address] == image[k].contents[address - image[k].base]
    decreases |image|
  {
    hide Pow2, Stored;
    var p := image[0];
    FitsTail(image, n);
    var next := if p.kind == Loadable then Stored(m, n, p.base, p.contents) else m;
    if k > 0 {
      LoadHit(next, n, image[1..], k - 1, address);
    } else {
      StoredSection(m, n, p, address);
      forall i | 0 <= i < |image[1..]| ensures !image[1..][i].Covers(address) {
        assert !Conflict(image[i + 1].Extent(), p.Extent());
      }
      LoadMiss(next, n, image[1..], address);
    }
  }

  /** The order of the table does not matter: the same sections make the same memory. */
  lemma LoadOrderIrrelevant(m: Bytes, n: nat, image: Image, other: Image)
    requires |m| == Pow2(n) && Fits(image, n) && Fits(other, n)
    requires forall p :: p in image <==> p in other
    ensures LoadAll(m, n, image) == LoadAll(m, n, other)
  {
    hide LoadAll, Pow2;
    forall address | 0 <= address < Pow2(n) ensures LoadAll(m, n, image)[address] == LoadAll(m, n, other)[address] {
      if k :| 0 <= k < |image| && image[k].Covers(address) {
        assert image[k] in other;
        var j :| 0 <= j < |other| && other[j] == image[k];
        LoadHit(m, n, image, k, address);
        LoadHit(m, n, other, j, address);
      } else {
        forall j | 0 <= j < |other| ensures !other[j].Covers(address) { assert other[j] in image; }
        LoadMiss(m, n, image, address);
        LoadMiss(m, n, other, address);
      }
    }
  }

  ghost function ResidentOf(s: Section): Resident
    reads s
  {
    Resident(s.kind, s.baseAddress, s.contents)
  }

  /** The table's sections as values. */
  ghost function ImageOf(table: seq<Section>): (image: Image)
    reads table
    ensures |image| == |table| && forall i | 0 <= i < |image| :: image[i] == ResidentOf(table[i])
  {
    seq(|table|, i requires 0 <= i < |table| reads table => ResidentOf(table[i]))
  }

  lemma {:induction false} LoadSnoc(m: Bytes, n: nat, image: Image, p: Resident)
    requires |m| == Pow2(n)
    ensures LoadAll(m, n, image + [p])
            == var r := LoadAll(m, n, image); if p.kind == Loadable then Stored(r, n, p.base, p.contents) else r
    decreases |image|
  {
    hide Pow2, Stored;
    if image == [] {
      assert image + [p] == [p];
    } else {
      var q := image[0];
      assert (image + [p])[1..] == image[1..] + [p];
      LoadSnoc(if q.kind == Loadable then Stored(m, n, q.base, q.contents) else m, n, image[1..], p);
    }
  }

  /** `Sections::load_memory_space` */
  method LoadMemorySpace(table: seq<Section>, memory: MemorySpace)
    requires memory.Valid() && forall s | s in table :: s !in memory.repr
    modifies memory.repr
    ensures memory.Valid() && fresh(memory.repr - old(memory.repr))
    ensures memory.Flat() == LoadAll(old(memory.Flat()), memory.Bits(), ImageOf(table))
  {
    hide LoadAll, Stored, Pow2, MemorySpace.Flat;
    ghost var before, image := memory.Flat(), ImageOf(table);
    assert LoadAll(before, memory.Bits(), image[..0]) == before by { LoadNothing(before, memory.Bits(), image[..0]); }
    for i := 0 to |table|
      invariant memory.Valid() && fresh(memory.repr - old(memory.repr)) && ImageOf(table) == image
      invariant memory.Flat() == LoadAll(before, memory.Bits(), image[..i])
    {
      var section := table[i];
      assert image[..i + 1] == image[..i] + [ResidentOf(section)];
      LoadSnoc(before, memory.Bits(), image[..i], ResidentOf(section));
      if section.kind != Loadable { continue; }
      memory.Write(section.baseAddress, section.contents);
    }
    assert image[..|table|] == image;
  }

  lemma LoadNothing(m: Bytes, n: nat, nothing: Image)
    requires |m| == Pow2(n) && nothing == []
    ensures LoadAll(m, n, nothing) == m
  {
  }
}
