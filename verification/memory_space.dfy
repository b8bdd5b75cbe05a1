/** The assembler's memory: pages allocated on first write, behind a table of pages. */
module MemorySpaces {
  import opened Bits
  import opened Machine
  import opened Sections

  /** A flat memory of `2^n` bytes after storing `data` from `address` on, wrapping at the top. */
  function Stored(m: Bytes, n: nat, address: nat, data: Bytes): (r: Bytes)
    requires |m| == Pow2(n)
    ensures |r| == Pow2(n)
    decreases |data|
  {
    if data == [] then m else Stored(m[LowBits(address, n) := data[0]], n, address + 1, data[1..])
  }

  function Loaded(m: Bytes, n: nat, address: nat, size: nat): (r: Bytes)
    requires |m| == Pow2(n)
    ensures |r| == size
  {
    seq(size, i requires 0 <= i < size => m[LowBits(address + i, n)])
  }

  lemma {:induction false} StoredInParts(m: Bytes, n: nat, address: nat, first: Bytes, rest: Bytes)
    requires |m| == Pow2(n)
    ensures Stored(m, n, address, first + rest)
            == Stored(Stored(m, n, address, first), n, address + |first|, rest)
    decreases |first|
  {
    if first == [] {
      assert first + rest == rest;
    } else {
      assert (first + rest)[1..] == first[1..] + rest;
      StoredInParts(m[LowBits(address, n) := first[0]], n, address + 1, first[1..], rest);
    }
  }

  lemma LoadedInParts(m: Bytes, n: nat, address: nat, size: nat, more: nat)
    requires |m| == Pow2(n)
    ensures Loaded(m, n, address, size + more) == Loaded(m, n, address, size) + Loaded(m, n, address + size, more)
  {
    hide LowBits, Pow2;
    var all, parts := Loaded(m, n, address, size + more), Loaded(m, n, address, size)
        + Loaded(m, n, address + size, more);
    forall i | 0 <= i < |all| ensures all[i] == parts[i] {
      if i >= size { assert address + i == address + size + (i - size); }
    }
  }

  lemma StoredNothing(m: Bytes, n: nat, address: nat, nothing: Bytes)
    requires |m| == Pow2(n) && nothing == []
    ensures Stored(m, n, address, nothing) == m
  {
  }

  lemma SlicesJoin(source: Bytes, done: nat, chunk: Bytes)
    requires done + |chunk| <= |source| && chunk == source[done..done + |chunk|]
    ensures source[..done] + chunk == source[..done + |chunk|] && |source[..done]| == done
  {
  }

  lemma StoredPrefix(m: Bytes, n: nat, address: nat, source: Bytes, done: nat, chunk: Bytes)
    requires |m| == Pow2(n) && done + |chunk| <= |source| && chunk == source[done..done + |chunk|]
    ensures Stored(m, n, address, source[..done + |chunk|])
            == Stored(Stored(m, n, address, source[..done]), n, address + done, chunk)
  {
    hide Stored, Pow2, LowBits;
    SlicesJoin(source, done, chunk);
    StoredInParts(m, n, address, source[..done], chunk);
  }

  lemma {:induction false} WrapNext(address: nat, n: nat, i: nat)
    requires LowBits(address, n) + i < Pow2(n)
    ensures LowBits(address + i, n) == LowBits(address, n) + i
  {
    LowBitsAdd(address, i, n);
    SmallLowBits(LowBits(address, n) + i, n);
  }

  lemma StoredStep(m: Bytes, n: nat, address: nat, data: Bytes)
    requires |m| == Pow2(n)
    ensures LowBits(address, n) < |m|
    ensures Stored(m, n, address, data)
            == if data == [] then m else Stored(m[LowBits(address, n) := data[0]], n, address + 1, data[1..])
  {
  }

  /** Data that does not reach the top lands in one piece. */
  lemma {:induction false} StoredInPlace(m: Bytes, n: nat, address: nat, data: Bytes)
    requires |m| == Pow2(n) && LowBits(address, n) + |data| <= Pow2(n)
    ensures var start := LowBits(address, n);
            Stored(m, n, address, data) == m[..start] + data + m[start + |data|..]
    decreases |data|
  {
    hide LowBits, Pow2;
    var start := LowBits(address, n);
    StoredStep(m, n, address, data);
    if data == [] {
      assert m[..start] + data + m[start..] == m;
    } else {
      var next := m[start := data[0]];
      if |data| > 1 {
        WrapNext(address, n, 1);
        StoredInPlace(next, n, address + 1, data[1..]);
        assert next[..start + 1] + data[1..] + next[start + |data|..] == m[..start] + data + m[start + |data|..];
      } else {
        assert next == m[..start] + data + m[start + 1..];
      }
    }
  }

  /** The cell that byte `i` of a transfer at `address` goes to. */
  function Cell(n: nat, address: nat, i: nat): (c: nat)
    ensures c < Pow2(n)
  {
    LowBits(address + i, n)
  }

  /** A cell no byte goes to keeps its contents. */
  lemma {:induction false} StoredMiss(m: Bytes, n: nat, address: nat, data: Bytes, j: nat)
    requires |m| == Pow2(n) && j < Pow2(n)
    requires forall i | 0 <= i < |data| :: Cell(n, address, i) != j
    ensures Stored(m, n, address, data)[j] == m[j]
    decreases |data|
  {
    if data != [] {
      assert Cell(n, address, 0) != j;
      var after := address + 1;
      forall i | 0 <= i < |data| - 1 ensures Cell(n, after, i) != j {
        assert Cell(n, address, i + 1) != j;
      }
      StoredMiss(m[LowBits(address, n) := data[0]], n, after, data[1..], j);
    }
  }

  /** Data no longer than the space is found where it was stored. */
  lemma {:induction false} StoredHit(m: Bytes, n: nat, address: nat, data: Bytes, i: nat)
    requires |m| == Pow2(n) && i < |data| <= Pow2(n)
    ensures Stored(m, n, address, data)[Cell(n, address, i)] == data[i]
    decreases |data|
  {
    var next := m[LowBits(address, n) := data[0]];
    if i > 0 {
      StoredHit(next, n, address + 1, data[1..], i - 1);
    } else {
      var after := address + 1;
      forall k | 0 <= k < |data| - 1 ensures Cell(n, after, k) != Cell(n, address, 0) {
        DistinctAddresses(address, n, k + 1);
      }
      StoredMiss(next, n, after, data[1..], Cell(n, address, 0));
    }
  }

  lemma DistinctAddresses(address: nat, n: nat, i: nat)
    requires 0 < i < Pow2(n)
    ensures LowBits(address + i, n) != LowBits(address, n)
  {
    hide Pow2, LowBits;
    var r, p := LowBits(address, n), Pow2(n);
    LowBitsAdd(address, i, n);
    if r + i < p {
      SmallLowBits(r + i, n);
    } else {
      assert 1 * p + (r + i - p) == r + i;
      LowBitsMultiple(1, r + i - p, n);
      SmallLowBits(r + i - p, n);
    }
  }

  function Log2(n: nat): nat { if n <= 1 then 0 else 1 + Log2(n / 2) }

  lemma {:induction false} AndSelf(x: nat)
    ensures Bitwise(And, x, x) == x
  {
    if x > 0 { AndSelf(x / 2); }
  }

  lemma PowersStep(h: nat)
    requires h > 0
    ensures Pow2(Log2(2 * h)) == Pow2(Log2(2 * h + 1)) == 2 * Pow2(Log2(h))
  {
    assert 2 * h / 2 == h && (2 * h + 1) / 2 == h;
  }

  /** The test `(n & (n - 1)) == 0` of the constructor singles out the powers of two. */
  lemma {:induction false} PowerOfTwo(n: nat)
    requires n > 0
    ensures Bitwise(And, n, n - 1) == 0 <==> n == Pow2(Log2(n))
  {
    if n > 1 {
      var h := n / 2;
      PowersStep(h);
      if n % 2 == 0 {
        assert Bitwise(And, n, n - 1) == 2 * Bitwise(And, h, h - 1) && n == 2 * h;
        PowerOfTwo(h);
      } else {
        assert Bitwise(And, n, n - 1) == 2 * Bitwise(And, h, h) && n == 2 * h + 1;
        AndSelf(h);
      }
    }
  }

  /** `mylog2` */
  method MyLog2(n: nat) returns (bits: nat)
    ensures bits == Log2(n)
  {
    var m := n;
    bits := 0;
    while m > 1
      invariant bits + Log2(m) == Log2(n)
    {
      bits := bits + 1;
      m := m / 2;
    }
  }

  class MemorySpace {
    const pageSize: nat
    const pageBits: nat
    const pageMask: nat
    const tableSize: nat
    const tableBits: nat
    const tableMask: nat
    const present: array<bool>
    const data: array<array<Byte>>
    const pageZero: array<Byte>
    ghost var repr: set<object>

    /** The shared zero page is all zero and stands for every absent page; present pages are distinct. */
    ghost predicate Valid()
      reads this, repr
    {
      && pageSize == Pow2(pageBits) && pageMask == pageSize - 1
      && tableSize == Pow2(tableBits) && tableMask == tableSize - 1
      && this in repr && present in repr && data in repr && pageZero in repr
      && present.Length == tableSize == data.Length && pageZero.Length == pageSize
      && (forall i | 0 <= i < pageSize :: pageZero[i] == 0)
      && (forall p | 0 <= p < tableSize :: data[p] in repr && data[p].Length == pageSize)
      && (forall p | 0 <= p < tableSize :: present[p] <==> data[p] != pageZero)
      && (forall p, q | 0 <= p < q < tableSize && present[p] && present[q] :: data[p] != data[q])
    }

    /** The number of address bits. */
    function Bits(): nat { pageBits + tableBits }

    ghost function ByteAt(address: nat): Byte
      requires Valid() && address < Pow2(Bits())
      reads this, repr
    {
      PageInTable(address);
      data[ShiftRight(address, pageBits)][LowBits(address, pageBits)]
    }

    lemma PageInTable(address: nat)
      requires Valid() && address < Pow2(Bits())
      ensures ShiftRight(address, pageBits) < tableSize
    {
      PageBelow(address, pageBits, tableBits);
    }

    /** The memory as one flat array. */
    ghost function Flat(): (m: Bytes)
      requires Valid()
      reads this, repr
      ensures |m| == Pow2(Bits()) && forall i | 0 <= i < |m| :: m[i] == ByteAt(i)
    {
      seq(Pow2(Bits()), i requires 0 <= i < Pow2(Bits()) && Valid() reads this, repr => ByteAt(i))
    }

    /** The table index and the offset in the page of an address. */
    function PageIndex(address: nat): nat { Bitwise(And, ShiftRight(address, pageBits), tableMask) }

    function ByteOffset(address: nat): nat { Bitwise(And, address, pageMask) }

    /** Masks and shifts find the page and offset of the wrapped address. */
    lemma Addressing(address: nat)
      requires Valid()
      ensures PageIndex(address) < tableSize && ByteOffset(address) < pageSize
      ensures var cell := LowBits(address, Bits());
              && cell == PageIndex(address) * pageSize + ByteOffset(address)
              && ShiftRight(cell, pageBits) == PageIndex(address) && LowBits(cell, pageBits) == ByteOffset(address)
    {
      hide Pow2, LowBits, ShiftRight;
      AndMask(ShiftRight(address, pageBits), tableBits);
      AndMask(address, pageBits);
      LowBitsSplit(address, pageBits, tableBits);
      SplitUnique(PageIndex(address), ByteOffset(address), pageBits);
    }

    constructor (pageSize: nat, spaceSize: nat)
      requires 0 < pageSize <= spaceSize && Bitwise(And, pageSize, pageSize - 1) == 0
      requires Bitwise(And, spaceSize / pageSize, spaceSize / pageSize - 1) == 0
      ensures Valid() && fresh(repr)
      ensures this.pageSize == pageSize && tableSize == spaceSize / pageSize
      ensures forall i | 0 <= i < |Flat()| :: Flat()[i] == 0
    {
      hide Bitwise, Pow2, Log2, LowBits, ShiftRight;
      PowerOfTwo(pageSize);
      PowerOfTwo(spaceSize / pageSize);
      this.pageSize := pageSize;
      var bits := MyLog2(pageSize);
      pageBits := bits;
      pageMask := pageSize - 1;
      var count := spaceSize / pageSize;
      tableSize := count;
      bits := MyLog2(count);
      tableBits := bits;
      tableMask := count - 1;
      var zero := new Byte[pageSize](_ => 0);
      pageZero := zero;
      present := new bool[count](_ => false);
      data := new array<Byte>[count](_ => zero);
      new;
      repr := {this, present, data, pageZero};
      forall i | 0 <= i < Pow2(Bits()) ensures ByteAt(i) == 0 { PageBelow(i, pageBits, tableBits); }
    }

    /** A page that is written for the first time gets a zeroed page of its own. */
    method MakePresent(p: nat)
      requires Valid() && p < tableSize
      modifies this`repr, present, data
      ensures Valid() && fresh(repr - old(repr)) && present[p] && Flat() == old(Flat())
    {
      if !present[p] {
        var page := new Byte[pageSize](_ => 0);
        data[p] := page;
        present[p] := true;
        repr := repr + {page};
        forall i | 0 <= i < Pow2(Bits()) ensures ByteAt(i) == old(ByteAt(i)) {
          PageBelow(i, pageBits, tableBits);
        }
      }
    }

    /** Copies bytes into one page. */
    method CopyIn(p: nat, offset: nat, chunk: Bytes)
      requires Valid() && p < tableSize && present[p] && offset + |chunk| <= pageSize
      modifies data[p]
      ensures Valid() && forall i | 0 <= i < Pow2(Bits()) :: ByteAt(i) == Patched(old(ByteAt(i)), p, offset, chunk, i)
    {
      var page := data[p];
      forall i | 0 <= i < |chunk| { page[offset + i] := chunk[i]; }
      forall i | 0 <= i < Pow2(Bits()) ensures ByteAt(i) == Patched(old(ByteAt(i)), p, offset, chunk, i) {
        PageBelow(i, pageBits, tableBits);
      }
    }

    /** The byte at address `i` once `chunk` is in page `p`. */
    function Patched(was: Byte, p: nat, offset: nat, chunk: Bytes, i: nat): Byte
    {
      var o := LowBits(i, pageBits);
      if ShiftRight(i, pageBits) == p && offset <= o < offset + |chunk| then chunk[o - offset] else was
    }

    lemma PatchedRange(was: Byte, p: nat, offset: nat, chunk: Bytes, i: nat)
      requires Valid() && offset + |chunk| <= pageSize
      ensures var start := p * pageSize + offset;
              Patched(was, p, offset, chunk, i) == if start <= i < start + |chunk| then chunk[i - start] else was
    {
      hide Pow2, LowBits, ShiftRight;
      PageRange(i, p, offset, |chunk|, pageBits);
    }

    /** A page with a chunk copied into it, in the flat memory. */
    lemma ChunkInPlace(before: Bytes, p: nat, offset: nat, chunk: Bytes)
      requires Valid() && p < tableSize && offset + |chunk| <= pageSize && |before| == Pow2(Bits())
      requires forall i | 0 <= i < Pow2(Bits()) :: ByteAt(i) == Patched(before[i], p, offset, chunk, i)
      ensures p * pageSize + offset + |chunk| <= Pow2(Bits())
      ensures Flat() == before[..p * pageSize + offset] + chunk + before[p * pageSize + offset + |chunk|..]
    {
      hide Pow2, LowBits, ShiftRight, MemorySpace.Patched, MemorySpace.ByteAt;
      var start := p * pageSize + offset;
      PageEnd(p, offset, |chunk|, pageBits, tableBits);
      var after := before[..start] + chunk + before[start + |chunk|..];
      forall i | 0 <= i < Pow2(Bits()) ensures Flat()[i] == after[i] {
        PatchedRange(before[i], p, offset, chunk, i);
      }
    }

    /** One round of `write`: part of one page, made present if need be. */
    method WriteChunk(p: nat, offset: nat, chunk: Bytes)
      requires Valid() && p < tableSize && offset + |chunk| <= pageSize
      modifies repr
      ensures Valid() && fresh(repr - old(repr))
      ensures p * pageSize + offset + |chunk| <= Pow2(Bits())
      ensures Flat() == old(Flat())[..p * pageSize + offset] + chunk + old(Flat())[p * pageSize + offset + |chunk|..]
    {
      hide Pow2, LowBits, ShiftRight, MemorySpace.Patched, MemorySpace.ByteAt;
      MakePresent(p);
      ghost var before := Flat();
      CopyIn(p, offset, chunk);
      ChunkInPlace(before, p, offset, chunk);
    }

    /** One round of `write`, seen from the flat memory. */
    method WriteRound(p: nat, offset: nat, chunk: Bytes, ghost address: nat)
      requires Valid() && p == PageIndex(address) && offset == ByteOffset(address) && offset + |chunk| <= pageSize
      modifies repr
      ensures Valid() && fresh(repr - old(repr))
      ensures Flat() == Stored(old(Flat()), Bits(), address, chunk)
    {
      hide Pow2, LowBits, ShiftRight, Stored, Bitwise;
      Addressing(address);
      WriteChunk(p, offset, chunk);
      StoredInPlace(old(Flat()), Bits(), address, chunk);
    }

    /** `Memory_space::write` */
    method Write(address: nat, source: Bytes)
      requires Valid()
      modifies repr
      ensures Valid() && fresh(repr - old(repr))
      ensures Flat() == Stored(old(Flat()), Bits(), address, source)
    {
      hide Pow2, LowBits, ShiftRight, Stored, Bitwise, PageIndex, ByteOffset;
      ghost var before := Flat();
      StoredNothing(before, Bits(), address, source[..0]);
      var p, offset, done := PageIndex(address), ByteOffset(address), 0;
      while done < |source|
        invariant 0 <= done <= |source| && Valid() && fresh(repr - old(repr))
        invariant Flat() == Stored(before, Bits(), address, source[..done])
        invariant done < |source| ==> p == PageIndex(address + done) && offset == ByteOffset(address + done)
      {
        Addressing(address + done);
        var n := if |source| - done < pageSize - offset then |source| - done else pageSize - offset;
        ghost var rest := pageSize - offset;
        var chunk := source[done..done + n];
        StoredPrefix(before, Bits(), address, source, done, chunk);
        WriteRound(p, offset, chunk, address + done);
        NextPage(address + done, rest);
        done := done + n;
        p := Bitwise(And, p + 1, tableMask);
        offset := 0;
      }
      assert source[..done] == source;
    }

    /** `Memory_space::write8` */
    method Write8(address: nat, value: Byte)
      requires Valid()
      modifies repr
      ensures Valid() && fresh(repr - old(repr))
      ensures Flat() == Stored(old(Flat()), Bits(), address, [value])
    {
      Addressing(address);
      WriteRound(PageIndex(address), ByteOffset(address), [value], address);
    }

    /** `Memory_space::read8` */
    method Read8(address: nat) returns (value: Byte)
      requires Valid()
      ensures value == Flat()[LowBits(address, Bits())]
    {
      Addressing(address);
      value := data[PageIndex(address)][ByteOffset(address)];
    }

    /** `Memory_space::read16`; an even word lies within a page. */
    method Read16(address: nat) returns (value: Word)
      requires Valid() && pageBits > 0
      ensures value == MakeWord(Flat()[LowBits(address, Bits())], Flat()[LowBits(address + 1, Bits())])
    {
      if address % 2 != 0 {
        var low := Read8(address);
        var high := Read8(address + 1);
        return MakeWord(low, high);
      }
      Addressing(address);
      Addressing(address + 1);
      EvenNeighbour(address);
      var page, offset := data[PageIndex(address)], ByteOffset(address);
      value := MakeWord(page[offset], page[offset + 1]);
    }

    lemma EvenNeighbour(address: nat)
      requires Valid() && pageBits > 0 && address % 2 == 0
      ensures PageIndex(address + 1) == PageIndex(address) && ByteOffset(address + 1) == ByteOffset(address) + 1
    {
      hide Pow2, Bitwise;
      AndMask(address, pageBits);
      AndMask(address + 1, pageBits);
      assert (address + 1) / 2 == address / 2;
      assert ShiftRight(address + 1, pageBits) == ShiftRight(address, pageBits);
      assert LowBits(address + 1, pageBits) == LowBits(address, pageBits) + 1;
    }

    /** `Memory_space::read` */
    method Read(address: nat, size: nat) returns (buffer: Bytes)
      requires Valid()
      ensures buffer == Loaded(Flat(), Bits(), address, size)
    {
      hide Pow2, LowBits, ShiftRight, Bitwise, PageIndex, ByteOffset;
      var p, offset := PageIndex(address), ByteOffset(address);
      buffer := [];
      while |buffer| < size
        invariant |buffer| <= size && buffer == Loaded(Flat(), Bits(), address, |buffer|)
        invariant |buffer| < size ==>
            p == PageIndex(address + |buffer|) && offset == ByteOffset(address + |buffer|)
        decreases size - |buffer|
      {
        var done := |buffer|;
        Addressing(address + done);
        var n := if size - done < pageSize - offset then size - done else pageSize - offset;
        var chunk := ReadRound(p, offset, n, address + done);
        ghost var rest := pageSize - offset;
        LoadedInParts(Flat(), Bits(), address, done, n);
        NextPage(address + done, rest);
        buffer := buffer + chunk;
        p := Bitwise(And, p + 1, tableMask);
        offset := 0;
      }
    }

    /** One round of `read`: part of one page. */
    method ReadRound(p: nat, offset: nat, n: nat, ghost address: nat) returns (chunk: Bytes)
      requires Valid() && p == PageIndex(address) && offset == ByteOffset(address)
      requires p < tableSize && offset + n <= pageSize
      ensures chunk == Loaded(Flat(), Bits(), address, n)
    {
      hide Pow2, LowBits, ShiftRight, Bitwise;
      chunk := data[p][offset..offset + n];
      forall i | 0 <= i < n ensures chunk[i] == Flat()[LowBits(address + i, Bits())] {
        SamePage(address, i);
      }
    }

    lemma SamePage(address: nat, i: nat)
      requires Valid() && PageIndex(address) < tableSize && ByteOffset(address) + i < pageSize
      ensures Flat()[LowBits(address + i, Bits())] == data[PageIndex(address)][ByteOffset(address) + i]
    {
      hide Pow2, LowBits, ShiftRight, Bitwise;
      Addressing(address);
      PageEnd(PageIndex(address), ByteOffset(address), i + 1, pageBits, tableBits);
      WrapNext(address, Bits(), i);
      PageRange(LowBits(address + i, Bits()), PageIndex(address), ByteOffset(address) + i, 1, pageBits);
    }

    /** After the rest of a page, the next byte is the first of the following page, the first after the last. */
    lemma NextPage(address: nat, rest: nat)
      requires Valid() && rest == pageSize - ByteOffset(address)
      ensures PageIndex(address + rest) == Bitwise(And, PageIndex(address) + 1, tableMask)
      ensures ByteOffset(address + rest) == 0
    {
      hide Pow2, LowBits, ShiftRight, Bitwise;
      var q := ShiftRight(address, pageBits);
      AndMask(address, pageBits);
      ShiftRightSplit(address, pageBits);
      NextMultipleOf(q, Pow2(pageBits));
      SplitUnique(q + 1, 0, pageBits);
      AndMask(address + rest, pageBits);
      AndMask(q, tableBits);
      AndMask(q + 1, tableBits);
      AndMask(PageIndex(address) + 1, tableBits);
      LowBitsAdd(q, 1, tableBits);
    }
  }

  lemma NextMultipleOf(q: nat, p: nat)
    ensures q * p + p == (q + 1) * p
  {
  }

  lemma PageEnd(p: nat, offset: nat, size: nat, a: nat, b: nat)
    requires p < Pow2(b) && offset + size <= Pow2(a)
    ensures p * Pow2(a) + offset + size <= Pow2(a + b)
  {
    Pow2Sum(a, b);
    MulMonotone(p + 1, Pow2(b), Pow2(a), Pow2(a));
  }

  /** A stretch of a page is a stretch of addresses. */
  lemma PageRange(i: nat, p: nat, offset: nat, size: nat, a: nat)
    requires offset + size <= Pow2(a)
    ensures ShiftRight(i, a) == p && offset <= LowBits(i, a) < offset + size
            <==> p * Pow2(a) + offset <= i < p * Pow2(a) + offset + size
    ensures ShiftRight(i, a) == p ==> i == p * Pow2(a) + LowBits(i, a)
  {
    hide Pow2;
    ShiftRightSplit(i, a);
    if p * Pow2(a) + offset <= i < p * Pow2(a) + offset + size {
      SplitUnique(p, i - p * Pow2(a), a);
    }
  }

  lemma PageBelow(address: nat, a: nat, b: nat)
    requires address < Pow2(a + b)
    ensures ShiftRight(address, a) < Pow2(b)
  {
    hide Pow2;
    SmallLowBits(address, a + b);
    LowBitsSplit(address, a, b);
    ShiftRightSplit(address, a);
    SplitUnique(LowBits(ShiftRight(address, a), b), LowBits(address, a), a);
  }
}
