/** The Intel HEX output, and reading it back. */
module IntelHex {
  import opened Bits
  import opened Machine
  import opened Sections
  import opened Placement
  import opened MemorySpaces
  import opened MemoryImages

  /** One line: byte count, load address, type, data and checksum. */
  datatype Line = Line(count: nat, address: nat, kind: nat, data: Bytes, checksum: Byte)

  const END_OF_FILE := Line(0, 0, 1, [], 0xFF)

  function Sum(data: Bytes): nat
  {
    if data == [] then 0 else data[0] + Sum(data[1..])
  }

  /** Every `wordSize`-th byte of memory from `address` on. */
  function Stride(m: Bytes, n: nat, address: nat, count: nat, wordSize: nat): (data: Bytes)
    requires |m| == Pow2(n)
    ensures |data| == count
  {
    seq(count, j requires 0 <= j < count => m[LowBits(address + j * wordSize, n)])
  }

  function DataLine(address: nat, data: Bytes): Line
  {
    Line(|data|, address, 0, data, U8(-(|data| + address + address / 0x100 + Sum(data))))
  }

  /** The lines for `size` bytes: full lines of 16, then the rest. */
  function Lines(m: Bytes, n: nat, address: nat, size: nat, wordSize: nat): seq<Line>
    requires |m| == Pow2(n) && wordSize > 0
    decreases size
  {
    if size == 0 then []
    else
      var count := if size < 16 then size else 16;
      [DataLine(address / wordSize, Stride(m, n, address, count, wordSize))]
      + Lines(m, n, address + count * wordSize, size - count, wordSize)
  }

  datatype Range = Range(wordSize: nat, byteOrder: nat, lower: nat, higher: nat) {
    /** The part of a section that is in the range. */
    function Low(p: Resident): nat { if lower > p.base then lower else p.base }

    function High(p: Resident): nat { if higher < p.Extent().End() then higher else p.Extent().End() }
  }

  /** The data lines of the file: loadable sections in table order, up to the first one above the range. */
  function FileLines(m: Bytes, n: nat, image: Image, r: Range): seq<Line>
    requires |m| == Pow2(n) && r.wordSize > 0 && r.lower <= r.higher
    decreases |image|
  {
    if image == [] then []
    else
      var p := image[0];
      if p.kind != Loadable then FileLines(m, n, image[1..], r)
      else if r.higher < p.base then []
      else if r.lower >= p.Extent().End() then FileLines(m, n, image[1..], r)
      else
        Lines(m, n, r.Low(p) + r.byteOrder, (r.High(p) - r.Low(p)) / r.wordSize, r.wordSize)
        + FileLines(m, n, image[1..], r)
  }

  /** A line as the bytes its hexadecimal digits spell. */
  function LineBytes(l: Line): Bytes
  {
    [U8(l.count), U8(l.address / 0x100), U8(l.address), U8(l.kind)] + l.data + [l.checksum]
  }

  lemma {:induction false} SumConcat(a: Bytes, b: Bytes)
    ensures Sum(a + b) == Sum(a) + Sum(b)
    decreases a
  {
    if a == [] {
      assert a + b == b;
    } else {
      assert (a + b)[1..] == a[1..] + b;
      SumConcat(a[1..], b);
    }
  }

  lemma SumFour(a: Byte, b: Byte, c: Byte, d: Byte)
    ensures var sum: nat := Sum([a, b, c, d]); sum == a as int + b as int + c as int + d as int
  {
    assert [a, b, c, d][1..] == [b, c, d];
    assert [b, c, d][1..] == [c, d];
    assert [c, d][1..] == [d];
    assert [d][1..] == [];
    assert Sum([d]) == d && Sum([c, d]) == c + Sum([d]) && Sum([b, c, d]) == b + Sum([c, d]);
  }

  /** The bytes of a data line, checksum included, add up to zero modulo 256. */
  lemma ChecksumZero(address: nat, data: Bytes)
    requires address < 0x1_0000 && |data| <= 16
    ensures Sum(LineBytes(DataLine(address, data))) % 0x100 == 0
  {
    var l := DataLine(address, data);
    var head: Bytes := [U8(l.count), U8(l.address / 0x100), U8(l.address), U8(l.kind)];
    SumConcat(head + data, [l.checksum]);
    SumConcat(head, data);
    SumFour(U8(l.count), U8(l.address / 0x100), U8(l.address), U8(l.kind));
    assert Sum([l.checksum]) == l.checksum;
    assert LineBytes(l) == head + data + [l.checksum];
    var high := address / 0x100;
    assert address == 0x100 * high + U8(address) && U8(high) == high;
    ChecksumCancels(|data| + address + high + Sum(data), Sum(head) + Sum(data), high);
  }

  lemma ChecksumCancels(total: int, sum: int, k: int)
    requires total - sum == 0x100 * k
    ensures (sum + U8(-total)) % 0x100 == 0
  {
  }

  /** Reading a file back: each data byte with the address it is loaded at, in file order. */
  datatype LoadedByte = LoadedByte(address: nat, value: Byte)

  function Decode(lines: seq<Line>): seq<LoadedByte>
  {
    if lines == [] || lines[0].kind == 1 then []
    else
      var l := lines[0];
      seq(|l.data|, j requires 0 <= j < |l.data| => LoadedByte(l.address + j, l.data[j])) + Decode(lines[1..])
  }

  /** What reading one section's lines should give. */
  function Cells(m: Bytes, n: nat, address: nat, size: nat, wordSize: nat): (cells: seq<LoadedByte>)
    requires |m| == Pow2(n) && wordSize > 0
    ensures |cells| == size
  {
    seq(size, i requires 0 <= i < size => LoadedByte(address / wordSize + i, m[LowBits(address + i * wordSize, n)]))
  }

  lemma DivStep(a: nat, k: nat, w: nat)
    requires w > 0
    ensures (a + k * w) / w == a / w + k
  {
    var q, r := a / w, a % w;
    assert a + k * w == (q + k) * w + r;
    RemainderUnique(a + k * w, q + k, w, r);
  }

  /** The lines tile the section's bytes contiguously, whatever their number. */
  lemma {:induction false} DecodeLines(m: Bytes, n: nat, address: nat, size: nat, wordSize: nat, rest: seq<Line>)
    requires |m| == Pow2(n) && wordSize > 0
    ensures Decode(Lines(m, n, address, size, wordSize) + rest) == Cells(m, n, address, size, wordSize) + Decode(rest)
    decreases size
  {
    hide Pow2, LowBits;
    var lines := Lines(m, n, address, size, wordSize);
    if size == 0 {
      assert lines + rest == rest;
    } else {
      var count := if size < 16 then size else 16;
      var first := DataLine(address / wordSize, Stride(m, n, address, count, wordSize));
      var more := Lines(m, n, address + count * wordSize, size - count, wordSize);
      assert lines + rest == [first] + (more + rest);
      DecodeLines(m, n, address + count * wordSize, size - count, wordSize, rest);
      CellsSplit(m, n, address, count, size, wordSize);
    }
  }

  lemma CellsSplit(m: Bytes, n: nat, address: nat, count: nat, size: nat, wordSize: nat)
    requires |m| == Pow2(n) && wordSize > 0 && count <= size
    ensures Cells(m, n, address, size, wordSize)
            == Cells(m, n, address, count, wordSize)
               + Cells(m, n, address + count * wordSize, size - count, wordSize)
  {
    hide Pow2, LowBits;
    DivStep(address, count, wordSize);
    var all := Cells(m, n, address, size, wordSize);
    var parts := Cells(m, n, address, count, wordSize)
                 + Cells(m, n, address + count * wordSize, size - count, wordSize);
    forall i | 0 <= i < size ensures all[i] == parts[i] {
      if i >= count {
        assert address + count * wordSize + (i - count) * wordSize == address + i * wordSize;
      }
    }
  }

  /** Every data line carries 1 to 16 bytes and says so. */
  lemma {:induction false} LineSizes(m: Bytes, n: nat, address: nat, size: nat, wordSize: nat)
    requires |m| == Pow2(n) && wordSize > 0
    ensures forall l | l in Lines(m, n, address, size, wordSize) ::
              l.kind == 0 && l.count == |l.data| && 1 <= |l.data| <= 16
    decreases size
  {
    hide Pow2, LowBits;
    if size > 0 {
      var count := if size < 16 then size else 16;
      LineSizes(m, n, address + count * wordSize, size - count, wordSize);
    }
  }

  /** A line a loader accepts: 1 to 16 bytes, counted, below 64 KiB, and all its bytes adding up to zero. */
  predicate Loadable64K(l: Line)
  {
    && l.kind == 0 && l.count == |l.data| && 1 <= |l.data| <= 16 && l.address + |l.data| <= 0x1_0000
    && Sum(LineBytes(l)) % 0x100 == 0
  }

  /** The lines for `size` bytes stay below the address after the last one. */
  lemma {:induction false} LinesBelow(m: Bytes, n: nat, address: nat, size: nat, wordSize: nat)
    requires |m| == Pow2(n) && wordSize > 0
    ensures forall l | l in Lines(m, n, address, size, wordSize) ::
              l == DataLine(l.address, l.data) && l.address + |l.data| <= address / wordSize + size
    decreases size
  {
    hide Pow2, LowBits, Sum, U8;
    if size > 0 {
      var count := if size < 16 then size else 16;
      DivStep(address, count, wordSize);
      LinesBelow(m, n, address + count * wordSize, size - count, wordSize);
    }
  }

  lemma PartBelow(low: nat, high: nat, order: nat, w: nat)
    requires order < w && low <= high
    ensures (low + order) / w + (high - low) / w <= high
  {
    DivBelow(low + order, low, w);
    DivBelow(high - low, high - low, w);
  }

  lemma DivBelow(x: nat, y: nat, w: nat)
    requires w > 0 && x < y + w
    ensures x / w <= y
  {
    var q, r := x / w, x % w;
    assert x == q * w + r;
    if q > y { MulMonotone(y + 1, q, w, w); MulMonotone(y, y, 1, w); }
  }

  /** Every data line of a file whose sections end within 64 KiB is one a loader accepts, for any word size. */
  lemma {:induction false} FileTidy(m: Bytes, n: nat, image: Image, r: Range)
    requires |m| == Pow2(n) && r.lower <= r.higher && r.byteOrder < r.wordSize
    requires forall p | p in image :: p.Extent().End() <= 0x1_0000
    ensures forall l | l in FileLines(m, n, image, r) :: Loadable64K(l)
    decreases |image|
  {
    hide Pow2, Lines, Loadable64K;
    if image != [] {
      var p := image[0];
      FileTidy(m, n, image[1..], r);
      if p.kind == Loadable && r.lower < p.Extent().End() && p.base <= r.higher {
        var address, size := r.Low(p) + r.byteOrder, (r.High(p) - r.Low(p)) / r.wordSize;
        PartBelow(r.Low(p), r.High(p), r.byteOrder, r.wordSize);
        LineSizes(m, n, address, size, r.wordSize);
        LinesBelow(m, n, address, size, r.wordSize);
        forall l | l in Lines(m, n, address, size, r.wordSize) ensures Loadable64K(l) { TidyLine(l); }
      }
    }
  }

  lemma TidyLine(l: Line)
    requires l == DataLine(l.address, l.data) && 1 <= |l.data| <= 16 && l.address + |l.data| <= 0x1_0000
    ensures Loadable64K(l)
  {
    hide Sum, LineBytes;
    ChecksumZero(l.address, l.data);
  }

  lemma EndTidy()
    ensures Sum(LineBytes(END_OF_FILE)) % 0x100 == 0
  {
    SumFour(0, 0, 0, 1);
    SumConcat([0, 0, 0, 1], [0xFF]);
    assert LineBytes(END_OF_FILE) == [0, 0, 0, 1] + [0xFF];
    assert Sum([0xFF]) == 0xFF;
  }

  /** The bytes the file loads, section by section. */
  function FileCells(m: Bytes, n: nat, image: Image, r: Range): seq<LoadedByte>
    requires |m| == Pow2(n) && r.wordSize > 0 && r.lower <= r.higher
    decreases |image|
  {
    if image == [] then []
    else
      var p := image[0];
      if p.kind != Loadable then FileCells(m, n, image[1..], r)
      else if r.higher < p.base then []
      else if r.lower >= p.Extent().End() then FileCells(m, n, image[1..], r)
      else
        Cells(m, n, r.Low(p) + r.byteOrder, (r.High(p) - r.Low(p)) / r.wordSize, r.wordSize)
        + FileCells(m, n, image[1..], r)
  }

  /** Reading the whole file back, end-of-file line included. */
  lemma {:induction false} DecodeFile(m: Bytes, n: nat, image: Image, r: Range)
    requires |m| == Pow2(n) && r.wordSize > 0 && r.lower <= r.higher
    ensures Decode(FileLines(m, n, image, r) + [END_OF_FILE]) == FileCells(m, n, image, r)
    decreases |image|
  {
    hide Pow2, Lines, Cells;
    if image != [] {
      var p := image[0];
      if p.kind == Loadable && r.lower < p.Extent().End() && p.base <= r.higher {
        var address, size := r.Low(p) + r.byteOrder, (r.High(p) - r.Low(p)) / r.wordSize;
        var more := FileLines(m, n, image[1..], r);
        DecodeLines(m, n, address, size, r.wordSize, more + [END_OF_FILE]);
        assert Lines(m, n, address, size, r.wordSize) + more + [END_OF_FILE]
               == Lines(m, n, address, size, r.wordSize) + (more + [END_OF_FILE]);
      }
      if p.kind != Loadable || p.base <= r.higher { DecodeFile(m, n, image[1..], r); }
    }
  }

  /** The table is read as far as section `k`: no loadable section up to it lies above the range. */
  predicate Reached(image: Image, higher: nat, k: nat)
  {
    k < |image| && forall j | 0 <= j <= k :: image[j].kind == Loadable ==> image[j].base <= higher
  }

  /** Section `k` puts byte `x` into the file. */
  predicate Emits(image: Image, lower: nat, higher: nat, k: nat, x: LoadedByte)
  {
    && Reached(image, higher, k) && image[k].Covers(x.address) && lower <= x.address < higher
    && x.value == image[k].contents[x.address - image[k].base]
  }

  /** Memory shows the contents of every loadable section. */
  ghost predicate ShowsOne(m: Bytes, n: nat, p: Resident)
    requires |m| == Pow2(n)
  {
    forall a: nat | p.Covers(a) :: a < Pow2(n) && m[a] == p.contents[a - p.base]
  }

  ghost predicate Shows(m: Bytes, n: nat, image: Image)
    requires |m| == Pow2(n)
  {
    forall p | p in image :: ShowsOne(m, n, p)
  }

  lemma SectionCells(m: Bytes, n: nat, image: Image, lower: nat, higher: nat, x: LoadedByte)
    requires |m| == Pow2(n) && lower <= higher && image != [] && Shows(m, n, image)
    requires image[0].kind == Loadable && image[0].base <= higher && lower < image[0].Extent().End()
    ensures var p, r := image[0], Range(1, 0, lower, higher);
            x in Cells(m, n, r.Low(p) + 0, (r.High(p) - r.Low(p)) / 1, 1) <==> Emits(image, lower, higher, 0, x)
  {
    hide Pow2, LowBits;
    var p, r := image[0], Range(1, 0, lower, higher);
    var low, size := r.Low(p), r.High(p) - r.Low(p);
    var cells := Cells(m, n, low, size, 1);
    forall i | 0 <= i < size ensures cells[i] == LoadedByte(low + i, p.contents[low + i - p.base]) {
      assert ShowsOne(m, n, p) && p.Covers(low + i);
      SmallLowBits(low + i, n);
    }
    if Emits(image, lower, higher, 0, x) {
      assert cells[x.address - low] == x;
    }
  }

  lemma EmitsTail(image: Image, lower: nat, higher: nat, k: nat, x: LoadedByte)
    requires image != [] && (image[0].kind == Loadable ==> image[0].base <= higher)
    ensures Emits(image[1..], lower, higher, k, x) <==> Emits(image, lower, higher, k + 1, x)
  {
    if k < |image[1..]| {
      assert forall j | 0 <= j < |image[1..]| :: image[1..][j] == image[j + 1];
      if Reached(image[1..], higher, k) {
        forall j | 0 <= j <= k + 1 ensures image[j].kind == Loadable ==> image[j].base <= higher {
          if j > 0 { assert image[1..][j - 1] == image[j]; }
        }
      }
    }
  }

  /** Byte-wide output, read back, is exactly what the reached sections hold within the range. */
  lemma {:induction false} FileExact(m: Bytes, n: nat, image: Image, lower: nat, higher: nat, x: LoadedByte)
    requires |m| == Pow2(n) && lower <= higher && Shows(m, n, image)
    ensures x in FileCells(m, n, image, Range(1, 0, lower, higher))
            <==> exists k: nat :: Emits(image, lower, higher, k, x)
    decreases |image|
  {
    hide Pow2, Cells, Emits;
    if image != [] {
      var p := image[0];
      assert Shows(m, n, image[1..]);
      if p.kind == Loadable && higher < p.base {
        forall k: nat ensures !Emits(image, lower, higher, k, x) { EmitsFirst(image, lower, higher, k, x); }
      } else {
        FileExact(m, n, image[1..], lower, higher, x);
        forall k: nat ensures Emits(image[1..], lower, higher, k, x) <==> Emits(image, lower, higher, k + 1, x) {
          EmitsTail(image, lower, higher, k, x);
        }
        EmitsShift(image, lower, higher, x);
        if p.kind == Loadable && lower < p.Extent().End() {
          SectionCells(m, n, image, lower, higher, x);
        } else {
          EmitsFirst(image, lower, higher, 0, x);
        }
      }
    } else {
      forall k: nat ensures !Emits(image, lower, higher, k, x) { EmitsNone(image, lower, higher, k, x); }
    }
  }

  ghost predicate Emitted(image: Image, lower: nat, higher: nat, x: LoadedByte)
  {
    exists k: nat :: Emits(image, lower, higher, k, x)
  }

  lemma EmitsNone(image: Image, lower: nat, higher: nat, k: nat, x: LoadedByte)
    requires image == []
    ensures !Emits(image, lower, higher, k, x)
  {
  }

  lemma EmitsFirst(image: Image, lower: nat, higher: nat, k: nat, x: LoadedByte)
    requires image != []
    ensures image[0].kind == Loadable && higher < image[0].base ==> !Emits(image, lower, higher, k, x)
    ensures image[0].kind != Loadable || image[0].Extent().End() <= lower ==> !Emits(image, lower, higher, 0, x)
  {
  }

  lemma EmitsShift(image: Image, lower: nat, higher: nat, x: LoadedByte)
    requires image != []
    requires forall k: nat :: Emits(image[1..], lower, higher, k, x) <==> Emits(image, lower, higher, k + 1, x)
    ensures (exists k: nat :: Emits(image, lower, higher, k, x))
            <==> Emits(image, lower, higher, 0, x) || exists k: nat :: Emits(image[1..], lower, higher, k, x)
  {
    hide Emits;
    if k: nat :| Emits(image, lower, higher, k, x) {
      if k > 0 { assert Emits(image[1..], lower, higher, k - 1, x); }
    }
  }

  /** The address of the `i`-th loaded byte of a file. */
  function AddressOf(cells: seq<LoadedByte>, i: nat): nat
    requires i < |cells|
  {
    cells[i].address
  }

  ghost predicate NoRepeats(cells: seq<LoadedByte>)
  {
    forall i, j | 0 <= i < j < |cells| :: AddressOf(cells, i) != AddressOf(cells, j)
  }

  lemma NoRepeatsConcat(first: seq<LoadedByte>, rest: seq<LoadedByte>)
    requires NoRepeats(first) && NoRepeats(rest)
    requires forall x, y | x in first && y in rest :: x.address != y.address
    ensures NoRepeats(first + rest)
  {
    var all := first + rest;
    forall i, j | 0 <= i < j < |all| ensures AddressOf(all, i) != AddressOf(all, j) {
      if j < |first| {
        assert AddressOf(first, i) != AddressOf(first, j);
      } else if i < |first| {
        assert first[i] in first && rest[j - |first|] in rest;
      } else {
        assert AddressOf(rest, i - |first|) != AddressOf(rest, j - |first|);
      }
    }
  }

  /** A byte of the first section and one of the others are at different addresses. */
  lemma FirstApart(m: Bytes, n: nat, image: Image, lower: nat, higher: nat, x: LoadedByte, y: LoadedByte)
    requires |m| == Pow2(n) && lower <= higher && image != [] && Shows(m, n, image) && Fits(image, n)
    requires image[0].kind == Loadable && image[0].base <= higher && lower < image[0].Extent().End()
    requires var p, r := image[0], Range(1, 0, lower, higher);
             x in Cells(m, n, r.Low(p) + r.byteOrder, (r.High(p) - r.Low(p)) / r.wordSize, r.wordSize)
    requires y in FileCells(m, n, image[1..], Range(1, 0, lower, higher))
    ensures x.address != y.address
  {
    hide Pow2, Shows, Fits, Cells, FileCells;
    ShowsRest(m, n, image);
    SectionCells(m, n, image, lower, higher, x);
    FileExact(m, n, image[1..], lower, higher, y);
    var k: nat :| Emits(image[1..], lower, higher, k, y);
    CoverApart(image, n, 0, k + 1, x.address);
    assert image[1..][k] == image[k + 1];
  }

  /** No address is loaded twice. */
  lemma {:induction false} FileNoRepeats(m: Bytes, n: nat, image: Image, lower: nat, higher: nat)
    requires |m| == Pow2(n) && lower <= higher && Shows(m, n, image) && Fits(image, n)
    ensures NoRepeats(FileCells(m, n, image, Range(1, 0, lower, higher)))
    decreases |image|
  {
    hide Pow2, Shows, Conflict, LowBits;
    if image != [] {
      var p, r := image[0], Range(1, 0, lower, higher);
      FitsTail(image, n);
      assert Shows(m, n, image[1..]) by { ShowsRest(m, n, image); }
      FileNoRepeats(m, n, image[1..], lower, higher);
      if p.kind == Loadable && p.base <= higher && lower < p.Extent().End() {
        var first := Cells(m, n, r.Low(p) + r.byteOrder, (r.High(p) - r.Low(p)) / r.wordSize, r.wordSize);
        var rest := FileCells(m, n, image[1..], r);
        forall x, y | x in first && y in rest ensures x.address != y.address {
          FirstApart(m, n, image, lower, higher, x, y);
        }
        NoRepeatsConcat(first, rest);
      }
    }
  }

  lemma ShowsRest(m: Bytes, n: nat, image: Image)
    requires |m| == Pow2(n) && image != [] && Shows(m, n, image)
    ensures Shows(m, n, image[1..])
  {
  }

  lemma CoverApart(image: Image, n: nat, i: nat, j: nat, a: nat)
    requires Fits(image, n) && i < j < |image|
    ensures !(image[i].Covers(a) && image[j].Covers(a))
  {
    assert !Conflict(image[j].Extent(), image[i].Extent());
  }

  /** A byte some loadable section holds in the range. */
  predicate Wanted(image: Image, lower: nat, higher: nat, k: nat, x: LoadedByte)
  {
    && k < |image| && image[k].Covers(x.address) && lower <= x.address < higher
    && x.value == image[k].contents[x.address - image[k].base]
  }

  ghost predicate Complete(cells: seq<LoadedByte>, image: Image, lower: nat, higher: nat)
  {
    forall k: nat, x | Wanted(image, lower, higher, k, x) :: x in cells
  }

  /** Section `j`, above the range, comes before section `k`, which reaches into it. */
  predicate CutOff(image: Image, lower: nat, higher: nat, j: nat, k: nat)
  {
    var r := Range(1, 0, lower, higher);
    && j < k < |image| && image[j].kind == Loadable && higher < image[j].base
    && image[k].kind == Loadable && r.Low(image[k]) < r.High(image[k])
  }

  /** The output has every byte of the range exactly when no loadable section above the range stands in
      the table before a loadable section that reaches into it: the scan ends at the former. */
  lemma FileCompleteIff(m: Bytes, n: nat, image: Image, lower: nat, higher: nat)
    requires |m| == Pow2(n) && lower <= higher && Shows(m, n, image) && Fits(image, n)
    ensures Complete(FileCells(m, n, image, Range(1, 0, lower, higher)), image, lower, higher)
            <==> forall j: nat, k: nat :: !CutOff(image, lower, higher, j, k)
  {
    hide Pow2, Shows, Fits, FileCells;
    var cells, r := FileCells(m, n, image, Range(1, 0, lower, higher)), Range(1, 0, lower, higher);
    if j: nat, k: nat :| CutOff(image, lower, higher, j, k) {
      var p := image[k];
      var x := LoadedByte(r.Low(p), p.contents[r.Low(p) - p.base]);
      assert Wanted(image, lower, higher, k, x);
      FileExact(m, n, image, lower, higher, x);
      forall i: nat ensures !Emits(image, lower, higher, i, x) { NotEmitted(image, n, lower, higher, i, j, k, x); }
    } else {
      forall k: nat, x | Wanted(image, lower, higher, k, x) ensures x in cells {
        forall j: nat | j <= k && image[j].kind == Loadable ensures image[j].base <= higher {
          assert j < k ==> !CutOff(image, lower, higher, j, k);
        }
        FileExact(m, n, image, lower, higher, x);
        assert Emits(image, lower, higher, k, x);
      }
    }
  }

  lemma NotEmitted(image: Image, n: nat, lower: nat, higher: nat, i: nat, j: nat, k: nat, x: LoadedByte)
    requires Fits(image, n) && CutOff(image, lower, higher, j, k) && image[k].Covers(x.address)
    ensures !Emits(image, lower, higher, i, x)
  {
    hide Pow2;
    if i < k { CoverApart(image, n, i, k, x.address); }
    if k < i < |image| { CoverApart(image, n, k, i, x.address); }
  }

  /** A byte of a loadable section, at its address. */
  ghost predicate Held(image: Image, x: LoadedByte)
  {
    exists k: nat :: k < |image| && image[k].Covers(x.address)
                     && x.value == image[k].contents[x.address - image[k].base]
  }

  lemma WholeRangeEmits(image: Image, lower: nat, higher: nat, x: LoadedByte)
    requires forall p | p in image :: lower <= p.base && p.Extent().End() <= higher
    ensures Emitted(image, lower, higher, x) <==> Held(image, x)
  {
    if k: nat :| k < |image| && image[k].Covers(x.address)
                 && x.value == image[k].contents[x.address - image[k].base] {
      assert image[k] in image;
      assert Emits(image, lower, higher, k, x);
    }
  }

  /** A range that takes in every section: reading the file back gives exactly the bytes of the loadable
      sections at their addresses, each once. */
  lemma WholeRangeExact(m: Bytes, n: nat, image: Image, lower: nat, higher: nat)
    requires |m| == Pow2(n) && lower <= higher && Shows(m, n, image) && Fits(image, n)
    requires forall p | p in image :: lower <= p.base && p.Extent().End() <= higher
    ensures var cells := Decode(FileLines(m, n, image, Range(1, 0, lower, higher)) + [END_OF_FILE]);
            NoRepeats(cells) && forall x :: x in cells <==> Held(image, x)
  {
    hide Pow2, Shows, Fits, FileCells, FileLines, Decode, Held, Emits;
    var cells := FileCells(m, n, image, Range(1, 0, lower, higher));
    DecodeFile(m, n, image, Range(1, 0, lower, higher));
    FileNoRepeats(m, n, image, lower, higher);
    forall x ensures x in cells <==> Held(image, x) {
      FileExact(m, n, image, lower, higher, x);
      WholeRangeEmits(image, lower, higher, x);
    }
  }

  /** Two memories side by side: byte `v` is at address `a` when the even file has it at `a / 2` and `a`
      is even, or the odd file has it there and `a` is odd. */
  ghost predicate Merged(evens: seq<LoadedByte>, odds: seq<LoadedByte>, a: nat, v: Byte)
  {
    || (exists i | 0 <= i < |evens| :: a == 2 * evens[i].address && v == evens[i].value)
    || (exists i | 0 <= i < |odds| :: a == 2 * odds[i].address + 1 && v == odds[i].value)
  }

  /** The two files together are the bytes from `low` to `high`, no more and no less. */
  ghost predicate Interleaves(m: Bytes, evens: seq<LoadedByte>, odds: seq<LoadedByte>, low: nat, high: nat)
    requires high <= |m|
  {
    forall a: nat, v: Byte :: Merged(evens, odds, a, v) <==> low <= a < high && v == m[a]
  }

  lemma HalfCells(m: Bytes, n: nat, low: nat, high: nat, order: nat, i: nat)
    requires |m| == Pow2(n) && low <= high <= Pow2(n) && order < 2 && i < (high - low) / 2
    ensures Cells(m, n, low + order, (high - low) / 2, 2)[i]
        == LoadedByte((low + order) / 2 + i, m[low + order + 2 * i])
  {
    hide Pow2;
    SmallLowBits(low + order + i * 2, n);
  }

  lemma EvenBoundsInterleave(m: Bytes, n: nat, low: nat, high: nat)
    requires |m| == Pow2(n) && low < high <= Pow2(n) && low % 2 == 0 && high % 2 == 0
    ensures Interleaves(m, Cells(m, n, low, (high - low) / 2, 2), Cells(m, n, low + 1, (high - low) / 2, 2), low, high)
  {
    hide Pow2, Cells;
    var size := (high - low) / 2;
    var evens, odds := Cells(m, n, low, size, 2), Cells(m, n, low + 1, size, 2);
    forall i | 0 <= i < size
      ensures evens[i] == LoadedByte(low / 2 + i, m[low + 2 * i])
      ensures odds[i] == LoadedByte(low / 2 + i, m[low + 1 + 2 * i])
    {
      HalfCells(m, n, low, high, 0, i);
      HalfCells(m, n, low, high, 1, i);
    }
    forall a: nat, v: Byte ensures Merged(evens, odds, a, v) <==> low <= a < high && v == m[a] {
      if low <= a < high {
        var i := (a - low) / 2;
        if a % 2 == 0 {
          assert evens[i] == LoadedByte(low / 2 + i, m[low + 2 * i]) && a == low + 2 * i;
        } else {
          assert odds[i] == LoadedByte(low / 2 + i, m[low + 1 + 2 * i]) && a == low + 1 + 2 * i;
        }
      }
    }
  }

  /** With `wordSize` 2 the two files of a section's part `[low, high)` interleave back to it exactly when
      both bounds are even: from an odd start the halves are misaligned, and an odd last byte is dropped. */
  lemma InterleaveIff(m: Bytes, n: nat, low: nat, high: nat)
    requires |m| == Pow2(n) && low < high <= Pow2(n)
    ensures Interleaves(m, Cells(m, n, low, (high - low) / 2, 2), Cells(m, n, low + 1, (high - low) / 2, 2), low, high)
            <==> low % 2 == 0 && high % 2 == 0
  {
    hide Pow2, Cells;
    var size := (high - low) / 2;
    var evens, odds := Cells(m, n, low, size, 2), Cells(m, n, low + 1, size, 2);
    if low % 2 == 0 && high % 2 == 0 {
      EvenBoundsInterleave(m, n, low, high);
    } else if low % 2 == 0 {
      forall i | 0 <= i < size ensures 2 * evens[i].address < high - 1 { HalfCells(m, n, low, high, 0, i); }
      assert !Merged(evens, odds, high - 1, m[high - 1]);
    } else if size == 0 {
      assert !Merged(evens, odds, low, m[low]);
    } else {
      HalfCells(m, n, low, high, 0, 0);
      assert Merged(evens, odds, low - 1, m[low]);
    }
  }

  /** The parts of the sections that go into the file start and end at even addresses. */
  predicate EvenParts(image: Image, r: Range)
    decreases |image|
  {
    if image == [] then true
    else
      var p := image[0];
      if p.kind != Loadable then EvenParts(image[1..], r)
      else if r.higher < p.base then true
      else if r.lower >= p.Extent().End() then EvenParts(image[1..], r)
      else r.Low(p) % 2 == 0 && r.High(p) % 2 == 0 && EvenParts(image[1..], r)
  }

  lemma HalfCell(m: Bytes, n: nat, low: nat, size: nat, order: nat, i: nat)
    requires |m| == Pow2(n) && low % 2 == 0 && order < 2 && i < size
    ensures Cells(m, n, low + order, size, 2)[i] == LoadedByte(low / 2 + i, m[LowBits(low + order + 2 * i, n)])
  {
    hide Pow2, LowBits;
    assert i * 2 == 2 * i && (low + order) / 2 == low / 2;
  }

  /** Byte `j` of a part with even bounds is in the half it belongs to. */
  lemma PartHalf(m: Bytes, n: nat, low: nat, high: nat, i: nat)
    requires |m| == Pow2(n) && low <= high && low % 2 == 0 && high % 2 == 0 && i < (high - low) / 2
    ensures var half := (high - low) / 2;
            && 2 * i + 1 < high - low
            && Cells(m, n, low, half, 2)[i] == LoadedByte(low / 2 + i, m[LowBits(low + 2 * i, n)])
            && Cells(m, n, low + 1, half, 2)[i] == LoadedByte(low / 2 + i, m[LowBits(low + 1 + 2 * i, n)])
            && Cells(m, n, low, high - low, 1)[2 * i] == LoadedByte(low + 2 * i, m[LowBits(low + 2 * i, n)])
            && Cells(m, n, low, high - low, 1)[2 * i + 1] == LoadedByte(low + 2 * i + 1, m[LowBits(low + 1 + 2 * i, n)])
  {
    hide Pow2, LowBits, Cells;
    HalfCell(m, n, low, (high - low) / 2, 0, i);
    HalfCell(m, n, low, (high - low) / 2, 1, i);
    WholeCell(m, n, low, high - low, 2 * i);
    WholeCell(m, n, low, high - low, 2 * i + 1);
  }

  /** The halves of one part merge to the part. */
  lemma PartMerges(m: Bytes, n: nat, low: nat, high: nat, a: nat, v: Byte)
    requires |m| == Pow2(n) && low <= high && low % 2 == 0 && high % 2 == 0
    ensures var half := (high - low) / 2;
            Merged(Cells(m, n, low, half, 2), Cells(m, n, low + 1, half, 2), a, v)
            <==> LoadedByte(a, v) in Cells(m, n, low, high - low, 1)
  {
    hide Pow2, LowBits, Cells;
    var half := (high - low) / 2;
    var evens, odds, whole := Cells(m, n, low, half, 2), Cells(m, n, low + 1, half, 2), Cells(m, n, low, high - low, 1);
    if Merged(evens, odds, a, v) {
      if i :| 0 <= i < half && a == 2 * evens[i].address && v == evens[i].value {
        PartHalf(m, n, low, high, i);
        assert whole[2 * i] == LoadedByte(a, v);
      } else {
        var i :| 0 <= i < half && a == 2 * odds[i].address + 1 && v == odds[i].value;
        PartHalf(m, n, low, high, i);
        assert whole[2 * i + 1] == LoadedByte(a, v);
      }
    }
    if j :| 0 <= j < high - low && whole[j] == LoadedByte(a, v) {
      PartHalf(m, n, low, high, j / 2);
      if j % 2 == 0 {
        assert j == 2 * (j / 2) && a == 2 * evens[j / 2].address && v == evens[j / 2].value;
      } else {
        assert j == 2 * (j / 2) + 1 && a == 2 * odds[j / 2].address + 1 && v == odds[j / 2].value;
      }
    }
  }

  lemma WholeCell(m: Bytes, n: nat, low: nat, size: nat, j: nat)
    requires |m| == Pow2(n) && j < size
    ensures Cells(m, n, low, size, 1)[j] == LoadedByte(low + j, m[LowBits(low + j, n)])
  {
    hide Pow2, LowBits;
  }

  lemma MergedConcat(evens: seq<LoadedByte>, odds: seq<LoadedByte>, more: seq<LoadedByte>, others: seq<LoadedByte>,
                     a: nat, v: Byte)
    ensures Merged(evens + more, odds + others, a, v) <==> Merged(evens, odds, a, v) || Merged(more, others, a, v)
  {
    var e, o := evens + more, odds + others;
    assert forall i | 0 <= i < |evens| :: e[i] == evens[i];
    assert forall i | 0 <= i < |more| :: e[|evens| + i] == more[i];
    assert forall i | 0 <= i < |odds| :: o[i] == odds[i];
    assert forall i | 0 <= i < |others| :: o[|odds| + i] == others[i];
    if i :| 0 <= i < |e| && a == 2 * e[i].address && v == e[i].value {
      assert e[i] == if i < |evens| then evens[i] else more[i - |evens|];
    }
    if i :| 0 <= i < |o| && a == 2 * o[i].address + 1 && v == o[i].value {
      assert o[i] == if i < |odds| then odds[i] else others[i - |odds|];
    }
  }

  /** The cells of two half-width files merge to those of the byte-wide file. */
  lemma {:induction false} CellsMerge(m: Bytes, n: nat, image: Image, lower: nat, higher: nat, a: nat, v: Byte)
    requires |m| == Pow2(n) && lower <= higher && EvenParts(image, Range(1, 0, lower, higher))
    ensures Merged(FileCells(m, n, image, Range(2, 0, lower, higher)),
                   FileCells(m, n, image, Range(2, 1, lower, higher)), a, v)
            <==> LoadedByte(a, v) in FileCells(m, n, image, Range(1, 0, lower, higher))
    decreases |image|
  {
    hide Pow2, Cells, Merged;
    var r, s, t := Range(2, 0, lower, higher), Range(2, 1, lower, higher), Range(1, 0, lower, higher);
    if image == [] || (image[0].kind == Loadable && higher < image[0].base) {
      NothingMerges(a, v);
    } else {
      var p, rest := image[0], image[1..];
      CellsMerge(m, n, rest, lower, higher, a, v);
      if p.kind == Loadable && lower < p.Extent().End() {
        var low, high := r.Low(p), r.High(p);
        assert s.Low(p) == t.Low(p) == low && s.High(p) == t.High(p) == high;
        PartMerges(m, n, low, high, a, v);
        MergedConcat(Cells(m, n, low, (high - low) / 2, 2), Cells(m, n, low + 1, (high - low) / 2, 2),
                     FileCells(m, n, rest, r), FileCells(m, n, rest, s), a, v);
      }
    }
  }

  lemma NothingMerges(a: nat, v: Byte)
    ensures !Merged([], [], a, v)
  {
  }

  /** The two half-width HEX files, loaded into memories side by side, hold exactly what the byte-wide file holds,
      when the parts of the sections that go into them start and end at even addresses. */
  lemma HalfFilesMerge(m: Bytes, n: nat, image: Image, lower: nat, higher: nat, a: nat, v: Byte)
    requires |m| == Pow2(n) && lower <= higher && EvenParts(image, Range(1, 0, lower, higher))
    ensures Merged(Decode(FileLines(m, n, image, Range(2, 0, lower, higher)) + [END_OF_FILE]),
                   Decode(FileLines(m, n, image, Range(2, 1, lower, higher)) + [END_OF_FILE]), a, v)
            <==> LoadedByte(a, v) in Decode(FileLines(m, n, image, Range(1, 0, lower, higher)) + [END_OF_FILE])
  {
    hide Pow2, FileLines, FileCells, Decode, Merged, EvenParts;
    DecodeFile(m, n, image, Range(2, 0, lower, higher));
    DecodeFile(m, n, image, Range(2, 1, lower, higher));
    DecodeFile(m, n, image, Range(1, 0, lower, higher));
    CellsMerge(m, n, image, lower, higher, a, v);
  }

  lemma StrideNext(m: Bytes, n: nat, address: nat, j: nat, wordSize: nat, a: nat)
    requires |m| == Pow2(n) && a == address + j * wordSize
    ensures Stride(m, n, address, j + 1, wordSize) == Stride(m, n, address, j, wordSize) + [m[LowBits(a, n)]]
    ensures a + wordSize == address + (j + 1) * wordSize
  {
    hide Pow2, LowBits;
  }

  lemma ChecksumNext(start: nat, data: Bytes, b: Byte)
    ensures U8(U8(start + Sum(data)) + b) == U8(start + Sum(data + [b]))
  {
    SumConcat(data, [b]);
    assert Sum([b]) == b;
  }

  /** One output line, its checksum summed as the bytes are printed. */
  method EmitLine(memory: MemorySpace, loadAddress: nat, address: nat, count: nat, wordSize: nat) returns (line: Line)
    requires memory.Valid()
    ensures line == DataLine(loadAddress, Stride(memory.Flat(), memory.Bits(), address, count, wordSize))
  {
    hide Pow2, LowBits, Sum, MemorySpace.Flat, Stride, U8;
    ghost var start := count + loadAddress + loadAddress / 0x100;
    ghost var m, n := memory.Flat(), memory.Bits();
    var data: Bytes := [];
    var checksum, a: nat := U8(count + loadAddress + loadAddress / 0x100), address;
    EmptyLine(m, n, address, wordSize);
    for j := 0 to count
      invariant a == address + j * wordSize
      invariant data == Stride(m, n, address, j, wordSize)
      invariant checksum == U8(start + Sum(data))
    {
      var b := memory.Read8(a);
      StrideNext(m, n, address, j, wordSize, a);
      ChecksumNext(start, data, b);
      data := data + [b];
      checksum := U8(checksum as int + b as int);
      a := a + wordSize;
    }
    NegatedSum(start + Sum(data));
    line := Line(count, loadAddress, 0, data, U8(0 - checksum as int));
  }

  lemma EmptyLine(m: Bytes, n: nat, address: nat, wordSize: nat)
    requires |m| == Pow2(n)
    ensures Stride(m, n, address, 0, wordSize) == [] && Sum([]) == 0
  {
  }

  lemma NegatedSum(x: int)
    ensures U8(0 - U8(x) as int) == U8(-x)
  {
  }

  /** The inner loop of `binary_hex_intel`, over one section. */
  method EmitSection(memory: MemorySpace, address: nat, size: nat, wordSize: nat) returns (lines: seq<Line>)
    requires memory.Valid() && wordSize > 0
    ensures lines == Lines(memory.Flat(), memory.Bits(), address, size, wordSize)
  {
    hide Pow2, LowBits, DataLine, Stride, MemorySpace.Flat;
    lines := [];
    var a: nat, left: nat := address, size;
    ghost var m, n := memory.Flat(), memory.Bits();
    while left > 0
      invariant Lines(m, n, address, size, wordSize) == lines + Lines(m, n, a, left, wordSize)
    {
      var count := if left < 16 then left else 16;
      var line := EmitLine(memory, a / wordSize, a, count, wordSize);
      lines := lines + [line];
      a := a + count * wordSize;
      left := left - count;
    }
  }

  /** What the section at `i` adds to the file. */
  lemma FileLinesAt(m: Bytes, n: nat, image: Image, r: Range, i: nat)
    requires |m| == Pow2(n) && r.wordSize > 0 && r.lower <= r.higher && i < |image|
    ensures var p, rest := image[i], FileLines(m, n, image[i + 1..], r);
            FileLines(m, n, image[i..], r)
            == if p.kind != Loadable then rest
               else if r.higher < p.base then []
               else if r.lower >= p.Extent().End() then rest
               else Lines(m, n, r.Low(p) + r.byteOrder, (r.High(p) - r.Low(p)) / r.wordSize, r.wordSize) + rest
  {
    hide Pow2, Lines;
    assert image[i..][0] == image[i] && image[i..][1..] == image[i + 1..];
  }

  lemma NoFileLines(m: Bytes, n: nat, image: Image, r: Range)
    requires |m| == Pow2(n) && r.wordSize > 0 && r.lower <= r.higher && image == []
    ensures FileLines(m, n, image, r) == []
  {
  }

  /** `Sections::binary_hex_intel` */
  method BinaryHexIntel(table: seq<Section>, memory: MemorySpace, r: Range) returns (lines: seq<Line>)
    requires memory.Valid() && r.wordSize > 0 && r.lower <= r.higher
    ensures lines == FileLines(memory.Flat(), memory.Bits(), ImageOf(table), r) + [END_OF_FILE]
  {
    hide Pow2, LowBits, Lines, FileLines, MemorySpace.Flat, MemorySpace.Valid;
    lines := [];
    ghost var m, n, image := memory.Flat(), memory.Bits(), ImageOf(table);
    NoFileLines(m, n, image[|table|..], r);
    var i := 0;
    while i < |table|
      invariant 0 <= i <= |table|
      invariant FileLines(m, n, image, r) == lines + FileLines(m, n, image[i..], r)
    {
      var s := table[i];
      FileLinesAt(m, n, image, r, i);
      i := i + 1;
      if s.kind != Loadable { continue; }
      if r.higher < s.baseAddress { break; }
      var end := s.baseAddress + |s.contents|;
      if r.lower >= end { continue; }
      var low := if r.lower > s.baseAddress then r.lower else s.baseAddress;
      var high := if r.higher < end then r.higher else end;
      var more := EmitSection(memory, low + r.byteOrder, (high - low) / r.wordSize, r.wordSize);
      lines := lines + more;
    }
    lines := lines + [END_OF_FILE];
  }
}
