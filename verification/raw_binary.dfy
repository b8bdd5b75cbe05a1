/** The raw output, whole or split into even and odd bytes. */
module RawBinary {
  import opened Bits
  import opened Sections
  import opened MemorySpaces

  /** Every `wordSize`-th byte from `address` on, below `higher`. */
  function Raw(m: Bytes, n: nat, address: nat, higher: nat, wordSize: nat): Bytes
    requires |m| == Pow2(n) && wordSize > 0
    decreases higher - address
  {
    if address >= higher then [] else [m[LowBits(address, n)]] + Raw(m, n, address + wordSize, higher, wordSize)
  }

  /** The full-width file is the range of memory, byte for byte. */
  lemma {:induction false} RawWhole(m: Bytes, n: nat, lower: nat, higher: nat)
    requires |m| == Pow2(n)
    ensures var out := Raw(m, n, lower, higher, 1);
            && |out| == (if lower < higher then higher - lower else 0)
            && forall i | 0 <= i < |out| :: out[i] == m[LowBits(lower + i, n)]
    decreases higher - lower
  {
    hide Pow2, LowBits;
    if lower < higher {
      RawWhole(m, n, lower + 1, higher);
      var out, rest := Raw(m, n, lower, higher, 1), Raw(m, n, lower + 1, higher, 1);
      assert out == [m[LowBits(lower, n)]] + rest;
      forall i | 0 <= i < |out| ensures out[i] == m[LowBits(lower + i, n)] {
        if i > 0 { assert out[i] == rest[i - 1]; }
      }
    }
  }

  /** Bytes taken in turn from two files, the first one first. */
  function Alternate(a: Bytes, b: Bytes): Bytes
    decreases |a| + |b|
  {
    if a == [] then b else [a[0]] + Alternate(b, a[1..])
  }

  /** The two half-width files, read in turn, are the full-width file, for any bounds. */
  lemma {:induction false} HalvesInterleave(m: Bytes, n: nat, lower: nat, higher: nat)
    requires |m| == Pow2(n)
    ensures Alternate(Raw(m, n, lower, higher, 2), Raw(m, n, lower + 1, higher, 2)) == Raw(m, n, lower, higher, 1)
    decreases higher - lower
  {
    hide Pow2, LowBits;
    if lower < higher {
      HalvesInterleave(m, n, lower + 1, higher);
    }
  }

  /** `Sections::binary_raw` */
  method BinaryRaw(memory: MemorySpace, wordSize: nat, byteOrder: nat, lower: nat, higher: nat) returns (out: Bytes)
    requires memory.Valid() && wordSize > 0
    ensures out == Raw(memory.Flat(), memory.Bits(), lower + byteOrder, higher, wordSize)
  {
    hide Pow2, LowBits, MemorySpace.Flat;
    out := [];
    ghost var m, n := memory.Flat(), memory.Bits();
    var address := lower + byteOrder;
    while address < higher
      invariant Raw(m, n, lower + byteOrder, higher, wordSize) == out + Raw(m, n, address, higher, wordSize)
    {
      var c := memory.Read8(address);
      out := out + [c];
      address := address + wordSize;
    }
  }
}
