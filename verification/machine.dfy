/** The fixed-width integers of the assembler's host: 8, 16 and 32 bits, two's complement. */
module Machine {
  import opened Bits

  type Byte = x: int | 0 <= x < 0x100
  type Word = x: int | 0 <= x < 0x1_0000

  /** Conversions to `uint8_t`, `uint16_t`, `uint32_t` and `int`. */
  function U8(x: int): Byte { x % 0x100 }

  function U16(x: int): Word { x % 0x1_0000 }

  /** The little-endian word of two bytes. */
  function MakeWord(low: Byte, high: Byte): Word
  {
    var l: int, h: int := low, high;
    l + 0x100 * h
  }

  function U32(x: int): (r: nat)
    ensures r < 0x1_0000_0000
  {
    x % 0x1_0000_0000
  }

  function I32(x: int): (r: int)
    ensures IsInt(r)
    ensures IsInt(x) ==> r == x
  {
    (x + 0x8000_0000) % 0x1_0000_0000 - 0x8000_0000
  }

  /** Converting to `int` keeps the low 16 bits. */
  lemma SameLowHalf(x: int)
    ensures U16(I32(x)) == U16(x)
  {
    var q := (x + 0x8000_0000) / 0x1_0000_0000;
    assert x + 0x8000_0000 == 0x1_0000_0000 * q + (x + 0x8000_0000) % 0x1_0000_0000;
    LowHalf(0x1_0000 * q, I32(x));
  }

  lemma LowHalf(q: int, r: int)
    ensures U16(0x1_0000 * q + r) == U16(r)
  {
  }

  predicate IsInt(x: int) { -0x8000_0000 <= x < 0x8000_0000 }

  function Not32(x: nat): (r: nat)
    requires x < 0x1_0000_0000
    ensures r < 0x1_0000_0000
  {
    0xFFFF_FFFF - x
  }

  function ShiftLeft32(x: nat, n: nat): (r: nat)
    ensures r < 0x1_0000_0000
  {
    U32(x * Pow2(n))
  }

  /** `MAKE_MASK(width, position)`: `width` ones from bit `position` on. */
  function MakeMask(width: nat, position: nat): (r: nat)
    ensures r < 0x1_0000_0000
  {
    ShiftLeft32(Not32(ShiftLeft32(0xFFFF_FFFF, width)), position)
  }

  /** `abs` of an `int`; the most negative value is its own absolute value. */
  function Abs32(x: int): int { if x < 0 then I32(-x) else x }

  /** The value is encodable in a 16-bit word. The source tests this with a mask; see `MaskTest`. */
  predicate FitsWord(value: int) { -0x1_0000 < value < 0x1_0000 }

  lemma Pow2Table()
    ensures Pow2(0) == 1 && Pow2(1) == 2 && Pow2(2) == 4 && Pow2(3) == 8 && Pow2(4) == 16
    ensures Pow2(6) == 64 && Pow2(7) == 128 && Pow2(8) == 256 && Pow2(10) == 1024
    ensures Pow2(11) == 2048 && Pow2(12) == 4096 && Pow2(13) == 8192 && Pow2(16) == 0x1_0000
    ensures Pow2(32) == 0x1_0000_0000
  {
    Pow2Sum(16, 16);
    Pow2Sum(8, 8);
    Pow2Sum(6, 6);
    Pow2Sum(6, 7);
    Pow2Sum(5, 6);
    Pow2Sum(5, 5);
    Pow2Sum(5, 1);
  }

  lemma Wraps(x: int, turns: int, r: nat)
    requires x == turns * 0x1_0000_0000 + r && r < 0x1_0000_0000
    ensures U32(x) == r
  {
  }

  lemma Pow2Below32(width: nat)
    requires width <= 32
    ensures Pow2(width) <= 0x1_0000_0000
  {
    Pow2Table();
    Pow2Monotone(width, 32);
  }

  lemma OnesShifted(width: nat)
    requires width <= 32
    ensures ShiftLeft32(0xFFFF_FFFF, width) == 0x1_0000_0000 - Pow2(width)
  {
    Pow2Below32(width);
    var p := Pow2(width);
    Wraps(0xFFFF_FFFF * p, p - 1, 0x1_0000_0000 - p);
  }

  lemma LessOne(p: nat, q: nat, product: nat)
    requires p >= 1 && q >= 1 && product == p * q
    ensures (p - 1) * q == product - q && q <= product
  {
  }

  lemma MaskProduct(width: nat, position: nat)
    requires width + position <= 32
    ensures 0 <= (Pow2(width) - 1) * Pow2(position) < 0x1_0000_0000
  {
    var product := Pow2(width + position);
    assert product <= 0x1_0000_0000 by { Pow2Below32(width + position); }
    assert product == Pow2(width) * Pow2(position) by { Pow2Sum(width, position); }
    LessOne(Pow2(width), Pow2(position), product);
  }

  lemma ShiftedMask(width: nat, position: nat)
    requires width + position <= 32
    ensures MakeMask(width, position) == (Pow2(width) - 1) * Pow2(position)
  {
    OnesShifted(width);
    MaskProduct(width, position);
    var m := (Pow2(width) - 1) * Pow2(position);
    Wraps(m, 0, m);
  }

  lemma MaskValue(width: nat)
    requires width <= 32
    ensures MakeMask(width, 0) == Pow2(width) - 1
  {
    ShiftedMask(width, 0);
  }

  lemma ShiftedMaskBit(width: nat, position: nat, i: nat)
    requires width + position <= 16
    ensures Bit(MakeMask(width, position), i) == (position <= i < position + width)
  {
    ShiftedMask(width, position);
    ShiftLeftBit(Pow2(width) - 1, position, i);
    if position <= i { MaskBit(width, i - position); }
  }

  lemma HighBits(x: nat, i: nat)
    requires x < 0x1_0000_0000
    ensures Bit(Bitwise(And, x, Not32(0xFFFF)), i) == (16 <= i && Bit(x, i))
  {
    Pow2Table();
    BitwiseBit(And, x, Not32(0xFFFF), i);
    ComplementBit(0xFFFF, 32, i);
    MaskBit(16, i);
    if i >= 32 { SmallBits(x, 32, i); }
  }

  lemma NoHighBits(x: nat)
    requires x < 0x1_0000_0000
    ensures Bitwise(And, x, Not32(0xFFFF)) == 0 <==> x < 0x1_0000
  {
    Pow2Table();
    var high := Bitwise(And, x, Not32(0xFFFF));
    if x < 0x1_0000 {
      forall i: nat ensures Bit(high, i) == Bit(0, i) {
        HighBits(x, i);
        ZeroBits(i);
        if i >= 16 { SmallBits(x, 16, i); }
      }
      SameBits(high, 0);
    } else if high == 0 {
      forall i: nat | 16 <= i ensures !Bit(x, i) {
        HighBits(x, i);
        ZeroBits(i);
      }
      ClearAbove(x, 16);
    }
  }

  /** The source's test, `(abs(value) & ~MAKE_MASK(16, 0)) == 0`, is exactly a bound on the magnitude. */
  lemma MaskTest(value: int)
    requires IsInt(value)
    ensures Bitwise(And, U32(Abs32(value)), Not32(MakeMask(16, 0))) == 0 <==> FitsWord(value)
  {
    assert MakeMask(16, 0) == 0xFFFF by {
      Pow2Table();
      MaskValue(16);
    }
    var x := U32(Abs32(value));
    assert x < 0x1_0000 <==> FitsWord(value);
    NoHighBits(x);
  }
}
