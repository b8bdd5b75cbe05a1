/** Natural numbers as bit patterns, for the masks, shifts and fields of the assembler. */
module Bits {

  function Pow2(n: nat): (p: nat)
    ensures p >= 1
  {
    if n == 0 then 1 else 2 * Pow2(n - 1)
  }

  /** Bit `i` of `x`, counted from the least significant one. */
  predicate Bit(x: nat, i: nat)
  {
    if i == 0 then x % 2 == 1 else Bit(x / 2, i - 1)
  }

  datatype BitOp = And | Or | Xor

  predicate OpBit(op: BitOp, a: bool, b: bool)
  {
    match op
    case And => a && b
    case Or => a || b
    case Xor => a != b
  }

  /** The bitwise operators of C on unsigned operands. */
  function Bitwise(op: BitOp, x: nat, y: nat): (r: nat)
    decreases x + y
  {
    if x == 0 && y == 0 then 0
    else (if OpBit(op, x % 2 == 1, y % 2 == 1) then 1 else 0) + 2 * Bitwise(op, x / 2, y / 2)
  }

  /** `x >> k`. */
  function ShiftRight(x: nat, k: nat): (r: nat)
    ensures r <= x
  {
    if k == 0 then x else ShiftRight(x / 2, k - 1)
  }

  /** The `k` least significant bits of `x`. */
  function LowBits(x: nat, k: nat): (r: nat)
    ensures r < Pow2(k) && r <= x
  {
    if k == 0 then 0 else x % 2 + 2 * LowBits(x / 2, k - 1)
  }

  lemma {:induction false} ZeroBits(i: nat)
    ensures !Bit(0, i)
  {
    if i > 0 { ZeroBits(i - 1); }
  }

  /** Every bit of a bitwise operator is the operator on the bits. */
  lemma {:induction false} BitwiseBit(op: BitOp, x: nat, y: nat, i: nat)
    ensures Bit(Bitwise(op, x, y), i) == OpBit(op, Bit(x, i), Bit(y, i))
    decreases i
  {
    if x == 0 && y == 0 {
      ZeroBits(i);
    } else if i > 0 {
      BitwiseBit(op, x / 2, y / 2, i - 1);
    }
  }

  /** Two numbers with the same bits are equal. */
  lemma {:induction false} SameBits(x: nat, y: nat)
    requires forall i: nat :: Bit(x, i) == Bit(y, i)
    ensures x == y
    decreases x + y
  {
    assert Bit(x, 0) == Bit(y, 0);
    if x != 0 || y != 0 {
      forall i: nat ensures Bit(x / 2, i) == Bit(y / 2, i) {
        assert Bit(x, i + 1) == Bit(y, i + 1);
      }
      SameBits(x / 2, y / 2);
    }
  }

  lemma {:induction false} Pow2Sum(a: nat, b: nat)
    ensures Pow2(a + b) == Pow2(a) * Pow2(b)
  {
    if a > 0 { Pow2Sum(a - 1, b); }
  }

  lemma {:induction false} Pow2Monotone(a: nat, b: nat)
    requires a <= b
    ensures Pow2(a) <= Pow2(b)
    decreases b
  {
    if a < b { Pow2Monotone(a, b - 1); }
  }

  /** The bits of `hi * 2^k + lo`: those of `lo` first, then those of `hi`. */
  lemma {:induction false} ConcatBit(hi: nat, lo: nat, k: nat, i: nat)
    requires lo < Pow2(k)
    ensures Bit(hi * Pow2(k) + lo, i) == if i < k then Bit(lo, i) else Bit(hi, i - k)
    decreases k
  {
    if k > 0 {
      assert lo / 2 < Pow2(k - 1);
      hide Pow2;
      HalfMultiple(hi, lo, k);
      if i > 0 { ConcatBit(hi, lo / 2, k - 1, i - 1); }
    } else {
      assert hi * Pow2(0) == hi;
    }
  }

  lemma ShiftLeftBit(x: nat, k: nat, i: nat)
    ensures Bit(x * Pow2(k), i) == (k <= i && Bit(x, i - k))
  {
    ConcatBit(x, 0, k, i);
    ZeroBits(i);
  }

  lemma SmallBits(x: nat, k: nat, i: nat)
    requires x < Pow2(k) && k <= i
    ensures !Bit(x, i)
  {
    assert x == 0 * Pow2(k) + x;
    ConcatBit(0, x, k, i);
    ZeroBits(i - k);
  }

  lemma {:induction false} MaskBit(k: nat, i: nat)
    ensures Bit(Pow2(k) - 1, i) == (i < k)
  {
    if k == 0 {
      ZeroBits(i);
    } else if i > 0 {
      assert (Pow2(k) - 1) / 2 == Pow2(k - 1) - 1;
      MaskBit(k - 1, i - 1);
    }
  }

  lemma {:induction false} ComplementBit(x: nat, k: nat, i: nat)
    requires x < Pow2(k)
    ensures Bit(Pow2(k) - 1 - x, i) == (i < k && !Bit(x, i))
    decreases k
  {
    if k == 0 {
      ZeroBits(i);
    } else if i > 0 {
      assert (Pow2(k) - 1 - x) / 2 == Pow2(k - 1) - 1 - x / 2;
      ComplementBit(x / 2, k - 1, i - 1);
    }
  }

  /** Shifting right and keeping the low bits is division by `2^k` with remainder. */
  lemma {:induction false} ShiftRightSplit(x: nat, k: nat)
    ensures x == ShiftRight(x, k) * Pow2(k) + LowBits(x, k)
    decreases k
  {
    if k > 0 {
      ShiftRightSplit(x / 2, k - 1);
      Doubled(ShiftRight(x, k), Pow2(k - 1));
    }
  }

  lemma MulMonotone(x: nat, a: nat, y: nat, b: nat)
    requires x <= a && y <= b
    ensures x * y <= a * b
  {
    assert x * y <= a * y;
    assert a * y <= a * b;
  }

  lemma Doubled(q: nat, p: nat)
    ensures q * (2 * p) == 2 * (q * p)
  {
  }

  /** Halving a multiple of `2^k` plus `z`. */
  lemma HalfMultiple(q: nat, z: nat, k: nat)
    requires k > 0
    ensures var x := q * Pow2(k) + z; x / 2 == q * Pow2(k - 1) + z / 2 && x % 2 == z % 2
  {
    var half := q * Pow2(k - 1);
    assert q * Pow2(k) == 2 * half by { Doubled(q, Pow2(k - 1)); }
    HalfSum(half, z);
  }

  lemma HalfSum(h: nat, z: nat)
    ensures (2 * h + z) / 2 == h + z / 2 && (2 * h + z) % 2 == z % 2
  {
  }

  lemma NextMultiple(x: nat, y: nat, p: nat)
    requires y < x
    ensures y * p + p <= x * p
  {
    MulMonotone(y + 1, x, p, p);
    assert (y + 1) * p == y * p + p;
  }

  lemma RemainderUnique(x: nat, q: nat, p: nat, r: nat)
    requires p > 0 && x == q * p + r && r < p
    ensures x % p == r && x / p == q
  {
    var d := x / p;
    assert x == d * p + x % p;
    if d < q { NextMultiple(q, d, p); }
    if q < d { NextMultiple(d, q, p); }
  }

  lemma LowBitsMod(x: nat, k: nat)
    ensures LowBits(x, k) == x % Pow2(k) && ShiftRight(x, k) == x / Pow2(k)
  {
    ShiftRightSplit(x, k);
    RemainderUnique(x, ShiftRight(x, k), Pow2(k), LowBits(x, k));
  }

  /** Quotient and remainder determine each other. */
  lemma {:induction false} SplitUnique(q: nat, r: nat, k: nat)
    requires r < Pow2(k)
    ensures ShiftRight(q * Pow2(k) + r, k) == q && LowBits(q * Pow2(k) + r, k) == r
    decreases k
  {
    if k > 0 {
      assert r / 2 < Pow2(k - 1);
      hide Pow2;
      HalfMultiple(q, r, k);
      SplitUnique(q, r / 2, k - 1);
    }
  }

  /** Low bits do not see multiples of `2^k`. */
  lemma {:induction false} LowBitsMultiple(q: nat, z: nat, k: nat)
    ensures LowBits(q * Pow2(k) + z, k) == LowBits(z, k)
    decreases k
  {
    hide Pow2;
    if k > 0 {
      HalfMultiple(q, z, k);
      LowBitsMultiple(q, z / 2, k - 1);
    }
  }

  /** Wrapping before or after adding is the same. */
  lemma LowBitsAdd(x: nat, y: nat, k: nat)
    ensures LowBits(LowBits(x, k) + y, k) == LowBits(x + y, k)
  {
    ShiftRightSplit(x, k);
    LowBitsMultiple(ShiftRight(x, k), LowBits(x, k) + y, k);
  }

  /** The low `a + b` bits are the low `b` bits above the low `a` bits. */
  lemma {:induction false} LowBitsSplit(x: nat, a: nat, b: nat)
    ensures LowBits(x, a + b) == LowBits(ShiftRight(x, a), b) * Pow2(a) + LowBits(x, a)
    decreases a
  {
    if a > 0 {
      var q := LowBits(ShiftRight(x, a), b);
      assert q * Pow2(a) == 2 * (q * Pow2(a - 1)) by { Doubled(q, Pow2(a - 1)); }
      LowBitsSplit(x / 2, a - 1, b);
    }
  }

  lemma {:induction false} ShiftRightBit(x: nat, k: nat, i: nat)
    ensures Bit(ShiftRight(x, k), i) == Bit(x, i + k)
    decreases k
  {
    if k > 0 { ShiftRightBit(x / 2, k - 1, i); }
  }

  lemma {:induction false} LowBit(x: nat, k: nat, i: nat)
    ensures Bit(LowBits(x, k), i) == (i < k && Bit(x, i))
    decreases k
  {
    if k == 0 {
      ZeroBits(i);
    } else if i > 0 {
      LowBit(x / 2, k - 1, i - 1);
    }
  }

  lemma {:induction false} SmallLowBits(x: nat, k: nat)
    requires x < Pow2(k)
    ensures LowBits(x, k) == x && ShiftRight(x, k) == 0
    decreases k
  {
    if k > 0 { SmallLowBits(x / 2, k - 1); }
  }

  /** Masking with `2^k - 1` keeps the low bits. */
  lemma {:induction false} AndMask(x: nat, k: nat)
    ensures Bitwise(And, x, Pow2(k) - 1) == LowBits(x, k)
    decreases k
  {
    if k == 0 {
      AndZero(x);
    } else {
      assert (Pow2(k) - 1) / 2 == Pow2(k - 1) - 1;
      AndMask(x / 2, k - 1);
    }
  }

  lemma {:induction false} AndZero(x: nat)
    ensures Bitwise(And, x, 0) == 0
  {
    if x > 0 { AndZero(x / 2); }
  }

  lemma {:induction false} BitwiseBound(op: BitOp, x: nat, y: nat, k: nat)
    requires x < Pow2(k) && y < Pow2(k)
    ensures Bitwise(op, x, y) < Pow2(k)
    decreases k
  {
    if k > 0 { BitwiseBound(op, x / 2, y / 2, k - 1); }
  }

  /** A number whose bits from `k` on are all clear is below `2^k`. */
  lemma ClearAbove(x: nat, k: nat)
    requires forall i: nat :: k <= i ==> !Bit(x, i)
    ensures x < Pow2(k)
  {
    forall i: nat ensures Bit(x, i) == Bit(LowBits(x, k), i) { LowBit(x, k, i); }
    SameBits(x, LowBits(x, k));
  }
}
