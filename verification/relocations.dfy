/** Relocation: values that depend on section addresses are patched into bit fields of 16-bit words. */
module Relocations {
  import opened Bits
  import opened Machine
  import opened Sections
  import opened Expressions
  import opened Stability
  import opened LazySymbols

  datatype FieldKind = AbsoluteField | RelativeUnsigned

  datatype Relocation = Relocation(section: nat, offset: nat, position: nat, width: nat, kind: FieldKind,
                                   symbol: string, addend: int)

  /** A relocation whose value is known. */
  datatype Fix = Fix(section: nat, offset: nat, position: nat, width: nat, value: int) {
    /** The field's first bit, counted from the start of the section. */
    function Start(): nat { 8 * offset + position }

    predicate Touches(s: nat, bit: nat) { s == section && Start() <= bit < Start() + width }

    predicate InWord() { position + width <= 16 }

    /** Both bytes of the patched word lie inside the section. */
    predicate Inside(contents: seq<Bytes>) { section < |contents| && offset + 2 <= |contents[section]| && InWord() }
  }

  /** `content &= ~(mask << position); content |= (value & mask) << position` */
  function Patch(content: Word, position: nat, width: nat, value: int): Word
  {
    var mask := MakeMask(width, 0);
    var cleared := U16(Bitwise(And, content, Not32(ShiftLeft32(mask, position))));
    U16(Bitwise(Or, cleared, ShiftLeft32(Bitwise(And, U32(value), mask), position)))
  }

  lemma WordBit(x: nat, i: nat)
    requires i < 16
    ensures Bit(U16(x), i) == Bit(x, i)
  {
    Pow2Table();
    LowBitsMod(x, 16);
    LowBit(x, 16, i);
  }

  lemma FieldMask(width: nat, position: nat, i: nat)
    requires position + width <= 16
    ensures Bit(ShiftLeft32(MakeMask(width, 0), position), i) == (position <= i < position + width)
  {
    hide Bit, MakeMask, ShiftLeft32, Pow2;
    ShiftedMask(width, position);
    MaskValue(width);
    MaskProduct(width, position);
    ShiftFits(Pow2(width) - 1, position);
    ShiftedMaskBit(width, position, i);
  }

  lemma ShiftFits(x: nat, position: nat)
    requires x * Pow2(position) < 0x1_0000_0000
    ensures ShiftLeft32(x, position) == x * Pow2(position)
  {
    hide Pow2;
    Wraps(x * Pow2(position), 0, x * Pow2(position));
  }

  lemma ClearedBit(content: Word, width: nat, position: nat, i: nat)
    requires position + width <= 16 && i < 16
    ensures Bit(U16(Bitwise(And, content, Not32(ShiftLeft32(MakeMask(width, 0), position)))), i)
            == (Bit(content, i) && !(position <= i < position + width))
  {
    hide Bitwise, Bit, MakeMask, ShiftLeft32, U16;
    var mask := ShiftLeft32(MakeMask(width, 0), position);
    WordBit(Bitwise(And, content, Not32(mask)), i);
    BitwiseBit(And, content, Not32(mask), i);
    NotBit32(mask, i);
    FieldMask(width, position, i);
  }

  lemma NotBit32(x: nat, i: nat)
    requires x < 0x1_0000_0000 && i < 32
    ensures Bit(Not32(x), i) == !Bit(x, i)
  {
    Pow2Table();
    ComplementBit(x, 32, i);
  }

  lemma ValueBit(value: int, width: nat, position: nat, i: nat)
    requires position + width <= 16
    ensures Bit(ShiftLeft32(Bitwise(And, U32(value), MakeMask(width, 0)), position), i)
            == (position <= i < position + width && Bit(U32(value), i - position))
  {
    hide Bitwise, Bit, U32, ShiftLeft32;
    var low := LowBits(U32(value), width);
    assert Bitwise(And, U32(value), MakeMask(width, 0)) == low by {
      MaskValue(width);
      AndMask(U32(value), width);
    }
    assert ShiftLeft32(low, position) == low * Pow2(position) by { FieldBelow32(low, width, position); }
    ShiftLeftBit(low, position, i);
    if position <= i { LowBit(U32(value), width, i - position); }
  }

  lemma FieldBelow32(low: nat, width: nat, position: nat)
    requires position + width <= 16 && low < Pow2(width)
    ensures ShiftLeft32(low, position) == low * Pow2(position)
  {
    hide Pow2;
    MaskProduct(width, position);
    MulMonotone(low, Pow2(width) - 1, Pow2(position), Pow2(position));
    Wraps(low * Pow2(position), 0, low * Pow2(position));
  }

  /** Patching replaces the field's bits with the value's, and no others. */
  lemma PatchBit(content: Word, position: nat, width: nat, value: int, i: nat)
    requires position + width <= 16 && i < 16
    ensures Bit(Patch(content, position, width, value), i)
            == if position <= i < position + width then Bit(U32(value), i - position) else Bit(content, i)
  {
    hide Bitwise, Bit, MakeMask, ShiftLeft32, U16, U32, Not32;
    var cleared := U16(Bitwise(And, content, Not32(ShiftLeft32(MakeMask(width, 0), position))));
    var field := ShiftLeft32(Bitwise(And, U32(value), MakeMask(width, 0)), position);
    ClearedBit(content, width, position, i);
    ValueBit(value, width, position, i);
    WordBit(Bitwise(Or, cleared, field), i);
    BitwiseBit(Or, cleared, field, i);
  }

  /** Bit `k` of a section, counted through its bytes. */
  predicate SectionBit(c: Bytes, k: nat) { k / 8 < |c| && Bit(c[k / 8], k % 8) }

  lemma WordBits(low: Byte, high: Byte, i: nat)
    ensures Bit(MakeWord(low, high), i) == if i < 8 then Bit(low, i) else Bit(high, i - 8)
  {
    Pow2Table();
    ConcatBit(high, low, 8, i);
    assert MakeWord(low, high) == high * Pow2(8) + low;
  }

  lemma WordAtBit(c: Bytes, offset: nat, i: nat)
    requires offset + 2 <= |c| && i < 16
    ensures Bit(WordAt(c, offset), i) == SectionBit(c, 8 * offset + i)
  {
    hide Bit;
    WordBits(c[offset], c[offset + 1], i);
    assert (8 * offset + i) / 8 == offset + i / 8 && (8 * offset + i) % 8 == i % 8;
  }

  /** Two buffers of one size with the same bits are the same. */
  lemma SameSectionBits(c: Bytes, d: Bytes)
    requires |c| == |d| && forall k: nat :: SectionBit(c, k) == SectionBit(d, k)
    ensures c == d
  {
    Pow2Table();
    forall i | 0 <= i < |c| ensures c[i] == d[i] {
      forall j: nat ensures Bit(c[i], j) == Bit(d[i], j) {
        if j < 8 {
          assert (8 * i + j) / 8 == i && (8 * i + j) % 8 == j;
          assert SectionBit(c, 8 * i + j) == SectionBit(d, 8 * i + j);
        } else {
          SmallBits(c[i], 8, j);
          SmallBits(d[i], 8, j);
        }
      }
      SameBits(c[i], d[i]);
    }
  }

  /** One relocation on a section's bytes: read a word, patch it, write it back. */
  function Applied(c: Bytes, f: Fix): Bytes
  {
    Written(c, f.offset, WordBytes(Patch(WordAt(c, f.offset), f.position, f.width, f.value)))
  }

  function Apply(contents: seq<Bytes>, f: Fix): (r: seq<Bytes>)
    ensures |r| == |contents|
  {
    if f.section < |contents| then contents[f.section := Applied(contents[f.section], f)] else contents
  }

  function ApplyAll(contents: seq<Bytes>, fixes: seq<Fix>): (r: seq<Bytes>)
    ensures |r| == |contents|
    decreases |fixes|
  {
    if fixes == [] then contents else ApplyAll(Apply(contents, fixes[0]), fixes[1..])
  }

  lemma WrittenWordBit(c: Bytes, offset: nat, w: Word, k: nat)
    requires offset + 2 <= |c|
    ensures SectionBit(Written(c, offset, WordBytes(w)), k)
            == if 8 * offset <= k < 8 * offset + 16 then Bit(w, k - 8 * offset) else SectionBit(c, k)
  {
    hide Bit;
    var b := WordBytes(w);
    if 8 * offset <= k < 8 * offset + 16 {
      WordBits(b[0], b[1], k - 8 * offset);
      assert Written(c, offset, b)[k / 8] == b[k / 8 - offset];
      assert (k - 8 * offset) % 8 == k % 8;
    }
  }

  /** Patching inside a section keeps its size, sets the field's bits from the value, and changes no other. */
  lemma AppliedBits(c: Bytes, f: Fix, k: nat)
    requires f.offset + 2 <= |c| && f.InWord()
    ensures |Applied(c, f)| == |c|
    ensures SectionBit(Applied(c, f), k)
            == if f.Start() <= k < f.Start() + f.width then Bit(U32(f.value), k - f.Start()) else SectionBit(c, k)
  {
    hide Patch, Bit, SectionBit, U32, Written, WordAt;
    var w := WordAt(c, f.offset);
    WrittenWordBit(c, f.offset, Patch(w, f.position, f.width, f.value), k);
    if 8 * f.offset <= k < 8 * f.offset + 16 {
      PatchBit(w, f.position, f.width, f.value, k - 8 * f.offset);
      WordAtBit(c, f.offset, k - 8 * f.offset);
    }
  }

  /** A relocation keeps its section's size exactly when both bytes of its word are inside: `.byte label`
      on a section's last byte makes the section one byte longer. */
  lemma AppliedSizeIff(c: Bytes, f: Fix)
    requires f.offset < |c|
    ensures |Applied(c, f)| == |c| <==> f.offset + 2 <= |c|
    ensures f.offset + 2 > |c| ==> |Applied(c, f)| == |c| + 1 && Applied(c, f)[..f.offset] == c[..f.offset]
  {
    hide Patch;
  }

  /** Fields of one section have no bit in common. */
  ghost predicate Disjoint(f: Fix, g: Fix)
  {
    f.section != g.section || f.Start() + f.width <= g.Start() || g.Start() + g.width <= f.Start()
  }

  ghost predicate AllInside(contents: seq<Bytes>, fixes: seq<Fix>)
  {
    forall i | 0 <= i < |fixes| :: fixes[i].Inside(contents)
  }

  ghost predicate AllDisjoint(fixes: seq<Fix>)
  {
    forall i, j | 0 <= i < j < |fixes| :: Disjoint(fixes[i], fixes[j])
  }

  ghost predicate SameSizes(a: seq<Bytes>, b: seq<Bytes>)
  {
    |a| == |b| && forall s | 0 <= s < |a| :: |a[s]| == |b[s]|
  }

  lemma ApplySizes(contents: seq<Bytes>, f: Fix, rest: seq<Fix>)
    requires f.Inside(contents) && AllInside(contents, rest)
    ensures SameSizes(Apply(contents, f), contents) && AllInside(Apply(contents, f), rest)
  {
    hide Applied;
    AppliedBits(contents[f.section], f, 0);
  }

  lemma {:induction false} ApplyAllSizes(contents: seq<Bytes>, fixes: seq<Fix>)
    requires AllInside(contents, fixes)
    ensures SameSizes(ApplyAll(contents, fixes), contents)
    decreases |fixes|
  {
    hide Apply;
    if fixes != [] {
      ApplySizes(contents, fixes[0], fixes[1..]);
      ApplyAllSizes(Apply(contents, fixes[0]), fixes[1..]);
    }
  }

  /** Linking never makes a section smaller. */
  lemma {:induction false} NeverShrinks(contents: seq<Bytes>, fixes: seq<Fix>, s: nat)
    requires s < |contents|
    ensures |ApplyAll(contents, fixes)[s]| >= |contents[s]|
    decreases |fixes|
  {
    hide Patch, WordAt;
    if fixes != [] { NeverShrinks(Apply(contents, fixes[0]), fixes[1..], s); }
  }

  /** Every relocation's word ends up inside its section. */
  lemma {:induction false} WordReached(contents: seq<Bytes>, fixes: seq<Fix>, i: nat)
    requires i < |fixes| && fixes[i].section < |contents|
    ensures |ApplyAll(contents, fixes)[fixes[i].section]| >= fixes[i].offset + 2
    decreases |fixes|
  {
    hide Patch, WordAt;
    if i == 0 {
      NeverShrinks(Apply(contents, fixes[0]), fixes[1..], fixes[0].section);
    } else {
      WordReached(Apply(contents, fixes[0]), fixes[1..], i - 1);
    }
  }

  /** Any number of relocations keep every size exactly when all their words were inside before the first. */
  lemma SizesKeptIff(contents: seq<Bytes>, fixes: seq<Fix>)
    requires forall i | 0 <= i < |fixes| :: fixes[i].section < |contents| && fixes[i].InWord()
    ensures SameSizes(ApplyAll(contents, fixes), contents) <==> AllInside(contents, fixes)
  {
    hide ApplyAll;
    if AllInside(contents, fixes) { ApplyAllSizes(contents, fixes); }
    if SameSizes(ApplyAll(contents, fixes), contents) {
      forall i | 0 <= i < |fixes| ensures fixes[i].Inside(contents) { WordReached(contents, fixes, i); }
    }
  }

  /** A bit that no field touches is left as it was. */
  lemma {:induction false} UntouchedBit(contents: seq<Bytes>, fixes: seq<Fix>, s: nat, k: nat)
    requires AllInside(contents, fixes) && s < |contents|
    requires forall i | 0 <= i < |fixes| :: !fixes[i].Touches(s, k)
    ensures SectionBit(ApplyAll(contents, fixes)[s], k) == SectionBit(contents[s], k)
    decreases |fixes|
  {
    hide SectionBit, Applied;
    if fixes != [] {
      var f := fixes[0];
      ApplySizes(contents, f, fixes[1..]);
      AppliedBits(contents[f.section], f, k);
      UntouchedBit(Apply(contents, f), fixes[1..], s, k);
    }
  }

  /** Each bit of a field is the bit of that relocation's value, however many relocations there are. */
  lemma {:induction false} FieldBit(contents: seq<Bytes>, fixes: seq<Fix>, i: nat, k: nat)
    requires AllInside(contents, fixes) && AllDisjoint(fixes) && i < |fixes|
    requires fixes[i].Start() <= k < fixes[i].Start() + fixes[i].width
    ensures SectionBit(ApplyAll(contents, fixes)[fixes[i].section], k) == Bit(U32(fixes[i].value), k - fixes[i].Start())
    decreases |fixes|
  {
    hide SectionBit, Applied, Bit, U32;
    var f := fixes[0];
    ApplySizes(contents, f, fixes[1..]);
    assert AllDisjoint(fixes[1..]);
    if i > 0 {
      FieldBit(Apply(contents, f), fixes[1..], i - 1, k);
    } else {
      AppliedBits(contents[f.section], f, k);
      forall j | 0 <= j < |fixes[1..]| ensures !fixes[1..][j].Touches(f.section, k) {
        assert Disjoint(fixes[0], fixes[j + 1]);
      }
      UntouchedBit(Apply(contents, f), fixes[1..], f.section, k);
    }
  }

  /** Reading a field back. */
  function ReadField(c: Bytes, offset: nat, position: nat, width: nat): nat
  {
    LowBits(ShiftRight(WordAt(c, offset), position), width)
  }

  /** Every field reads back its value, cut to the field's width; a value in range reads back unchanged. */
  lemma FieldReadsBack(contents: seq<Bytes>, fixes: seq<Fix>, i: nat)
    requires AllInside(contents, fixes) && AllDisjoint(fixes) && i < |fixes|
    ensures var f := fixes[i];
            var field := ReadField(ApplyAll(contents, fixes)[f.section], f.offset, f.position, f.width);
            field == LowBits(U32(f.value), f.width) && (0 <= f.value < Pow2(f.width) ==> field == f.value)
  {
    hide SectionBit, ApplyAll, Bit, U32, Pow2, LowBits, ShiftRight, WordAt;
    var f := fixes[i];
    var c := ApplyAll(contents, fixes)[f.section];
    var field, low := ReadField(c, f.offset, f.position, f.width), LowBits(U32(f.value), f.width);
    ApplyAllSizes(contents, fixes);
    forall j: nat ensures Bit(field, j) == Bit(low, j) {
      LowBit(U32(f.value), f.width, j);
      LowBit(ShiftRight(WordAt(c, f.offset), f.position), f.width, j);
      if j < f.width {
        ShiftRightBit(WordAt(c, f.offset), f.position, j);
        WordAtBit(c, f.offset, j + f.position);
        FieldBit(contents, fixes, i, f.Start() + j);
      }
    }
    SameBits(field, low);
    if 0 <= f.value < Pow2(f.width) { InRangeValue(f.value, f.width); }
  }

  lemma InRangeValue(value: nat, width: nat)
    requires value < Pow2(width) && width <= 16
    ensures LowBits(U32(value), width) == value
  {
    hide Pow2, LowBits;
    Pow2Monotone(width, 16);
    Pow2Table();
    assert U32(value) == value;
    SmallLowBits(value, width);
  }

  /** The list may be in any order: the same relocations give the same sections. */
  lemma OrderIrrelevant(contents: seq<Bytes>, fixes: seq<Fix>, other: seq<Fix>)
    requires AllInside(contents, fixes) && AllDisjoint(fixes)
    requires AllInside(contents, other) && AllDisjoint(other)
    requires forall f :: f in fixes <==> f in other
    ensures ApplyAll(contents, fixes) == ApplyAll(contents, other)
  {
    hide SectionBit, ApplyAll, Bit, U32;
    ApplyAllSizes(contents, fixes);
    ApplyAllSizes(contents, other);
    forall s | 0 <= s < |contents| ensures ApplyAll(contents, fixes)[s] == ApplyAll(contents, other)[s] {
      forall k: nat ensures SectionBit(ApplyAll(contents, fixes)[s], k) == SectionBit(ApplyAll(contents, other)[s], k) {
        SameFinalBit(contents, fixes, other, s, k);
      }
      SameSectionBits(ApplyAll(contents, fixes)[s], ApplyAll(contents, other)[s]);
    }
  }

  lemma SameFinalBit(contents: seq<Bytes>, fixes: seq<Fix>, other: seq<Fix>, s: nat, k: nat)
    requires AllInside(contents, fixes) && AllDisjoint(fixes)
    requires AllInside(contents, other) && AllDisjoint(other)
    requires (forall f :: f in fixes <==> f in other) && s < |contents|
    ensures SectionBit(ApplyAll(contents, fixes)[s], k) == SectionBit(ApplyAll(contents, other)[s], k)
  {
    hide SectionBit, ApplyAll, Bit, U32;
    if i :| 0 <= i < |fixes| && fixes[i].Touches(s, k) {
      assert fixes[i] in other;
      var j :| 0 <= j < |other| && other[j] == fixes[i];
      FieldBit(contents, fixes, i, k);
      FieldBit(contents, other, j, k);
    } else {
      forall j | 0 <= j < |other| ensures !other[j].Touches(s, k) { assert other[j] in fixes; }
      UntouchedBit(contents, fixes, s, k);
      UntouchedBit(contents, other, s, k);
    }
  }

  /** A relocation the linker can resolve: it has no symbol, or one that is defined. */
  predicate Resolved(env: Env, r: Relocation) { r.symbol == "" || r.symbol in env.defs }

  /** The sections a relocation refers to exist. */
  predicate InTable(env: Env, count: nat, r: Relocation)
  {
    r.section < count && (r.symbol in env.defs ==> env.defs[r.symbol].section < count)
  }

  /** The `int` the relocation computes: the symbol's section base plus the addend, less the patched
      word's own address for a PC-relative field. */
  function TargetValue(env: Env, bases: seq<nat>, r: Relocation): int
    requires Resolved(env, r) && InTable(env, |bases|, r)
  {
    var target := if r.symbol == "" then 0 else bases[env.defs[r.symbol].section];
    var value := I32(target + r.addend);
    if r.kind == RelativeUnsigned then I32(value - (bases[r.section] + r.offset)) else value
  }

  /** PC-relative fields count instructions, not bytes. */
  function FixOf(env: Env, bases: seq<nat>, r: Relocation): Fix
    requires Resolved(env, r) && InTable(env, |bases|, r)
  {
    var value := TargetValue(env, bases, r);
    Fix(r.section, r.offset, r.position, r.width, if r.kind == RelativeUnsigned then value / 2 else value)
  }

  /** The relocation is reported as an error. */
  predicate Refused(env: Env, bases: seq<nat>, r: Relocation)
    requires InTable(env, |bases|, r)
  {
    if !Resolved(env, r) then true
    else
      var value := TargetValue(env, bases, r);
      if r.kind == RelativeUnsigned then value < 0 || value >= Pow2(r.width + 1) else value > Pow2(r.width)
  }

  function Fixes(env: Env, bases: seq<nat>, rs: seq<Relocation>): seq<Fix>
    requires forall r | r in rs :: InTable(env, |bases|, r)
  {
    if rs == [] then []
    else (if Resolved(env, rs[0]) then [FixOf(env, bases, rs[0])] else []) + Fixes(env, bases, rs[1..])
  }

  /** The address a relocation's symbol and addend stand for once sections are placed. */
  function LinkedAddress(env: Env, bases: seq<nat>, r: Relocation): int
    requires r.symbol in env.defs && env.defs[r.symbol].section < |bases|
  {
    bases[env.defs[r.symbol].section] + r.addend
  }

  /** An absolute field is reported as an error exactly when the address is greater than two to the field's width. */
  lemma AbsoluteRefusedIff(env: Env, bases: seq<nat>, r: Relocation)
    requires r.section < |bases| && r.symbol in env.defs && env.defs[r.symbol].section < |bases| && r.symbol != ""
    requires r.kind == AbsoluteField && IsInt(LinkedAddress(env, bases, r))
    ensures Resolved(env, r) && FixOf(env, bases, r).value == LinkedAddress(env, bases, r)
    ensures Refused(env, bases, r) <==> bases[env.defs[r.symbol].section] + r.addend > Pow2(r.width)
  {
    hide Pow2;
  }

  /** A PC-relative field is reported exactly when the distance is negative, or does not fit with one bit more. */
  lemma RelativeRefusedIff(env: Env, bases: seq<nat>, r: Relocation)
    requires r.section < |bases| && r.symbol in env.defs && env.defs[r.symbol].section < |bases| && r.symbol != ""
    requires r.kind == RelativeUnsigned && IsInt(LinkedAddress(env, bases, r))
    requires IsInt(LinkedAddress(env, bases, r) - (bases[r.section] + r.offset))
    ensures var distance := bases[env.defs[r.symbol].section] + r.addend - (bases[r.section] + r.offset);
            && Resolved(env, r) && FixOf(env, bases, r).value == distance / 2
            && (Refused(env, bases, r) <==> distance < 0 || distance >= Pow2(r.width + 1))
  {
    hide Pow2;
  }

  /** The check on an absolute field lets through values the field cannot hold: an accepted address reads
      back unchanged exactly when it is neither negative nor the power of two one past the field. */
  lemma AbsoluteCheckIff(env: Env, bases: seq<nat>, r: Relocation)
    requires r.section < |bases| && r.symbol in env.defs && env.defs[r.symbol].section < |bases| && r.symbol != ""
    requires r.kind == AbsoluteField && IsInt(LinkedAddress(env, bases, r)) && r.width <= 16
    requires !Refused(env, bases, r)
    ensures Resolved(env, r)
    ensures var address := bases[env.defs[r.symbol].section] + r.addend;
            LowBits(U32(FixOf(env, bases, r).value), r.width) == address <==> 0 <= address && address != Pow2(r.width)
  {
    hide LowBits;
    AbsoluteRefusedIff(env, bases, r);
    var address := LinkedAddress(env, bases, r);
    if 0 <= address < Pow2(r.width) { InRangeValue(address, r.width); }
  }

  ghost function AddressesOf(table: seq<Section>): (bases: seq<nat>)
    reads table
    ensures |bases| == |table| && forall i | 0 <= i < |bases| :: bases[i] == table[i].baseAddress
  {
    seq(|table|, i requires 0 <= i < |table| reads table => table[i].baseAddress)
  }

  lemma ApplyAllSnoc(contents: seq<Bytes>, fixes: seq<Fix>, f: Fix)
    ensures ApplyAll(contents, fixes + [f]) == Apply(ApplyAll(contents, fixes), f)
    decreases |fixes|
  {
    hide Apply;
    if fixes == [] {
      assert fixes + [f] == [f];
    } else {
      assert (fixes + [f])[1..] == fixes[1..] + [f];
      ApplyAllSnoc(Apply(contents, fixes[0]), fixes[1..], f);
    }
  }

  lemma {:induction false} FixesSnoc(env: Env, bases: seq<nat>, rs: seq<Relocation>, r: Relocation)
    requires forall q | q in rs + [r] :: InTable(env, |bases|, q)
    ensures Fixes(env, bases, rs + [r])
            == Fixes(env, bases, rs) + if Resolved(env, r) then [FixOf(env, bases, r)] else []
    decreases |rs|
  {
    hide FixOf, Resolved, InTable;
    if rs == [] {
      assert rs + [r] == [r];
    } else {
      assert (rs + [r])[0] == rs[0] && (rs + [r])[1..] == rs[1..] + [r];
      assert forall q | q in rs[1..] + [r] :: q in rs + [r];
      FixesSnoc(env, bases, rs[1..], r);
    }
  }

  /** The sections' bytes after one relocation; one with an undefined symbol changes nothing. */
  function Linked(contents: seq<Bytes>, env: Env, bases: seq<nat>, r: Relocation): seq<Bytes>
    requires InTable(env, |bases|, r)
  {
    if Resolved(env, r) then Apply(contents, FixOf(env, bases, r)) else contents
  }

  /** `Sections::write16` */
  method Rewrite(t: SectionTable, section: nat, offset: nat, word: Word)
    requires t.Valid() && section < |t.table|
    modifies (set s | s in t.table)`contents
    ensures t.Valid() && AddressesOf(t.table) == old(AddressesOf(t.table))
    ensures t.Contents() == old(t.Contents())[section := Written(old(t.Contents()[section]), offset, WordBytes(word))]
  {
    hide Written, WordBytes;
    ghost var before := t.Contents();
    t.table[section].Write16(offset, word);
    assert t.Contents() == before[section := Written(before[section], offset, WordBytes(word))];
  }

  /** The section of a relocation's symbol; none when it is undefined. */
  method SymbolSection(evaluator: Evaluator, symbol: string) returns (known: bool, section: nat)
    requires evaluator.Valid() && !evaluator.stale && !DefinedError(evaluator.env, symbol)
    modifies evaluator`errors, evaluator.nodes, evaluator.symbols
    ensures evaluator.Valid() && (evaluator.errors > 0 <==> old(evaluator.errors) > 0)
    ensures known <==> symbol in evaluator.env.defs
    ensures known ==> section == evaluator.env.defs[symbol].section
  {
    hide Evaluator.Valid, Evaluator.Wired, Eval, DefinedType, DefinedValue, DefinedError;
    evaluator.ValidParts();
    var ty := Undefined;
    assert symbol in evaluator.env.defs ==> symbol in evaluator.table by { evaluator.TableParts(symbol); }
    if symbol in evaluator.table {
      evaluator.TableParts(symbol);
      ty := evaluator.TypeOf(evaluator.table[symbol]);
    }
    known, section := ty != Undefined, 0;
    if known {
      evaluator.ValidParts();
      evaluator.SectionDefined(symbol);
      section := evaluator.table[symbol].section;
    }
  }

  /** The value a relocation computes, and whether it is refused; an undefined symbol has none. */
  method LinkValue(t: SectionTable, evaluator: Evaluator, r: Relocation)
    returns (known: bool, value: int, refused: bool)
    requires t.Valid() && evaluator.Valid() && !evaluator.stale
    requires InTable(evaluator.env, |t.table|, r) && !DefinedError(evaluator.env, r.symbol)
    modifies evaluator`errors, evaluator.nodes, evaluator.symbols
    ensures evaluator.Valid() && (evaluator.errors > 0 <==> old(evaluator.errors) > 0)
    ensures known == Resolved(evaluator.env, r) && refused == Refused(evaluator.env, AddressesOf(t.table), r)
    ensures known ==> value == FixOf(evaluator.env, AddressesOf(t.table), r).value
    ensures r.kind == AbsoluteField && r.symbol in evaluator.env.defs && r.symbol != ""
            ==> var address := t.table[evaluator.env.defs[r.symbol].section].baseAddress + r.addend;
                IsInt(address) ==> (refused <==> address > Pow2(r.width))
  {
    hide Pow2, SectionTable.Valid, Evaluator.Valid, DefinedError;
    known, value, refused := true, 0, true;
    var target := 0;
    if r.symbol != "" {
      var section;
      known, section := SymbolSection(evaluator, r.symbol);
      if !known { return; }
      target := t.table[section].baseAddress;
    }
    value := I32(target + r.addend);
    if r.kind == RelativeUnsigned {
      value := I32(value - (t.table[r.section].baseAddress + r.offset));
      refused := value < 0 || value >= Pow2(r.width + 1);
      value := value / 2;
    } else {
      refused := value > Pow2(r.width);
    }
  }

  /** A section's bytes with one field replaced. */
  function Replaced(c: Bytes, r: Relocation, value: int): Bytes
  {
    Written(c, r.offset, WordBytes(Patch(WordAt(c, r.offset), r.position, r.width, value)))
  }

  lemma LinkedParts(contents: seq<Bytes>, env: Env, bases: seq<nat>, r: Relocation)
    requires InTable(env, |bases|, r) && |bases| == |contents|
    ensures r.section < |bases|
    ensures Linked(contents, env, bases, r)
            == if Resolved(env, r)
               then contents[r.section := Replaced(contents[r.section], r, FixOf(env, bases, r).value)] else contents
  {
    hide Patch, Written, WordAt, TargetValue, WordBytes;
  }

  /** Reads a word, patches it and writes it back. */
  method PatchWord(t: SectionTable, r: Relocation, value: int)
    requires t.Valid() && r.section < |t.table|
    modifies (set s | s in t.table)`contents
    ensures t.Valid() && AddressesOf(t.table) == old(AddressesOf(t.table))
    ensures t.Contents() == old(t.Contents())[r.section := Replaced(old(t.Contents()[r.section]), r, value)]
  {
    hide Patch, Written, WordAt, SectionTable.Valid;
    var content := t.table[r.section].Read16(r.offset);
    Rewrite(t, r.section, r.offset, Patch(content, r.position, r.width, value));
  }

  /** The body of `relocate`'s loop. */
  method RelocateOne(t: SectionTable, evaluator: Evaluator, r: Relocation)
    requires t.Valid() && evaluator.Valid() && !evaluator.stale
    requires InTable(evaluator.env, |t.table|, r) && !DefinedError(evaluator.env, r.symbol)
    modifies evaluator`errors, evaluator.nodes, evaluator.symbols, (set s | s in t.table)`contents
    ensures t.Valid() && AddressesOf(t.table) == old(AddressesOf(t.table)) && evaluator.Valid()
    ensures t.Contents() == Linked(old(t.Contents()), evaluator.env, AddressesOf(t.table), r)
    ensures evaluator.errors > 0 <==> old(evaluator.errors) > 0 || Refused(evaluator.env, AddressesOf(t.table), r)
  {
    hide Replaced, SectionTable.Valid, SectionTable.Contents, AddressesOf, Evaluator.Valid, DefinedError, Refused;
    hide Resolved, Env.Acyclic, InTable, Linked, FixOf;
    LinkedParts(t.Contents(), evaluator.env, AddressesOf(t.table), r);
    var known, value, refused := LinkValue(t, evaluator, r);
    if refused { evaluator.Report(); }
    if known { PatchWord(t, r, value); }
  }

  lemma LinkedSnoc(contents: seq<Bytes>, env: Env, bases: seq<nat>, rs: seq<Relocation>, i: nat)
    requires i < |rs| && forall q | q in rs :: InTable(env, |bases|, q)
    ensures ApplyAll(contents, Fixes(env, bases, rs[..i + 1]))
            == Linked(ApplyAll(contents, Fixes(env, bases, rs[..i])), env, bases, rs[i])
  {
    hide InTable, FixOf, Apply, ApplyAll, Fixes;
    var fixes := Fixes(env, bases, rs[..i]);
    assert rs[..i + 1] == rs[..i] + [rs[i]];
    FixesSnoc(env, bases, rs[..i], rs[i]);
    if Resolved(env, rs[i]) {
      ApplyAllSnoc(contents, fixes, FixOf(env, bases, rs[i]));
    } else {
      assert fixes + [] == fixes;
    }
  }

  /** `Relocations::relocate` */
  method Relocate(t: SectionTable, evaluator: Evaluator, relocations: seq<Relocation>)
    requires t.Valid() && evaluator.Valid() && !evaluator.stale
    requires forall r | r in relocations ::
               InTable(evaluator.env, |t.table|, r) && !DefinedError(evaluator.env, r.symbol)
    modifies evaluator`errors, evaluator.nodes, evaluator.symbols, (set s | s in t.table)`contents
    ensures t.Valid() && evaluator.Valid()
    ensures t.Contents() == ApplyAll(old(t.Contents()), Fixes(evaluator.env, AddressesOf(t.table), relocations))
    ensures evaluator.errors > 0
            <==> old(evaluator.errors) > 0 || AnyRefused(evaluator.env, AddressesOf(t.table), relocations)
  {
    hide InTable, Linked, Refused, ApplyAll, Fixes, AnyRefused, SectionTable.Valid, SectionTable.Contents, AddressesOf;
    hide Evaluator.Valid, DefinedError;
    ghost var before, bases, env := t.Contents(), AddressesOf(t.table), evaluator.env;
    NoFixes(before, env, bases, relocations[..0]);
    for i := 0 to |relocations|
      invariant t.Valid() && AddressesOf(t.table) == bases && evaluator.Valid()
      invariant t.Contents() == ApplyAll(before, Fixes(env, bases, relocations[..i]))
      invariant evaluator.errors > 0 <==> old(evaluator.errors) > 0 || AnyRefused(env, bases, relocations[..i])
    {
      LinkedSnoc(before, env, bases, relocations, i);
      AnyRefusedSnoc(env, bases, relocations, i);
      RelocateOne(t, evaluator, relocations[i]);
    }
    assert relocations[..|relocations|] == relocations;
  }

  ghost predicate AnyRefused(env: Env, bases: seq<nat>, rs: seq<Relocation>)
    requires forall q | q in rs :: InTable(env, |bases|, q)
  {
    exists r | r in rs :: Refused(env, bases, r)
  }

  lemma AnyRefusedSnoc(env: Env, bases: seq<nat>, rs: seq<Relocation>, i: nat)
    requires i < |rs| && forall q | q in rs :: InTable(env, |bases|, q)
    ensures AnyRefused(env, bases, rs[..i + 1]) <==> AnyRefused(env, bases, rs[..i]) || Refused(env, bases, rs[i])
  {
    hide InTable, Refused;
    assert rs[..i + 1] == rs[..i] + [rs[i]];
  }

  lemma NoFixes(contents: seq<Bytes>, env: Env, bases: seq<nat>, none: seq<Relocation>)
    requires none == []
    ensures ApplyAll(contents, Fixes(env, bases, none)) == contents && !AnyRefused(env, bases, none)
  {
  }
}
