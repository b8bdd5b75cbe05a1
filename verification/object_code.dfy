/** What the linked sections hold: every item its relocated value, every instruction its resolved operand. */
module ObjectCode {
  import opened Bits
  import opened Machine
  import opened Expressions
  import opened ExactArithmetic
  import opened Relocatable
  import opened Sections
  import opened Relocations
  import opened InstructionSet
  import opened Instructions
  import opened Layout
  import opened TwoPass
  import opened CodeGeneration
  import opened PcRelative
  import opened Linking

  /** A program assembled without errors, whose relocations keep every section's size. */
  ghost predicate Linkage(env: Env, bases: seq<nat>, placed: seq<Placed>, contents: seq<Bytes>)
  {
    && Generated(env, placed, contents) && |bases| == |contents| && "" !in env.defs
    && Assembled(contents, placed, Images(env, placed)) && Sized(placed, Images(env, placed))
    && forall r | r in AllLinks(env, placed, |placed|) :: !OnLastByte(contents, r)
  }

  /** The sections after linking. */
  ghost function Final(env: Env, bases: seq<nat>, placed: seq<Placed>, contents: seq<Bytes>): (r: seq<Bytes>)
    requires Linkage(env, bases, placed, contents)
    ensures |r| == |contents|
  {
    hide Generated, Assembled, Sized, AllDisjoint, AllInside, OnLastByte, FixOf;
    assert env.Acyclic() by { GeneratedAcyclic(env, placed, contents); }
    ProgramFixes(env, bases, placed, contents);
    ApplyAll(contents, Fixes(env, bases, AllLinks(env, placed, |placed|)))
  }

  lemma {:induction false} LinkOwner(env: Env, placed: seq<Placed>, n: nat, r: Relocation) returns (j: nat)
    requires env.Acyclic() && n <= |placed| && r in AllLinks(env, placed, n)
    ensures j < n && r in LinksOf(env, placed[j])
  {
    hide LinksOf;
    if r in LinksOf(env, placed[n - 1]) {
      j := n - 1;
    } else {
      j := LinkOwner(env, placed, n - 1, r);
    }
  }

  lemma {:induction false} OwnLink(env: Env, placed: seq<Placed>, n: nat, j: nat, r: Relocation)
    requires env.Acyclic() && j < n <= |placed| && r in LinksOf(env, placed[j])
    ensures r in AllLinks(env, placed, n)
  {
    hide LinksOf;
    if j < n - 1 { OwnLink(env, placed, n - 1, j, r); }
  }

  lemma {:induction false} SizeGrows(placed: seq<Placed>, i: nat, j: nat, k: nat)
    requires i <= j <= |placed|
    ensures SizeBefore(placed, i, k) <= SizeBefore(placed, j, k)
  {
    if i < j { SizeGrows(placed, i, j - 1, k); }
  }

  /** Rooms in one section do not overlap. */
  lemma RoomsApart(placed: seq<Placed>, count: nat, i: nat, j: nat)
    requires Fitted(placed, count) && i < j < |placed| && placed[i].section == placed[j].section
    ensures placed[i].offset + placed[i].size <= placed[j].offset
  {
    hide SizeBefore;
    var k := placed[i].section;
    assert SizeBefore(placed, i + 1, k) == SizeBefore(placed, i, k) + placed[i].size by { NextSize(placed, i); }
    SizeGrows(placed, i + 1, j, k);
  }

  lemma NextSize(placed: seq<Placed>, i: nat)
    requires i < |placed|
    ensures SizeBefore(placed, i + 1, placed[i].section) == SizeBefore(placed, i, placed[i].section) + placed[i].size
  {
  }

  /** A relocation whose field is not empty and meets a statement's room is that statement's own. */
  lemma MeetsOwn(env: Env, placed: seq<Placed>, count: nat, j: nat, r: Relocation, t: nat)
    requires env.Acyclic() && Fitted(placed, count) && forall p | p in placed :: RightSize(env, p)
    requires j < |placed| && r in AllLinks(env, placed, |placed|) && r.section == placed[j].section
    requires FieldStart(r) <= t < FieldEnd(r) && 8 * placed[j].offset <= t < 8 * (placed[j].offset + placed[j].size)
    ensures r in LinksOf(env, placed[j])
  {
    hide LinksOf, AllLinks, RightSize, Fitted;
    var i := LinkOwner(env, placed, |placed|, r);
    LinksInRoom(env, placed[i]);
    if i < j { RoomsApart(placed, count, i, j); }
    if j < i { RoomsApart(placed, count, j, i); }
  }

  /** What `Linkage` says, for proofs that hide it. */
  lemma LinkageParts(env: Env, bases: seq<nat>, placed: seq<Placed>, contents: seq<Bytes>)
    requires Linkage(env, bases, placed, contents)
    ensures Generated(env, placed, contents) && |bases| == |contents| && "" !in env.defs
    ensures env.Acyclic() && IntEnv(env) && KnownSections(env, |contents|) && Fitted(placed, |contents|)
    ensures forall p | p in placed :: RightSize(env, p) && IntBody(p.body)
    ensures Sized(placed, Images(env, placed)) && Assembled(contents, placed, Images(env, placed))
  {
  }

  /** The linker's list for a program, and what it needs of it. */
  lemma FinalParts(env: Env, bases: seq<nat>, placed: seq<Placed>, contents: seq<Bytes>) returns (fixes: seq<Fix>)
    requires Linkage(env, bases, placed, contents)
    ensures env.Acyclic() && Final(env, bases, placed, contents) == ApplyAll(contents, fixes)
    ensures AllInside(contents, fixes) && AllDisjoint(fixes)
    ensures var rs := AllLinks(env, placed, |placed|);
            && |fixes| == |rs|
            && forall i | 0 <= i < |rs| ::
                 Linkable(env, |bases|, rs[i]) && fixes[i] == FixOf(env, bases, rs[i])
  {
    hide Generated, Assembled, Sized, ApplyAll, AllDisjoint, AllInside, FixOf, OnLastByte;
    assert env.Acyclic() by { GeneratedAcyclic(env, placed, contents); }
    ProgramFixes(env, bases, placed, contents);
    fixes := Fixes(env, bases, AllLinks(env, placed, |placed|));
  }

  lemma GeneratedAcyclic(env: Env, placed: seq<Placed>, contents: seq<Bytes>)
    requires Generated(env, placed, contents)
    ensures env.Acyclic()
  {
  }

  /** A bit of a statement's own field is the bit of the value that was linked in. */
  lemma OwnBit(env: Env, bases: seq<nat>, placed: seq<Placed>, contents: seq<Bytes>, j: nat, r: Relocation, t: nat)
    requires env.Acyclic() && Linkage(env, bases, placed, contents) && j < |placed| && r in LinksOf(env, placed[j])
    requires Linkable(env, |bases|, r) && r.section < |contents| && FieldStart(r) <= t < FieldEnd(r)
    ensures SectionBit(Final(env, bases, placed, contents)[r.section], t)
            == Bit(U32(FixOf(env, bases, r).value), t - FieldStart(r))
  {
    hide Linkage, Final, LinksOf, AllLinks, FixOf, SectionBit, Bit, U32, ApplyAll, Linkable, AllInside, AllDisjoint;
    var fixes := FinalParts(env, bases, placed, contents);
    OwnLink(env, placed, |placed|, j, r);
    var i :| 0 <= i < |AllLinks(env, placed, |placed|)| && AllLinks(env, placed, |placed|)[i] == r;
    FixOfField(env, bases, r);
    FieldBit(contents, fixes, i, t);
  }

  /** A bit of a statement's room that none of its fields has is as the code generator left it. */
  lemma PlainBit(env: Env, bases: seq<nat>, placed: seq<Placed>, contents: seq<Bytes>, j: nat, t: nat)
    requires env.Acyclic() && Linkage(env, bases, placed, contents) && j < |placed| && placed[j].section < |contents|
    requires 8 * placed[j].offset <= t < 8 * (placed[j].offset + placed[j].size)
    requires forall r | r in LinksOf(env, placed[j]) :: !(FieldStart(r) <= t < FieldEnd(r))
    ensures SectionBit(Final(env, bases, placed, contents)[placed[j].section], t)
            == SectionBit(contents[placed[j].section], t)
  {
    hide Linkage, Final, LinksOf, AllLinks, FixOf, SectionBit, ApplyAll, Linkable, AllInside, AllDisjoint, Fitted;
    hide RightSize;
    hide Assembled, Sized, Generated, IntBody;
    var rs, s := AllLinks(env, placed, |placed|), placed[j].section;
    LinkageParts(env, bases, placed, contents);
    var fixes := FinalParts(env, bases, placed, contents);
    forall i | 0 <= i < |fixes| ensures !fixes[i].Touches(s, t) {
      FixOfField(env, bases, rs[i]);
      if rs[i].section == s && FieldStart(rs[i]) <= t < FieldEnd(rs[i]) {
        MeetsOwn(env, placed, |contents|, j, rs[i], t);
      }
    }
    UntouchedBit(contents, fixes, s, t);
  }

  /** The code generator's bytes, bit by bit. */
  lemma ImageBit(env: Env, bases: seq<nat>, placed: seq<Placed>, contents: seq<Bytes>, j: nat, u: nat)
    requires env.Acyclic() && Linkage(env, bases, placed, contents) && j < |placed| && placed[j].section < |contents|
    requires u < 8 * placed[j].size
    ensures SectionBit(contents[placed[j].section], 8 * placed[j].offset + u) == SectionBit(Image(env, placed[j]), u)
  {
    hide Linkage, Image, SectionBit, Assembled, Sized, Fitted, RightSize, IntBody, Generated;
    LinkageParts(env, bases, placed, contents);
    var p := placed[j];
    SlotHolds(contents, placed, Images(env, placed), j);
    SliceBit(contents[p.section], p.offset, p.size, u);
  }

  lemma SliceBit(c: Bytes, offset: nat, size: nat, u: nat)
    requires offset + size <= |c| && u < 8 * size
    ensures SectionBit(c[offset..offset + size], u) == SectionBit(c, 8 * offset + u)
  {
    hide Bit;
    assert (8 * offset + u) / 8 == offset + u / 8 && (8 * offset + u) % 8 == u % 8;
  }

  /** Where each section starts, for `Relocatable`. */
  function LayoutOf(bases: seq<nat>): Relocatable.Layout { (s: nat) => if s < |bases| then bases[s] else 0 }

  lemma {:induction false} ItemOwner(env: Env, section: nat, offset: nat, grain: Grain, values: seq<Expr>, n: nat,
                                     r: Relocation)
    returns (i: nat)
    requires env.Acyclic() && n <= |values| && r in ItemsLinks(env, section, offset, grain, values, n)
    ensures i < n && r in ItemLinks(env, section, offset + grain * i, grain, values[i])
  {
    hide ItemLinks;
    if r in ItemLinks(env, section, offset + grain * (n - 1), grain, values[n - 1]) {
      i := n - 1;
    } else {
      i := ItemOwner(env, section, offset, grain, values, n - 1, r);
    }
  }

  lemma {:induction false} ItemOwn(env: Env, section: nat, offset: nat, grain: Grain, values: seq<Expr>, n: nat, i: nat)
    requires env.Acyclic() && i < n <= |values|
    ensures forall r | r in ItemLinks(env, section, offset + grain * i, grain, values[i]) ::
              r in ItemsLinks(env, section, offset, grain, values, n)
  {
    hide ItemLinks;
    if i < n - 1 { ItemOwn(env, section, offset, grain, values, n - 1, i); }
  }

  /** The bytes of one item among all. */
  lemma {:induction false} ItemsSlice(env: Env, grain: Grain, values: seq<Expr>, n: nat, i: nat)
    requires env.Acyclic() && i < n <= |values|
    ensures grain * i + grain <= grain * n
    ensures ItemsBytes(env, grain, values, n)[grain * i..grain * i + grain]
        == ItemBytes(grain, ItemValue(env, values[i]))
  {
    hide ItemValue, ItemBytes;
    MulMonotone(i + 1, n, grain, grain);
    var all, before := ItemsBytes(env, grain, values, n), ItemsBytes(env, grain, values, n - 1);
    if i < n - 1 {
      ItemsSlice(env, grain, values, n - 1, i);
      assert all[grain * i..grain * i + grain] == before[grain * i..grain * i + grain];
    }
  }

  /** The low bits of a word are the bits of its bytes. */
  lemma ItemBit(grain: Grain, w: Word, u: nat)
    requires u < 8 * grain
    ensures SectionBit(ItemBytes(grain, w), u) == Bit(w, u)
  {
    hide Bit;
    var bytes := ItemBytes(grain, w);
    WordBits(w % 0x100, w / 0x100, u);
    assert MakeWord(w % 0x100, w / 0x100) == w;
    assert u < 8 ==> u / 8 == 0 && u % 8 == u;
    assert u >= 8 ==> u / 8 == 1 && u % 8 == u - 8;
    assert bytes[0] == w % 0x100 && (grain == 2 ==> bytes[1] == w / 0x100);
  }

  lemma ItemBitsUnique(c: Bytes, offset: nat, grain: Grain, w: Word)
    requires offset + grain <= |c| && forall u: nat | u < 8 * grain :: SectionBit(c, 8 * offset + u) == Bit(w, u)
    ensures c[offset..offset + grain] == ItemBytes(grain, w)
  {
    hide Bit, SectionBit, ItemBytes;
    var slice := c[offset..offset + grain];
    forall k: nat ensures SectionBit(slice, k) == SectionBit(ItemBytes(grain, w), k) {
      if k < 8 * grain {
        SliceBit(c, offset, grain, k);
        ItemBit(grain, w, k);
      } else {
        PastEnd(slice, k);
        PastEnd(ItemBytes(grain, w), k);
      }
    }
    SameSectionBits(slice, ItemBytes(grain, w));
  }

  lemma PastEnd(c: Bytes, k: nat)
    requires k >= 8 * |c|
    ensures !SectionBit(c, k)
  {
  }

  /** Adding a base in 32 bits and keeping 16, or adding it to the 16-bit value: the low bits are the same. */
  lemma LinkedBit(value: int, base: nat, u: nat)
    requires u < 16
    ensures Bit(U32(I32(base + U16(value))), u) == Bit(U16(value + base), u)
  {
    hide Bit;
    WordBit(U32(I32(base + U16(value))), u);
    SumMod(value, base);
    assert U16(U32(I32(base + U16(value)))) == U16(base + U16(value)) by { Truncations(base + U16(value)); }
  }

  lemma Truncations(z: int)
    ensures U16(U32(I32(z))) == U16(z)
  {
    var q := z / 0x1_0000_0000;
    var r := z - 0x1_0000_0000 * q;
    assert U32(I32(z)) == r;
    assert z == 0x1_0000 * (0x1_0000 * q) + r;
    LowPart(0x1_0000 * q, r);
  }

  lemma LowPart(q: int, r: int)
    ensures U16(0x1_0000 * q + r) == U16(r)
  {
  }

  /** The value an absolute relocation links in. */
  lemma AbsoluteLink(env: Env, bases: seq<nat>, x: Expr, r: Relocation, u: nat)
    requires env.Acyclic() && IsLabel(env, x) && Linkable(env, |bases|, r) && "" !in env.defs && u < 16
    requires r.kind == AbsoluteField && r.symbol == BaseSymbol(env, x) && r.addend == Eval(env, x).Operand()
    ensures Bit(U32(FixOf(env, bases, r).value), u) == Bit(Relocated(env, LayoutOf(bases), x), u)
  {
    hide Eval, BaseSymbol, Bit, U32, I32, U16;
    LinkedBit(Eval(env, x).value, bases[env.defs[r.symbol].section], u);
  }

  /** Where an item of `.byte` or `.word` is in its section. */
  function ItemAt(p: Placed, i: nat): nat
    requires p.body.Values?
  {
    p.offset + p.body.grain * i
  }

  lemma PlainItem(env: Env, p: Placed, i: nat, u: nat)
    requires env.Acyclic() && p.body.Values? && i < |p.body.values| && u < 8 * p.body.grain
    requires !IsLabel(env, p.body.values[i])
    ensures var t := 8 * ItemAt(p, i) + u;
            forall r | r in LinksOf(env, p) :: !(FieldStart(r) <= t < FieldEnd(r))
  {
    hide Eval, BaseSymbol, IsLabel;
    var grain, values := p.body.grain, p.body.values;
    forall r | r in LinksOf(env, p) ensures var t := 8 * ItemAt(p, i) + u; !(FieldStart(r) <= t < FieldEnd(r)) {
      var k := ItemOwner(env, p.section, p.offset, grain, values, |values|, r);
      assert k != i && FieldStart(r) == 8 * (p.offset + grain * k) && r.width == 8 * grain;
      if k < i { MulMonotone(k + 1, i, grain, grain); } else { MulMonotone(i + 1, k, grain, grain); }
    }
  }

  lemma LabelItemBit(env: Env, bases: seq<nat>, placed: seq<Placed>, contents: seq<Bytes>, j: nat, i: nat, u: nat)
    requires env.Acyclic() && Linkage(env, bases, placed, contents) && j < |placed| && placed[j].section < |contents|
    requires placed[j].body.Values? && i < |placed[j].body.values| && u < 8 * placed[j].body.grain
    requires IsLabel(env, placed[j].body.values[i])
    ensures SectionBit(Final(env, bases, placed, contents)[placed[j].section], 8 * ItemAt(placed[j], i) + u)
            == Bit(Relocated(env, LayoutOf(bases), placed[j].body.values[i]), u)
  {
    hide Eval, BaseSymbol, Bit, SectionBit, Linkage, Final, LinksOf, ItemsLinks, Image, Linkable, FixOf, RightSize;
    hide IntBody;
    hide Relocated, LayoutOf, U32, ItemAt, Fitted, Sized, Assembled, Generated, IntEnv, KnownSections;
    LinkageParts(env, bases, placed, contents);
    var p, x := placed[j], placed[j].body.values[i];
    var r := ItemLinks(env, p.section, ItemAt(p, i), p.body.grain, x)[0];
    assert r in LinksOf(env, p) by { ItemInLinks(env, p, i); }
    assert Linkable(env, |bases|, r) by { LinksLinkable(env, p, |bases|); }
    OwnBit(env, bases, placed, contents, j, r, 8 * ItemAt(p, i) + u);
    AbsoluteLink(env, bases, x, r, u);
  }

  /** What an item holds after linking: its value plus its section's base, or zero when it could not be evaluated. */
  function LinkedValue(env: Env, base: Relocatable.Layout, x: Expr): Word
    requires env.Acyclic()
  {
    if Eval(env, x).ok then Relocated(env, base, x) else 0
  }

  lemma PlainItemBit(env: Env, bases: seq<nat>, placed: seq<Placed>, contents: seq<Bytes>, j: nat, i: nat, u: nat)
    requires env.Acyclic() && Linkage(env, bases, placed, contents) && j < |placed| && placed[j].section < |contents|
    requires placed[j].body.Values? && i < |placed[j].body.values| && u < 8 * placed[j].body.grain
    requires !IsLabel(env, placed[j].body.values[i])
    ensures SectionBit(Final(env, bases, placed, contents)[placed[j].section], 8 * ItemAt(placed[j], i) + u)
            == Bit(LinkedValue(env, LayoutOf(bases), placed[j].body.values[i]), u)
  {
    hide Eval, BaseSymbol, Bit, SectionBit, Linkage, Final, LinksOf, Image, RightSize, IntBody;
    hide Relocated, LayoutOf, ItemAt, ItemValue, Fitted, Sized, Assembled, Generated, IntEnv, KnownSections;
    hide LinkedValue;
    LinkageParts(env, bases, placed, contents);
    var p, x := placed[j], placed[j].body.values[i];
    ItemInRoom(env, p, i);
    PlainItem(env, p, i, u);
    PlainBit(env, bases, placed, contents, j, 8 * ItemAt(p, i) + u);
    ImageBit(env, bases, placed, contents, j, 8 * (ItemAt(p, i) - p.offset) + u);
    ItemImageBit(env, p, i, u);
    PlainRelocated(env, LayoutOf(bases), x);
  }

  /** Bit by bit: an item is linked to its relocated value. */
  lemma ItemFinalBit(env: Env, bases: seq<nat>, placed: seq<Placed>, contents: seq<Bytes>, j: nat, i: nat, u: nat)
    requires env.Acyclic() && Linkage(env, bases, placed, contents) && j < |placed| && placed[j].section < |contents|
    requires placed[j].body.Values? && i < |placed[j].body.values| && u < 8 * placed[j].body.grain
    ensures SectionBit(Final(env, bases, placed, contents)[placed[j].section], 8 * ItemAt(placed[j], i) + u)
            == Bit(LinkedValue(env, LayoutOf(bases), placed[j].body.values[i]), u)
  {
    hide Eval, BaseSymbol, Bit, SectionBit, Linkage, Final, Relocated, LayoutOf, ItemAt;
    if IsLabel(env, placed[j].body.values[i]) {
      LabelItemBit(env, bases, placed, contents, j, i, u);
    } else {
      PlainItemBit(env, bases, placed, contents, j, i, u);
    }
  }

  lemma ItemInLinks(env: Env, p: Placed, i: nat)
    requires env.Acyclic() && p.body.Values? && i < |p.body.values|
    ensures forall r | r in ItemLinks(env, p.section, ItemAt(p, i), p.body.grain, p.body.values[i]) ::
              r in LinksOf(env, p)
  {
    hide ItemLinks, ItemsLinks;
    ItemOwn(env, p.section, p.offset, p.body.grain, p.body.values, |p.body.values|, i);
  }

  lemma ItemInRoom(env: Env, p: Placed, i: nat)
    requires env.Acyclic() && p.body.Values? && i < |p.body.values| && RightSize(env, p)
    ensures p.offset <= ItemAt(p, i) && ItemAt(p, i) + p.body.grain <= p.offset + p.size
  {
    MulMonotone(i + 1, |p.body.values|, p.body.grain, p.body.grain);
  }

  lemma ItemImageBit(env: Env, p: Placed, i: nat, u: nat)
    requires env.Acyclic() && p.body.Values? && i < |p.body.values| && u < 8 * p.body.grain
    ensures p.offset <= ItemAt(p, i)
    ensures SectionBit(Image(env, p), 8 * (ItemAt(p, i) - p.offset) + u) == Bit(ItemValue(env, p.body.values[i]), u)
  {
    hide Bit, SectionBit, ItemBytes, ItemsBytes, ItemValue;
    var grain, values := p.body.grain, p.body.values;
    ItemsSlice(env, grain, values, |values|, i);
    SliceBit(Image(env, p), grain * i, grain, u);
    ItemBit(grain, ItemValue(env, values[i]), u);
  }

  lemma PlainRelocated(env: Env, base: Relocatable.Layout, x: Expr)
    requires env.Acyclic() && !IsLabel(env, x)
    ensures LinkedValue(env, base, x) == ItemValue(env, x)
  {
  }

  /** Every item of `.byte` and `.word` is, in the linked section, the low bytes of its value plus its section's
      base: and so, for safe expressions, of the value it has after placement. */
  lemma ItemHoldsValue(env: Env, bases: seq<nat>, placed: seq<Placed>, contents: seq<Bytes>, j: nat, i: nat)
    requires env.Acyclic() && Linkage(env, bases, placed, contents) && j < |placed| && placed[j].section < |contents|
    requires placed[j].body.Values? && i < |placed[j].body.values|
    ensures var p, base := placed[j], LayoutOf(bases);
            var x, c, at := p.body.values[i], Final(env, bases, placed, contents)[p.section], ItemAt(p, i);
            && at + p.body.grain <= |c|
            && c[at..at + p.body.grain] == ItemBytes(p.body.grain, LinkedValue(env, base, x))
            && (Eval(env, x).ok && SafeEnv(env, base) && Safe(env, base, x)
                ==> LinkedValue(env, base, x) == TrueValue(env, base, x))
  {
    hide Eval, BaseSymbol, Bit, SectionBit, Linkage, Final, Relocated, SafeEnv, Safe, TrueValue, ItemBytes, RightSize;
    hide IntBody, ItemAt, LayoutOf;
    hide Fitted, Sized, Assembled, Generated, IntEnv, KnownSections;
    var p, x := placed[j], placed[j].body.values[i];
    LinkageParts(env, bases, placed, contents);
    ItemInRoom(env, p, i);
    FinalRoom(env, bases, placed, contents, j);
    var c, at := Final(env, bases, placed, contents)[p.section], ItemAt(p, i);
    forall u: nat | u < 8 * p.body.grain
      ensures SectionBit(c, 8 * at + u) == Bit(LinkedValue(env, LayoutOf(bases), x), u)
    {
      ItemFinalBit(env, bases, placed, contents, j, i, u);
    }
    ItemBitsUnique(c, at, p.body.grain, LinkedValue(env, LayoutOf(bases), x));
    if Eval(env, x).ok && SafeEnv(env, LayoutOf(bases)) && Safe(env, LayoutOf(bases), x) {
      RelocatedIsTrue(env, LayoutOf(bases), x);
    }
  }

  lemma RelocatedIsTrue(env: Env, base: Relocatable.Layout, x: Expr)
    requires env.Acyclic() && SafeEnv(env, base) && Safe(env, base, x) && Eval(env, x).ok
    ensures Relocated(env, base, x) == TrueValue(env, base, x)
  {
    hide Eval, BaseSymbol, SafeEnv, Safe, SymbolBase, TrueValue;
    Soundness(env, base, x);
  }

  /** A statement's room is inside the linked section. */
  lemma FinalRoom(env: Env, bases: seq<nat>, placed: seq<Placed>, contents: seq<Bytes>, j: nat)
    requires Linkage(env, bases, placed, contents) && j < |placed| && placed[j].section < |contents|
    ensures placed[j].offset + placed[j].size <= |Final(env, bases, placed, contents)[placed[j].section]|
    ensures SameSizes(Final(env, bases, placed, contents), contents)
  {
    hide Linkage, Final, Assembled, Sized, Fitted, RightSize, IntBody, Generated, AllInside, AllDisjoint, ApplyAll;
    hide FixOf, Linkable;
    LinkageParts(env, bases, placed, contents);
    var fixes := FinalParts(env, bases, placed, contents);
    ApplyAllSizes(contents, fixes);
    SlotHolds(contents, placed, Images(env, placed), j);
  }

  lemma ImageRoom(env: Env, bases: seq<nat>, placed: seq<Placed>, contents: seq<Bytes>, j: nat)
    requires env.Acyclic() && Linkage(env, bases, placed, contents) && j < |placed|
    ensures |Image(env, placed[j])| == placed[j].size
  {
    hide Linkage, Image, RightSize, Assembled, Generated, IntBody, KnownSections;
    LinkageParts(env, bases, placed, contents);
    assert |Images(env, placed)[j]| == placed[j].size;
  }

  lemma ByteBit(c: Bytes, o: nat, b: nat)
    requires o < |c| && b < 8
    ensures SectionBit(c, 8 * o + b) == Bit(c[o], b)
  {
    hide Bit;
    assert (8 * o + b) / 8 == o && (8 * o + b) % 8 == b;
  }

  lemma ByteUnique(c: Bytes, o: nat, v: Byte)
    requires o < |c| && forall b: nat | b < 8 :: SectionBit(c, 8 * o + b) == Bit(v, b)
    ensures c[o] == v
  {
    hide Bit, SectionBit;
    Pow2Table();
    forall b: nat ensures Bit(c[o], b) == Bit(v, b) {
      if b < 8 {
        ByteBit(c, o, b);
      } else {
        SmallBits(c[o], 8, b);
        SmallBits(v, 8, b);
      }
    }
    SameBits(c[o], v);
  }

  /** The bytes of a statement without relocations stay as they were generated. */
  lemma PlainByte(env: Env, bases: seq<nat>, placed: seq<Placed>, contents: seq<Bytes>, j: nat, u: nat)
    requires env.Acyclic() && Linkage(env, bases, placed, contents) && j < |placed| && placed[j].section < |contents|
    requires LinksOf(env, placed[j]) == [] && u < placed[j].size
    ensures |Image(env, placed[j])| == placed[j].size
    ensures var c := Final(env, bases, placed, contents)[placed[j].section];
            placed[j].offset + u < |c| && c[placed[j].offset + u] == Image(env, placed[j])[u]
  {
    hide Linkage, Final, LinksOf, Image, SectionBit, Bit, Fitted, RightSize, Assembled, Generated, IntBody;
    hide KnownSections;
    var p := placed[j];
    var c := Final(env, bases, placed, contents)[p.section];
    ImageRoom(env, bases, placed, contents, j);
    FinalRoom(env, bases, placed, contents, j);
    forall b: nat | b < 8 ensures SectionBit(c, 8 * (p.offset + u) + b) == Bit(Image(env, p)[u], b) {
      PlainBit(env, bases, placed, contents, j, 8 * (p.offset + u) + b);
      ImageBit(env, bases, placed, contents, j, 8 * u + b);
      ByteBit(Image(env, p), u, b);
    }
    ByteUnique(c, p.offset + u, Image(env, p)[u]);
  }

  /** What an accepted instruction is after linking: its label operand is a distance, or the low byte of
      an address. */
  function Resolve(env: Env, base: Relocatable.Layout, i: Instruction, site: Site): (c: Code)
    requires env.Acyclic() && !Instructions.Faulty(env, i, site)
    requires i.LoadLabel? && IsLabel(env, i.target) ==> 0 <= Eval(env, i.target).Operand() - site.offset - 2 < 128
    ensures c.Valid()
  {
    match i
    case LoadLabel(_, rd, e) =>
      LoadRelative(rd, if IsLabel(env, e) then (Eval(env, e).Operand() - site.offset - 2) / 2 else 0)
    case MoveImmediate(high, rd, e) =>
      MoveConstant(high, rd, if Eval(env, e).ok then Relocated(env, base, e) % 256 else 0)
    case _ => Meaning(env, i, site)
  }

  /** The distance that `ldr rd, label` encodes, in instructions. */
  function LoadField(env: Env, i: Instruction, offset: nat): int
    requires env.Acyclic()
  {
    if i.LoadLabel? && IsLabel(env, i.target) then (Eval(env, i.target).Operand() - offset - 2) / 2 else 0
  }

  /** The value that `mov` and `movt` carry. */
  function MoveValue(env: Env, base: Relocatable.Layout, i: Instruction): Word
    requires env.Acyclic()
  {
    if i.MoveImmediate? && Eval(env, i.constant).ok then Relocated(env, base, i.constant) else 0
  }

  /** The word of every accepted instruction after linking, as numbers. */
  lemma ResolveSpelled(env: Env, base: Relocatable.Layout, i: Instruction, site: Site)
    requires env.Acyclic() && !Instructions.Faulty(env, i, site)
    requires i.LoadLabel? && IsLabel(env, i.target) ==> 0 <= Eval(env, i.target).Operand() - site.offset - 2 < 128
    ensures LoadField(env, i, site.offset) >= 0
    ensures Spelled(env, i, site.offset, LoadField(env, i, site.offset), MoveValue(env, base, i),
                    Encode(Resolve(env, base, i, site)))
  {
    hide Eval, BaseSymbol, Spelled, Instructions.Faulty, Meaning, Encode, Relocated;
    if i.LoadLabel? || i.MoveImmediate? {
      LinkedSpelled(env, base, i, site);
    } else {
      MeaningSpelled(env, i, site);
      SameSpelled(env, i, site.offset, 0, ConstantOf(env, OperandOr(i)), 0, 0, Encode(Meaning(env, i, site)));
    }
  }

  lemma LinkedSpelled(env: Env, base: Relocatable.Layout, i: Instruction, site: Site)
    requires env.Acyclic() && !Instructions.Faulty(env, i, site) && (i.LoadLabel? || i.MoveImmediate?)
    requires i.LoadLabel? && IsLabel(env, i.target) ==> 0 <= Eval(env, i.target).Operand() - site.offset - 2 < 128
    ensures LoadField(env, i, site.offset) >= 0
    ensures Spelled(env, i, site.offset, LoadField(env, i, site.offset), MoveValue(env, base, i),
                    Encode(Resolve(env, base, i, site)))
  {
    hide Eval, BaseSymbol, Instructions.Faulty, Relocated, Meaning;
  }

  /** The two parameters matter for label operands only. */
  lemma SameSpelled(env: Env, i: Instruction, offset: nat, field: nat, value: Word, other: nat, another: Word,
                    word: int)
    requires env.Acyclic() && !i.LoadLabel? && !i.MoveImmediate? && Spelled(env, i, offset, field, value, word)
    ensures Spelled(env, i, offset, other, another, word)
  {
    hide Eval;
  }

  /** Changing the middle field of a word changes its bits there and no others. */
  lemma FieldChanged(high: nat, low: nat, n: nat, value: int, u: nat)
    requires low < 0x10
    ensures Bit(high * Pow2(4 + n) + LowBits(U32(value), n) * 0x10 + low, u)
            == if 4 <= u < 4 + n then Bit(U32(value), u - 4) else Bit(high * Pow2(4 + n) + low, u)
  {
    hide Bit, U32, LowBits, Pow2;
    var field := LowBits(U32(value), n);
    assert Pow2(4) == 0x10 by { Pow2Table(); }
    FieldBelow(field, low, 4, n);
    ConcatBit(high, field * 0x10 + low, 4 + n, u);
    ConcatBit(high, low, 4 + n, u);
    ConcatBit(field, low, 4, u);
    if 4 <= u {
      SmallBits(low, 4, u);
      LowBit(U32(value), n, u - 4);
    }
  }

  lemma WordUnique(c: Bytes, offset: nat, w: Word)
    requires offset + 2 <= |c| && forall u: nat | u < 16 :: SectionBit(c, 8 * offset + u) == Bit(w, u)
    ensures WordAt(c, offset) == w
  {
    hide Bit, SectionBit;
    Pow2Table();
    var x := WordAt(c, offset);
    forall u: nat ensures Bit(x, u) == Bit(w, u) {
      if u < 16 {
        WordAtBit(c, offset, u);
      } else {
        SmallBits(x, 16, u);
        SmallBits(w, 16, u);
      }
    }
    SameBits(x, w);
  }

  /** An accepted instruction whose word is written. */
  predicate Accepted(env: Env, p: Placed)
    requires env.Acyclic()
  {
    && p.body.Instr? && !Instructions.Faulty(env, p.body.instruction, Site(p.section, p.offset))
    && Writes(env, p.body.instruction)
  }

  function CodeWord(env: Env, p: Placed): Word
    requires env.Acyclic() && Accepted(env, p)
  {
    Encode(Meaning(env, p.body.instruction, Site(p.section, p.offset)))
  }

  lemma CodeBit(env: Env, bases: seq<nat>, placed: seq<Placed>, contents: seq<Bytes>, j: nat, u: nat)
    requires env.Acyclic() && Linkage(env, bases, placed, contents) && j < |placed| && placed[j].section < |contents|
    requires Accepted(env, placed[j]) && u < 16
    ensures placed[j].size == 2
    ensures SectionBit(contents[placed[j].section], 8 * placed[j].offset + u) == Bit(CodeWord(env, placed[j]), u)
  {
    hide Eval, BaseSymbol, Bit, SectionBit, Linkage, Final, LinksOf, IntBody, Encode, Meaning, Writes;
    hide Instructions.Faulty;
    hide Fitted, Sized, Assembled, Generated, IntEnv, KnownSections, WordBytes;
    LinkageParts(env, bases, placed, contents);
    ImageBit(env, bases, placed, contents, j, u);
    ItemBit(2, CodeWord(env, placed[j]), u);
  }

  /** An instruction without a relocation stays as it was encoded. */
  lemma PlainInstruction(env: Env, bases: seq<nat>, placed: seq<Placed>, contents: seq<Bytes>, j: nat)
    requires env.Acyclic() && Linkage(env, bases, placed, contents) && j < |placed| && placed[j].section < |contents|
    requires Accepted(env, placed[j]) && LinksOf(env, placed[j]) == []
    ensures WordAt(Final(env, bases, placed, contents)[placed[j].section], placed[j].offset) == CodeWord(env, placed[j])
  {
    hide Bit, SectionBit, Linkage, Final, LinksOf, Accepted, CodeWord;
    var p := placed[j];
    var c := Final(env, bases, placed, contents)[p.section];
    CodeBit(env, bases, placed, contents, j, 0);
    FinalRoom(env, bases, placed, contents, j);
    forall u: nat | u < 16 ensures SectionBit(c, 8 * p.offset + u) == Bit(CodeWord(env, p), u) {
      CodeBit(env, bases, placed, contents, j, u);
      PlainBit(env, bases, placed, contents, j, 8 * p.offset + u);
    }
    WordUnique(c, p.offset, CodeWord(env, p));
  }

  /** An instruction with a relocation has its field replaced. */
  lemma LinkedInstruction(env: Env, bases: seq<nat>, placed: seq<Placed>, contents: seq<Bytes>, j: nat,
                          r: Relocation, high: nat, low: nat, word: Word)
    requires env.Acyclic() && Linkage(env, bases, placed, contents) && j < |placed| && placed[j].section < |contents|
    requires Accepted(env, placed[j]) && LinksOf(env, placed[j]) == [r] && low < 0x10
    requires Linkable(env, |bases|, r)
    requires (r.section, r.offset, r.position) == (placed[j].section, placed[j].offset, 4)
    requires CodeWord(env, placed[j]) == high * Pow2(4 + r.width) + low
    requires word == high * Pow2(4 + r.width) + LowBits(U32(FixOf(env, bases, r).value), r.width) * 0x10 + low
    ensures WordAt(Final(env, bases, placed, contents)[placed[j].section], placed[j].offset) == word
  {
    hide Bit, SectionBit, Linkage, Final, LinksOf, Accepted, CodeWord, FixOf, U32, LowBits, Pow2;
    var p := placed[j];
    var c := Final(env, bases, placed, contents)[p.section];
    CodeBit(env, bases, placed, contents, j, 0);
    FinalRoom(env, bases, placed, contents, j);
    forall u: nat | u < 16 ensures SectionBit(c, 8 * p.offset + u) == Bit(word, u) {
      FieldChanged(high, low, r.width, FixOf(env, bases, r).value, u);
      CodeBit(env, bases, placed, contents, j, u);
      if 4 <= u < 4 + r.width {
        OwnBit(env, bases, placed, contents, j, r, 8 * p.offset + u);
      } else {
        PlainBit(env, bases, placed, contents, j, 8 * p.offset + u);
      }
    }
    WordUnique(c, p.offset, word);
  }

  lemma LoadWord(env: Env, bases: seq<nat>, placed: seq<Placed>, contents: seq<Bytes>, j: nat)
    requires env.Acyclic() && Linkage(env, bases, placed, contents) && j < |placed| && placed[j].section < |contents|
    requires Accepted(env, placed[j]) && placed[j].body.instruction.LoadLabel? && placed[j].offset < 0x7FFF_0000
    requires IsLabel(env, placed[j].body.instruction.target)
    requires forall r | r in LinksOf(env, placed[j]) :: InTable(env, |bases|, r) && !Refused(env, bases, r)
    ensures var p := placed[j];
            var d := Eval(env, p.body.instruction.target).Operand() - p.offset - 2;
            && 0 <= d < 128
            && WordAt(Final(env, bases, placed, contents)[p.section], p.offset)
               == Encode(LoadRelative(p.body.instruction.rd, d / 2))
  {
    hide Eval, BaseSymbol, Linkage, Final, IsLabel, SameSectionLabel, Refused, InTable, FixOf, RightSize, Linkable;
    hide Pow2;
    hide Fitted, Sized, Assembled, Generated, IntEnv, IntLiterals, KnownSections, WordAt, LowBits;
    LinkageParts(env, bases, placed, contents);
    var p, i := placed[j], placed[j].body.instruction;
    var r := Relocation(p.section, p.offset, 4, 6, RelativeUnsigned, BaseSymbol(env, i.target),
                        Eval(env, i.target).Operand() - 2);
    LoadLink(env, p);
    assert r in LinksOf(env, p);
    assert Linkable(env, |bases|, r) by { LinksLinkable(env, p, |bases|); }
    assert BaseSymbol(env, i.target) in env.defs by { LinkableSymbol(env, |bases|, r); }
    LoadReaches(env, i.rd, i.target, Site(p.section, p.offset), bases);
    var d: int := Eval(env, i.target).Operand() - p.offset - 2;
    assert Pow2(6) == 64 && Pow2(4 + 6) == 0x400 by { Pow2Table(); }
    InRangeValue(d / 2, 6);
    LinkedInstruction(env, bases, placed, contents, j, r, 3, i.rd, Encode(LoadRelative(i.rd, d / 2)));
  }

  lemma LoadLink(env: Env, p: Placed)
    requires env.Acyclic() && Accepted(env, p) && p.body.instruction.LoadLabel?
    requires IsLabel(env, p.body.instruction.target)
    ensures var i := p.body.instruction;
            && i.ldst == 0 && SameSectionLabel(env, i.target, p.section)
            && LinksOf(env, p) == [Relocation(p.section, p.offset, 4, 6, RelativeUnsigned, BaseSymbol(env, i.target),
                                              Eval(env, i.target).Operand() - 2)]
  {
    hide Eval, BaseSymbol;
  }

  lemma LinkableSymbol(env: Env, count: nat, r: Relocation)
    requires Linkable(env, count, r)
    ensures r.symbol in env.defs
  {
  }

  lemma MoveWord(env: Env, bases: seq<nat>, placed: seq<Placed>, contents: seq<Bytes>, j: nat)
    requires env.Acyclic() && Linkage(env, bases, placed, contents) && j < |placed| && placed[j].section < |contents|
    requires Accepted(env, placed[j]) && placed[j].body.instruction.MoveImmediate?
    requires IsLabel(env, placed[j].body.instruction.constant)
    ensures var p := placed[j];
            WordAt(Final(env, bases, placed, contents)[p.section], p.offset)
            == Encode(Resolve(env, LayoutOf(bases), p.body.instruction, Site(p.section, p.offset)))
  {
    hide Eval, BaseSymbol, Linkage, Final, SameSectionLabel, FixOf, RightSize, Linkable, Pow2, Relocated, LayoutOf;
    hide Fitted, Sized, Assembled, Generated, IntEnv, IntLiterals, KnownSections, WordAt, LowBits, U32;
    LinkageParts(env, bases, placed, contents);
    var p, i := placed[j], placed[j].body.instruction;
    var r := Relocation(p.section, p.offset, 4, 8, AbsoluteField, BaseSymbol(env, i.constant),
                        Eval(env, i.constant).Operand());
    assert LinksOf(env, p) == [r];
    assert r in LinksOf(env, p);
    assert Linkable(env, |bases|, r) by { LinksLinkable(env, p, |bases|); }
    LowByte(env, bases, i.constant, r);
    assert Pow2(4 + 8) == 0x1000 by { Pow2Table(); }
    LinkedInstruction(env, bases, placed, contents, j, r, if i.high then 7 else 6, i.rd,
                      Encode(Resolve(env, LayoutOf(bases), i, Site(p.section, p.offset))));
  }

  /** The field of `mov rd, label` is the low byte of the address. */
  lemma LowByte(env: Env, bases: seq<nat>, x: Expr, r: Relocation)
    requires env.Acyclic() && IsLabel(env, x) && Linkable(env, |bases|, r) && "" !in env.defs
    requires r.kind == AbsoluteField && r.symbol == BaseSymbol(env, x) && r.addend == Eval(env, x).Operand()
    ensures LowBits(U32(FixOf(env, bases, r).value), 8) == Relocated(env, LayoutOf(bases), x) % 256
  {
    hide Eval, BaseSymbol, Bit, LowBits, Pow2, Relocated, LayoutOf, FixOf, U32;
    var v, w := U32(FixOf(env, bases, r).value), Relocated(env, LayoutOf(bases), x);
    forall u: nat ensures Bit(LowBits(v, 8), u) == Bit(LowBits(w, 8), u) {
      LowBit(v, 8, u);
      LowBit(w, 8, u);
      if u < 8 { AbsoluteLink(env, bases, x, r, u); }
    }
    SameBits(LowBits(v, 8), LowBits(w, 8));
    LowBitsMod(w, 8);
    assert Pow2(8) == 256 by { Pow2Table(); }
  }

  lemma PlainResolve(env: Env, base: Relocatable.Layout, p: Placed)
    requires env.Acyclic() && IntEnv(env) && IntBody(p.body) && Accepted(env, p) && LinksOf(env, p) == []
    ensures var i, site := p.body.instruction, Site(p.section, p.offset);
            !(i.LoadLabel? && IsLabel(env, i.target)) && Resolve(env, base, i, site) == Meaning(env, i, site)
  {
    hide Eval, BaseSymbol, IntEnv, IntLiterals;
    if p.body.instruction.MoveImmediate? { EvalSane(env, p.body.instruction.constant); }
  }

  lemma WhichLinks(env: Env, p: Placed)
    requires env.Acyclic() && Accepted(env, p)
    ensures var i := p.body.instruction;
            LinksOf(env, p) != []
            <==> (i.LoadLabel? && IsLabel(env, i.target)) || (i.MoveImmediate? && IsLabel(env, i.constant))
  {
    hide Eval, BaseSymbol;
  }

  /** In the linked section every accepted instruction decodes to itself, with its label operand resolved. */
  lemma InstructionDecodes(env: Env, bases: seq<nat>, placed: seq<Placed>, contents: seq<Bytes>, j: nat)
    requires env.Acyclic() && Linkage(env, bases, placed, contents) && j < |placed| && placed[j].section < |contents|
    requires Accepted(env, placed[j]) && placed[j].offset < 0x7FFF_0000
    requires forall r | r in LinksOf(env, placed[j]) :: InTable(env, |bases|, r) && !Refused(env, bases, r)
    ensures var p := placed[j];
            var i := p.body.instruction;
            && (i.LoadLabel? && IsLabel(env, i.target) ==> 0 <= Eval(env, i.target).Operand() - p.offset - 2 < 128)
            && Decode(WordAt(Final(env, bases, placed, contents)[p.section], p.offset))
               == Some(Resolve(env, LayoutOf(bases), i, Site(p.section, p.offset)))
  {
    hide Eval, BaseSymbol, Linkage, Final, LinksOf, Refused, InTable, Decode, Encode, Meaning, Relocated, LayoutOf;
    hide Fitted, Sized, Assembled, Generated, IntEnv, IntBody, KnownSections, RightSize;
    var p := placed[j];
    var i, site := p.body.instruction, Site(p.section, p.offset);
    WhichLinks(env, p);
    LinkageParts(env, bases, placed, contents);
    if LinksOf(env, p) == [] {
      PlainResolve(env, LayoutOf(bases), p);
      PlainInstruction(env, bases, placed, contents, j);
    } else if i.LoadLabel? {
      LoadWord(env, bases, placed, contents, j);
    } else {
      MoveWord(env, bases, placed, contents, j);
    }
    DecodeEncode(Resolve(env, LayoutOf(bases), i, site));
  }

  /** The label an instruction refers to relative to the PC. */
  predicate RefersTo(env: Env, i: Instruction, x: Expr)
    requires env.Acyclic()
  {
    ((i.LoadLabel? && i.target == x) || (i.BranchTo? && i.target == x)) && IsLabel(env, x)
  }

  /** In the linked section, the word of a branch or `ldr rd, label` at an even distance from its label
      reaches the label's final address, wherever the section was placed. */
  lemma ReachesLabel(env: Env, bases: seq<nat>, placed: seq<Placed>, contents: seq<Bytes>, j: nat, x: Expr)
    requires env.Acyclic() && Linkage(env, bases, placed, contents) && j < |placed| && placed[j].section < |contents|
    requires Accepted(env, placed[j]) && placed[j].offset < 0x7FFF_0000 && placed[j].section < |bases|
    requires forall r | r in LinksOf(env, placed[j]) :: InTable(env, |bases|, r) && !Refused(env, bases, r)
    requires RefersTo(env, placed[j].body.instruction, x) && (Eval(env, x).Operand() - placed[j].offset) % 2 == 0
    ensures var p := placed[j];
            var read := Decode(WordAt(Final(env, bases, placed, contents)[p.section], p.offset));
            && read.Some? && (read.value.Branch? || read.value.LoadRelative?)
            && TargetOf(read.value, bases[p.section] + p.offset) == bases[p.section] + Eval(env, x).Operand()
  {
    hide Eval, BaseSymbol, Linkage, Final, LinksOf, Refused, InTable, Decode, Encode, LayoutOf, RightSize, WordAt;
    hide Fitted, Sized, Assembled, Generated, IntEnv, IntBody, KnownSections;
    var p := placed[j];
    var i, site := p.body.instruction, Site(p.section, p.offset);
    InstructionDecodes(env, bases, placed, contents, j);
    if i.BranchTo? {
      BranchTarget(env, i, site, bases[p.section]);
    } else {
      LoadTarget(env, LayoutOf(bases), i, site, bases[p.section]);
    }
  }

  lemma BranchTarget(env: Env, i: Instruction, site: Site, base: nat)
    requires env.Acyclic() && i.BranchTo? && IsLabel(env, i.target) && !Instructions.Faulty(env, i, site)
    requires site.offset < 0x7FFF_0000 && (Eval(env, i.target).Operand() - site.offset) % 2 == 0
    ensures Meaning(env, i, site).Branch?
    ensures TargetOf(Meaning(env, i, site), base + site.offset) == base + Eval(env, i.target).Operand()
  {
    hide Eval, BaseSymbol, Encode, Decode;
    BranchReaches(env, i.mnemonic, i.target, site, base);
    DecodeEncode(Meaning(env, i, site));
  }

  lemma LoadTarget(env: Env, layout: Relocatable.Layout, i: Instruction, site: Site, base: nat)
    requires env.Acyclic() && i.LoadLabel? && IsLabel(env, i.target) && !Instructions.Faulty(env, i, site)
    requires 0 <= Eval(env, i.target).Operand() - site.offset - 2 < 128
    requires (Eval(env, i.target).Operand() - site.offset) % 2 == 0
    ensures TargetOf(Resolve(env, layout, i, site), base + site.offset) == base + Eval(env, i.target).Operand()
  {
    hide Eval, BaseSymbol;
  }
}
