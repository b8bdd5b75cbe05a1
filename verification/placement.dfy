/** Giving sections their addresses: an address-sorted list searched with an early exit. */
module Placement {
  import opened Bits
  import opened Machine
  import opened Sections

  /** The addresses from `base` up to, not including, `End()`. */
  datatype Span = Span(base: nat, size: nat) {
    function End(): nat { base + size }

    predicate Has(address: nat) { base <= address < base + size }
  }

  /** The overlap test; an empty span conflicts with one that has it strictly inside. */
  predicate Conflict(s: Span, r: Span) { s.End() > r.base && r.End() > s.base }

  ghost predicate Sorted(list: seq<Span>)
  {
    forall i | 0 <= i < |list| - 1 :: list[i].End() <= list[i + 1].base
  }

  /** Spans of which no two conflict. */
  ghost predicate Apart(list: seq<Span>)
  {
    forall i, j | 0 <= i < j < |list| :: !Conflict(list[j], list[i])
  }

  datatype Scan = Taken | FreeAt(index: nat)

  /** The search of `address_is_free` from position `i` on: it stops at the first span above `s`. */
  function Search(list: seq<Span>, s: Span, i: nat): (r: Scan)
    requires i <= |list|
    ensures r.FreeAt? ==> i <= r.index <= |list|
    decreases |list| - i
  {
    if i == |list| then FreeAt(i)
    else if Conflict(s, list[i]) then Taken
    else if s.End() <= list[i].base then FreeAt(i)
    else Search(list, s, i + 1)
  }

  lemma {:induction false} SortedAbove(list: seq<Span>, i: nat, j: nat)
    requires Sorted(list) && i < j < |list|
    ensures list[i].End() <= list[j].base
    decreases j
  {
    if i + 1 < j { SortedAbove(list, i, j - 1); }
  }

  /** Despite the early exit, the search finds room exactly when no span in the list conflicts, and the
      position it returns keeps the list sorted. */
  lemma {:induction false} SearchExact(list: seq<Span>, s: Span, i: nat)
    requires Sorted(list) && i <= |list|
    requires i > 0 ==> list[i - 1].End() <= s.base
    ensures var r := Search(list, s, i);
            && (r.FreeAt? <==> forall j | i <= j < |list| :: !Conflict(s, list[j]))
            && (r.FreeAt? ==> Sorted(list[..r.index] + [s] + list[r.index..]))
    decreases |list| - i
  {
    if i < |list| && !Conflict(s, list[i]) {
      if s.End() <= list[i].base {
        forall j | i < j < |list| ensures !Conflict(s, list[j]) { SortedAbove(list, i, j); }
      } else {
        SearchExact(list, s, i + 1);
      }
    }
  }

  /** Spans sorted this way never overlap, whichever two are taken. */
  lemma SortedIsApart(list: seq<Span>)
    requires Sorted(list)
    ensures Apart(list)
  {
    forall i, j | 0 <= i < j < |list| ensures !Conflict(list[j], list[i]) { SortedAbove(list, i, j); }
  }

  /** Two sections conflict exactly when they have an address in common; an empty one, when it is inside the other. */
  lemma ConflictMeans(s: Span, r: Span)
    ensures s.size > 0 && r.size > 0
            ==> (Conflict(s, r) <==> exists a: nat :: s.Has(a) && r.Has(a))
    ensures s.size == 0 ==> (Conflict(s, r) <==> r.base < s.base < r.End())
    ensures r.size == 0 ==> (Conflict(s, r) <==> s.base < r.base < s.End())
  {
    if s.size > 0 && r.size > 0 && Conflict(s, r) {
      var a := if s.base < r.base then r.base else s.base;
      assert s.Has(a) && r.Has(a);
    }
  }

  /** `Sections::align`, on 32-bit addresses; dividing by `1 << n` drops the low `n` bits. */
  function Align(address: nat, n: nat): nat
  {
    ShiftRight(U32(U32(address) + Pow2(n) - 1), n) * Pow2(n)
  }

  lemma {:induction false} MultipleLowBits(q: nat, n: nat)
    ensures LowBits(q * Pow2(n), n) == 0
  {
    if n > 0 {
      var half := q * Pow2(n - 1);
      assert q * Pow2(n) == 2 * half by { Doubled(q, Pow2(n - 1)); }
      assert (2 * half) % 2 == 0 && (2 * half) / 2 == half;
      MultipleLowBits(q, n - 1);
    }
  }

  lemma AlignValue(address: nat, n: nat)
    requires address + Pow2(n) - 1 < 0x1_0000_0000
    ensures Align(address, n) == ShiftRight(address + Pow2(n) - 1, n) * Pow2(n)
  {
    hide Pow2, ShiftRight;
    assert U32(U32(address) + Pow2(n) - 1) == address + Pow2(n) - 1;
  }

  /** Short of the top of the 32-bit range, `align` gives the least multiple of `2^n` not below its argument. */
  lemma AlignLeast(address: nat, n: nat, k: nat)
    requires address + Pow2(n) - 1 < 0x1_0000_0000
    ensures address <= Align(address, n) && LowBits(Align(address, n), n) == 0
    ensures address <= k * Pow2(n) ==> Align(address, n) <= k * Pow2(n)
  {
    hide Pow2, ShiftRight, LowBits, Align;
    var p := Pow2(n);
    var top := address + p - 1;
    var q := ShiftRight(top, n);
    AlignValue(address, n);
    ShiftRightSplit(top, n);
    MultipleLowBits(q, n);
    if address <= k * p && k < q { NextMultiple(q, k, p); }
    if q <= k { MulMonotone(q, k, p, p); }
  }

  /** The addresses `locate` works with: the one given for a section's name, or else the even address
      at or after the end of the section before it. */
  function Bases(secs: seq<Record>, given: map<string, nat>, next: nat): (bases: seq<nat>)
    ensures |bases| == |secs|
  {
    if secs == [] then []
    else
      var base := if secs[0].name in given then given[secs[0].name] else next;
      [base] + Bases(secs[1..], given, Align(base + |secs[0].contents|, 1))
  }

  /** A section is at the address given for its name; or else the first at the start, and any other at the first
      even address from the end of the one before it. */
  lemma {:induction false} BaseOfSection(secs: seq<Record>, given: map<string, nat>, next: nat, k: nat)
    requires k < |secs|
    ensures var bases := Bases(secs, given, next);
            && (secs[k].name in given ==> bases[k] == given[secs[k].name])
            && (secs[k].name !in given && k == 0 ==> bases[k] == next)
            && (secs[k].name !in given && k > 0 && bases[k - 1] + |secs[k - 1].contents| + 1 < 0x1_0000_0000
                ==> var end := bases[k - 1] + |secs[k - 1].contents|; bases[k] == end + end % 2)
    decreases k
  {
    hide Align;
    var base := if secs[0].name in given then given[secs[0].name] else next;
    var end := base + |secs[0].contents|;
    if end + 1 < 0x1_0000_0000 { EvenAlign(end); }
    if k > 0 { BaseOfSection(secs[1..], given, Align(end, 1), k - 1); }
  }

  function Spans(secs: seq<Record>, bases: seq<nat>): (spans: seq<Span>)
    requires |secs| == |bases|
    ensures |spans| == |secs|
  {
    seq(|secs|, i requires 0 <= i < |secs| => Span(bases[i], |secs[i].contents|))
  }

  /** The bytes sections take when each but the last is padded to an even size. */
  function Padded(secs: seq<Record>): nat
  {
    if secs == [] then 0 else |secs[0].contents| + |secs[0].contents| % 2 + Padded(secs[1..])
  }

  /** Each span ends where the next begins, or one byte before. */
  ghost predicate Packed(spans: seq<Span>, next: nat)
  {
    && (spans != [] ==> spans[0].base == next)
    && (forall i | 0 <= i < |spans| :: spans[i].base % 2 == 0)
    && (forall i | 0 <= i < |spans| - 1 :: spans[i].End() <= spans[i + 1].base <= spans[i].End() + 1)
  }

  lemma PackedCons(s: Span, rest: seq<Span>, after: nat)
    requires s.base % 2 == 0 && Packed(rest, after) && s.End() <= after <= s.End() + 1
    ensures Packed([s] + rest, s.base)
  {
  }

  lemma {:induction false} ImplicitPacked(secs: seq<Record>, next: nat)
    requires next % 2 == 0 && next + Padded(secs) < 0x1_0000_0000
    ensures Packed(Spans(secs, Bases(secs, map[], next)), next)
    decreases secs
  {
    hide Align, Packed;
    if secs == [] {
      assert Packed([], next) by { EmptyPacked(next); }
    } else {
      var size := |secs[0].contents|;
      var after := Align(next + size, 1);
      EvenAlign(next + size);
      ImplicitPacked(secs[1..], after);
      var rest := Spans(secs[1..], Bases(secs[1..], map[], after));
      assert Spans(secs, Bases(secs, map[], next)) == [Span(next, size)] + rest;
      PackedCons(Span(next, size), rest, after);
    }
  }

  lemma EmptyPacked(next: nat)
    ensures Packed([], next)
  {
  }

  /** Without given addresses the layout is total: sections follow one another in table order from
      address zero, at even addresses, with at most one byte between them, and nothing conflicts. */
  lemma ImplicitLayout(secs: seq<Record>)
    requires Padded(secs) < 0x1_0000_0000
    ensures var spans := Spans(secs, Bases(secs, map[], 0)); Packed(spans, 0) && Sorted(spans) && Apart(spans)
  {
    ImplicitPacked(secs, 0);
    SortedIsApart(Spans(secs, Bases(secs, map[], 0)));
  }

  lemma EvenAlign(address: nat)
    requires address + 1 < 0x1_0000_0000
    ensures Align(address, 1) == address + address % 2
  {
    hide Align;
    assert Pow2(1) == 2;
    AlignValue(address, 1);
    assert ShiftRight(address + 1, 1) == (address + 1) / 2 by { HalfShift(address + 1); }
    var half := (address + 1) / 2;
    assert half * 2 == address + address % 2;
  }

  lemma HalfShift(x: nat)
    ensures ShiftRight(x, 1) == x / 2
  {
    assert ShiftRight(x / 2, 0) == x / 2;
  }

  ghost function SpanOf(s: Section): Span
    reads s
  {
    Span(s.baseAddress, |s.contents|)
  }

  ghost function Placed(list: seq<Section>): (spans: seq<Span>)
    reads list
    ensures |spans| == |list| && forall i | 0 <= i < |list| :: spans[i] == SpanOf(list[i])
  {
    seq(|list|, i requires 0 <= i < |list| reads list => SpanOf(list[i]))
  }

  /** The loop of `address_is_free`. */
  method FindSlot(list: seq<Section>, s: Section) returns (free: bool, i: nat)
    ensures i <= |list| && Search(Placed(list), SpanOf(s), 0) == if free then FreeAt(i) else Taken
  {
    i := 0;
    ghost var spans := Placed(list);
    while i < |list|
      invariant 0 <= i <= |list|
      invariant Search(spans, SpanOf(s), 0) == Search(spans, SpanOf(s), i)
    {
      var r := list[i];
      if s.baseAddress + |s.contents| > r.baseAddress && r.baseAddress + |r.contents| > s.baseAddress {
        return false, i;
      }
      if s.baseAddress + |s.contents| <= r.baseAddress { return true, i; }
      i := i + 1;
    }
    free := true;
  }

  lemma PlacedInsert(list: seq<Section>, s: Section, i: nat)
    requires i <= |list|
    ensures Placed(list[..i] + [s] + list[i..]) == Placed(list)[..i] + [SpanOf(s)] + Placed(list)[i..]
  {
  }

  /** `Sections::address_is_free`: inserts the section if nothing in the list conflicts. */
  method AddressIsFree(t: SectionTable, s: Section) returns (free: bool)
    requires Sorted(Placed(t.located))
    modifies t`located
    ensures free <==> forall j | 0 <= j < |old(t.located)| :: !Conflict(SpanOf(s), SpanOf(old(t.located)[j]))
    ensures if free then Sorted(Placed(t.located)) && multiset(t.located) == multiset(old(t.located)) + multiset{s}
            else t.located == old(t.located)
  {
    hide Search, Sorted, Conflict;
    var i;
    free, i := FindSlot(t.located, s);
    SearchExact(Placed(t.located), SpanOf(s), 0);
    if free {
      PlacedInsert(t.located, s, i);
      assert t.located == t.located[..i] + t.located[i..];
      t.located := t.located[..i] + [s] + t.located[i..];
    }
  }

  /** `next` is the address `locate` has in hand when it comes to section `i`. */
  ghost predicate OnTrack(secs: seq<Record>, given: map<string, nat>, i: nat, next: nat)
  {
    i <= |secs| && Bases(secs, given, 0)[i..] == Bases(secs[i..], given, next)
  }

  lemma StartOnTrack(secs: seq<Record>, given: map<string, nat>)
    ensures OnTrack(secs, given, 0, 0)
  {
    assert secs[0..] == secs;
  }

  lemma TrackStep(secs: seq<Record>, given: map<string, nat>, i: nat, next: nat)
    requires i < |secs| && OnTrack(secs, given, i, next)
    ensures var base := Bases(secs, given, 0)[i];
            && base == (if secs[i].name in given then given[secs[i].name] else next)
            && OnTrack(secs, given, i + 1, Align(base + |secs[i].contents|, 1))
  {
    hide Align;
    assert secs[i..][1..] == secs[i + 1..];
    assert Bases(secs, given, 0)[i..][0] == Bases(secs, given, 0)[i];
    assert Bases(secs, given, 0)[i..][1..] == Bases(secs, given, 0)[i + 1..];
  }

  /** The sections of `t` from 0 to `i` have been placed as `spans` says. */
  ghost predicate PlacedUpTo(t: SectionTable, spans: seq<Span>, i: nat)
    reads t, t.table, t.located
  {
    && i <= |t.table| == |spans|
    && (forall j | 0 <= j < i :: SpanOf(t.table[j]) == spans[j])
    && multiset(t.located) == multiset(t.table[..i])
    && Sorted(Placed(t.located)) && Apart(spans[..i])
  }

  /** A section that is not yet in the list gets its address. */
  method Move(t: SectionTable, ghost i: nat, s: Section, base: nat, ghost spans: seq<Span>)
    requires t.Valid() && i < |t.table| && PlacedUpTo(t, spans, i)
    requires s == t.table[i] && spans[i] == Span(base, |s.contents|)
    modifies s`baseAddress
    ensures PlacedUpTo(t, spans, i) && SpanOf(s) == spans[i]
  {
    hide Conflict, Sorted, Apart;
    forall j | 0 <= j < |t.located| ensures t.located[j] != s {
      assert t.located[j] in multiset(t.table[..i]);
    }
    s.baseAddress := base;
    assert Placed(t.located) == old(Placed(t.located));
  }

  /** One iteration of `locate`: the section gets its address, and a place in the list if it is free. */
  method LocateOne(t: SectionTable, ghost i: nat, s: Section, base: nat, ghost spans: seq<Span>) returns (free: bool)
    requires t.Valid() && i < |t.table| && PlacedUpTo(t, spans, i)
    requires s == t.table[i] && spans[i] == Span(base, |s.contents|)
    modifies t`located, s`baseAddress
    ensures free <==> Apart(spans[..i + 1])
    ensures free ==> PlacedUpTo(t, spans, i + 1)
  {
    hide Conflict, Sorted, Apart, Placed, SectionTable.Valid;
    Move(t, i, s, base, spans);
    SameConflicts(t.located, t.table[..i], spans, spans[i]);
    ApartSnoc(spans, i);
    free := AddressIsFree(t, s);
    if free { PlacedNext(t, spans, i); }
  }

  lemma PlacedNext(t: SectionTable, spans: seq<Span>, i: nat)
    requires i < |t.table| == |spans| && forall j | 0 <= j <= i :: SpanOf(t.table[j]) == spans[j]
    requires multiset(t.located) == multiset(t.table[..i]) + multiset{t.table[i]}
    requires Sorted(Placed(t.located)) && Apart(spans[..i + 1])
    ensures PlacedUpTo(t, spans, i + 1)
  {
    hide Sorted, Apart, Placed;
    SnocMultiset(t.table, i);
  }

  lemma SnocMultiset(table: seq<Section>, i: nat)
    requires i < |table|
    ensures multiset(table[..i + 1]) == multiset(table[..i]) + multiset{table[i]}
  {
    assert table[..i + 1] == table[..i] + [table[i]];
  }

  lemma ApartSnoc(spans: seq<Span>, i: nat)
    requires i < |spans|
    ensures Apart(spans[..i + 1]) <==> Apart(spans[..i]) && forall j | 0 <= j < i :: !Conflict(spans[i], spans[j])
  {
    hide Conflict;
    assert spans[..i + 1] == spans[..i] + [spans[i]];
  }

  /** Conflicting with a listed section is conflicting with a placed one. */
  lemma SameConflicts(list: seq<Section>, before: seq<Section>, spans: seq<Span>, x: Span)
    requires multiset(list) == multiset(before) && |before| <= |spans|
    requires forall j | 0 <= j < |before| :: SpanOf(before[j]) == spans[j]
    ensures (forall j | 0 <= j < |list| :: !Conflict(x, SpanOf(list[j])))
            <==> forall j | 0 <= j < |before| :: !Conflict(x, spans[j])
  {
    hide Conflict, SpanOf;
    forall j | 0 <= j < |list| ensures exists k :: 0 <= k < |before| && before[k] == list[j] {
      assert list[j] in multiset(list);
    }
    forall k | 0 <= k < |before| ensures exists j :: 0 <= j < |list| && before[k] == list[j] {
      assert before[k] in multiset(before);
    }
  }

  lemma ApartPrefix(spans: seq<Span>, n: nat)
    requires n <= |spans| && Apart(spans)
    ensures Apart(spans[..n])
  {
  }

  lemma NothingPlaced(t: SectionTable, spans: seq<Span>)
    requires t.located == [] && |t.table| == |spans|
    ensures PlacedUpTo(t, spans, 0)
  {
  }

  /** The table holds these sections, by name and contents. */
  ghost predicate Holds(t: SectionTable, secs: seq<Record>)
    reads t, t.table
  {
    && |t.table| == |secs|
    && forall i | 0 <= i < |secs| :: secs[i] == Record(t.table[i].name, t.table[i].contents)
  }

  /** The body of `locate`'s loop, and the address for the next section. */
  method LocateNext(t: SectionTable, i: nat, given: map<string, nat>, address: nat, ghost secs: seq<Record>)
    returns (ok: bool, next: nat)
    requires t.Valid() && i < |t.table| && Holds(t, secs) && OnTrack(secs, given, i, address)
    requires PlacedUpTo(t, Spans(secs, Bases(secs, given, 0)), i)
    modifies t`located, (set s | s in t.table)`baseAddress
    ensures t.Valid() && Holds(t, secs)
    ensures var spans := Spans(secs, Bases(secs, given, 0));
            if ok then PlacedUpTo(t, spans, i + 1) && OnTrack(secs, given, i + 1, next) else !Apart(spans)
  {
    hide Sorted, Conflict, Align, OnTrack, Apart, PlacedUpTo, Bases;
    TrackStep(secs, given, i, address);
    ghost var spans := Spans(secs, Bases(secs, given, 0));
    var s := t.table[i];
    assert secs[i] == Record(s.name, s.contents);
    var base := if s.name in given then given[s.name] else address;
    assert spans[i] == Span(base, |s.contents|);
    next := Align(base + |s.contents|, 1);
    ok := LocateOne(t, i, s, base, spans);
    if !ok && Apart(spans) { ApartPrefix(spans, i + 1); }
  }

  /** `Sections::locate`; a conflict ends the program. */
  method Locate(t: SectionTable, given: map<string, nat>, ghost secs: seq<Record>) returns (ok: bool)
    requires t.Valid() && Holds(t, secs) && t.located == []
    modifies t`located, (set s | s in t.table)`baseAddress
    ensures t.Valid() && Holds(t, secs)
    ensures var spans := Spans(secs, Bases(secs, given, 0));
            (ok <==> Apart(spans)) && (ok ==> PlacedUpTo(t, spans, |secs|))
  {
    ghost var spans := Spans(secs, Bases(secs, given, 0));
    hide Sorted, Conflict, OnTrack, PlacedUpTo, Bases, Spans;
    StartOnTrack(secs, given);
    NothingPlaced(t, spans);
    var address, i := 0, 0;
    ok := true;
    while i < |t.table|
      invariant 0 <= i <= |t.table| == |secs| && t.Valid() && Holds(t, secs)
      invariant OnTrack(secs, given, i, address) && PlacedUpTo(t, spans, i)
    {
      ok, address := LocateNext(t, i, given, address, secs);
      if !ok { return; }
      i := i + 1;
    }
    PlacedIsApart(t, spans);
  }

  lemma PlacedIsApart(t: SectionTable, spans: seq<Span>)
    requires PlacedUpTo(t, spans, |spans|)
    ensures Apart(spans)
  {
    assert spans[..|spans|] == spans;
  }

  /** `Sections::lower_address` and `Sections::higher_address` */
  function LowerAddress(t: SectionTable): nat
    reads t, t.located
  {
    if t.located == [] then 0 else U32(t.located[0].baseAddress)
  }

  function HigherAddress(t: SectionTable): nat
    reads t, t.located
  {
    if t.located == [] then 0
    else
      var last := t.located[|t.located| - 1];
      U32(last.baseAddress + |last.contents|)
  }

  /** The ends of a sorted list are the least base and the greatest end. */
  lemma SortedExtremes(list: seq<Span>, i: nat)
    requires Sorted(list) && i < |list|
    ensures list[0].base <= list[i].base && list[i].End() <= list[|list| - 1].End()
  {
    if i > 0 { SortedAbove(list, 0, i); }
    if i < |list| - 1 { SortedAbove(list, i, |list| - 1); }
  }
}
