/** The Logisim image: memory elements with runs of equal ones counted, and expanding it again. */
module Logisim {
  import opened Bits
  import opened Machine
  import opened Sections
  import opened MemorySpaces

  /** `v` for one element, `n*v` for a run. */
  datatype Token = Single(value: nat) | Run(count: nat, value: nat)

  /** Where a run of `c` ends, within the range. `e` has one element more than the range. */
  function RunEnd(e: seq<nat>, c: nat, j: nat): (end: nat)
    requires e != []
    ensures j <= end && (j <= |e| - 1 ==> end <= |e| - 1)
    ensures forall k | j <= k < end && k < |e| :: e[k] == c
    ensures end < |e| - 1 ==> e[end] != c
    decreases |e| - j
  {
    if j < |e| - 1 && e[j] == c then RunEnd(e, c, j + 1) else j
  }

  /** The tokens from element `i` on. The second element of a run is looked at without asking whether
      it is still in the range. */
  function Tokens(e: seq<nat>, i: nat): seq<Token>
    requires e != []
    decreases |e| - i
  {
    if i >= |e| - 1 then []
    else if e[i + 1] == e[i] then
      var end := RunEnd(e, e[i], i + 2);
      [Run(end - i, e[i])] + Tokens(e, end)
    else [Single(e[i])] + Tokens(e, i + 1)
  }

  /** Where the token after the one at element `i` starts. */
  function Following(e: seq<nat>, i: nat): (next: nat)
    requires i < |e| - 1
    ensures i < next
  {
    if e[i + 1] == e[i] then RunEnd(e, e[i], i + 2) else i + 1
  }

  function Expand(tokens: seq<Token>): seq<nat>
  {
    if tokens == [] then []
    else
      (match tokens[0]
       case Single(v) => [v]
       case Run(n, v) => seq(n, _ => v))
      + Expand(tokens[1..])
  }

  /** The last element of the range starts a token of its own and the one after it is equal. */
  predicate Overruns(e: seq<nat>, i: nat)
    requires e != []
  {
    var last := |e| - 2;
    i <= last && e[last + 1] == e[last] && (i == last || e[last - 1] != e[last])
  }

  /** Where the expansion of the tokens from `i` on ends: at the end of the range, or one past it. */
  function Stop(e: seq<nat>, i: nat): (stop: nat)
    requires e != [] && i <= |e|
    ensures i <= stop <= |e|
  {
    if i >= |e| - 1 then i else if Overruns(e, i) then |e| else |e| - 1
  }

  lemma StopAfterRun(e: seq<nat>, i: nat)
    requires i + 1 < |e| && e[i + 1] == e[i]
    ensures Stop(e, RunEnd(e, e[i], i + 2)) == Stop(e, i)
    ensures forall k | i <= k < RunEnd(e, e[i], i + 2) :: e[k] == e[i]
  {
  }

  /** Expanding gives every element of the range in order, and one element beyond it, true to memory,
      exactly when the last element starts a token and the one beyond equals it. */
  lemma {:induction false} ExpandExact(e: seq<nat>, i: nat)
    requires e != [] && i <= |e|
    ensures Expand(Tokens(e, i)) == e[i..Stop(e, i)]
    decreases |e| - i
  {
    hide Overruns, Stop, RunEnd, Tokens, Expand;
    if i < |e| - 1 {
      TokenStep(e, i);
      if e[i + 1] == e[i] {
        var end := RunEnd(e, e[i], i + 2);
        StopAfterRun(e, i);
        ExpandExact(e, end);
        ExpandCons(Run(end - i, e[i]), Tokens(e, end));
        assert seq(end - i, _ => e[i]) == e[i..end];
        Joined(e, i, end, Stop(e, i));
      } else {
        StopAfterSingle(e, i);
        ExpandExact(e, i + 1);
        ExpandCons(Single(e[i]), Tokens(e, i + 1));
        Joined(e, i, i + 1, Stop(e, i));
      }
    } else {
      NoTokens(e, i);
      StopOutside(e, i);
      ExpandNothing();
    }
  }

  lemma ExpandNothing()
    ensures Expand([]) == []
  {
  }

  lemma ExpandCons(t: Token, rest: seq<Token>)
    ensures Expand([t] + rest) == (match t case Single(v) => [v] case Run(n, v) => seq(n, _ => v)) + Expand(rest)
  {
    assert ([t] + rest)[1..] == rest;
  }

  lemma Joined(e: seq<nat>, i: nat, j: nat, k: nat)
    requires i <= j <= k <= |e|
    ensures e[i..j] + e[j..k] == e[i..k]
  {
  }

  lemma StopAfterSingle(e: seq<nat>, i: nat)
    requires i + 1 < |e| && e[i + 1] != e[i]
    ensures Stop(e, i + 1) == Stop(e, i)
  {
  }

  lemma StopOutside(e: seq<nat>, i: nat)
    requires e != [] && |e| - 1 <= i <= |e|
    ensures Stop(e, i) == i
  {
  }

  /** Neighbouring tokens differ in value, and a printed count is at least two. */
  lemma {:induction false} TokensMinimal(e: seq<nat>, i: nat)
    requires e != [] && i <= |e|
    ensures forall k | 0 <= k < |Tokens(e, i)| - 1 :: Tokens(e, i)[k].value != Tokens(e, i)[k + 1].value
    ensures forall k | 0 <= k < |Tokens(e, i)| && Tokens(e, i)[k].Run? :: Tokens(e, i)[k].count >= 2
    ensures Tokens(e, i) != [] ==> i < |e| - 1 && Tokens(e, i)[0].value == e[i]
    decreases |e| - i
  {
    if i < |e| - 1 {
      TokensMinimal(e, if e[i + 1] == e[i] then RunEnd(e, e[i], i + 2) else i + 1);
    }
  }

  /** How many addresses `start`, `start + wordSize`, ... lie below `higher`. */
  function Count(start: nat, higher: nat, wordSize: nat): nat
    requires wordSize > 0
  {
    if higher <= start then 0 else (higher - start + wordSize - 1) / wordSize
  }

  /** The address of element `i`. */
  function At(start: nat, wordSize: nat, i: nat): nat { start + i * wordSize }

  lemma AtNext(start: nat, wordSize: nat, i: nat)
    ensures At(start, wordSize, i + 1) == At(start, wordSize, i) + wordSize
  {
  }

  lemma CountIff(start: nat, higher: nat, wordSize: nat, i: nat)
    requires wordSize > 0
    ensures At(start, wordSize, i) < higher <==> i < Count(start, higher, wordSize)
  {
    if start < higher {
      var d := higher - start;
      var c := (d + wordSize - 1) / wordSize;
      assert d + wordSize - 1 == c * wordSize + (d + wordSize - 1) % wordSize;
      if i < c {
        NextMultiple(c, i, wordSize);
      } else {
        MulMonotone(c, i, wordSize, wordSize);
      }
    }
  }

  /** A byte, or a little-endian word. */
  function Element(m: Bytes, n: nat, wide: bool, address: nat): nat
    requires |m| == Pow2(n)
  {
    if wide then MakeWord(m[LowBits(address, n)], m[LowBits(address + 1, n)]) else m[LowBits(address, n)]
  }

  /** The low byte of a 16-bit element is the byte at its address, the high byte the one after it. */
  lemma ElementBytes(m: Bytes, n: nat, address: nat)
    requires |m| == Pow2(n)
    ensures Element(m, n, false, address) == m[LowBits(address, n)]
    ensures Element(m, n, true, address) % 0x100 == m[LowBits(address, n)]
    ensures Element(m, n, true, address) / 0x100 == m[LowBits(address + 1, n)]
  {
    hide Pow2, LowBits;
  }

  /** The elements at `start`, `start + wordSize`, ... below `higher`, and the one after them. */
  function Scanned(m: Bytes, n: nat, wide: bool, start: nat, higher: nat, wordSize: nat): (e: seq<nat>)
    requires |m| == Pow2(n) && wordSize > 0
    ensures |e| == Count(start, higher, wordSize) + 1
    ensures forall k | 0 <= k < |e| :: e[k] == Element(m, n, wide, At(start, wordSize, k))
  {
    seq(Count(start, higher, wordSize) + 1, k requires 0 <= k => Element(m, n, wide, At(start, wordSize, k)))
  }

  method ReadElement(memory: MemorySpace, wide: bool, address: nat) returns (v: nat)
    requires memory.Valid() && memory.pageBits > 0
    ensures v == Element(memory.Flat(), memory.Bits(), wide, address)
  {
    if wide {
      v := memory.Read16(address);
    } else {
      v := memory.Read8(address);
    }
  }

  /** The inner loop: reads on while the elements are in the range and equal. */
  method SkipRun(memory: MemorySpace, wide: bool, ghost start: nat, higher: nat, wordSize: nat,
                 c: nat, from: nat, ghost i: nat) returns (address: nat, count: nat)
    requires memory.Valid() && memory.pageBits > 0 && wordSize > 0 && from == At(start, wordSize, i)
    ensures var e := Scanned(memory.Flat(), memory.Bits(), wide, start, higher, wordSize);
            count == RunEnd(e, c, i) - i && address == At(start, wordSize, RunEnd(e, c, i))
  {
    hide Pow2, LowBits, Element, Count, MemorySpace.Flat, At, Scanned;
    ghost var e := Scanned(memory.Flat(), memory.Bits(), wide, start, higher, wordSize);
    address, count := from, 0;
    while true
      invariant address == At(start, wordSize, i + count)
      invariant RunEnd(e, c, i) == RunEnd(e, c, i + count)
      decreases |e| - (i + count)
    {
      CountIff(start, higher, wordSize, i + count);
      AtNext(start, wordSize, i + count);
      if address >= higher { break; }
      var v := ReadElement(memory, wide, address);
      if v != c { break; }
      address := address + wordSize;
      count := count + 1;
    }
  }

  /** One round of the outer loop: the token at element `i`, and where the next one starts. */
  method NextToken(memory: MemorySpace, wide: bool, ghost start: nat, higher: nat, wordSize: nat,
                   from: nat, ghost i: nat) returns (token: Token, address: nat)
    requires memory.Valid() && memory.pageBits > 0 && wordSize > 0 && from == At(start, wordSize, i) && from < higher
    ensures var e := Scanned(memory.Flat(), memory.Bits(), wide, start, higher, wordSize);
            && i < |e| - 1 && Tokens(e, i) == [token] + Tokens(e, Following(e, i))
            && address == At(start, wordSize, Following(e, i))
  {
    hide Pow2, LowBits, Element, Count, MemorySpace.Flat, MemorySpace.Valid, At, Scanned, RunEnd, Tokens;
    CountIff(start, higher, wordSize, i);
    TokenStep(Scanned(memory.Flat(), memory.Bits(), wide, start, higher, wordSize), i);
    AtNext(start, wordSize, i);
    AtNext(start, wordSize, i + 1);
    var c := ReadElement(memory, wide, from);
    address := from + wordSize;
    var second := ReadElement(memory, wide, address);
    if second == c {
      var more;
      address, more := SkipRun(memory, wide, start, higher, wordSize, c, address + wordSize, i + 2);
      token := Run(2 + more, c);
    } else {
      token := Single(c);
    }
  }

  /** `Sections::binary_logisim`, and with `wide` and a `wordSize` of 2 `Sections::binary_logisim16`. */
  method BinaryLogisim(memory: MemorySpace, wide: bool, start: nat, higher: nat, wordSize: nat)
    returns (tokens: seq<Token>)
    requires memory.Valid() && memory.pageBits > 0 && wordSize > 0
    ensures tokens == Tokens(Scanned(memory.Flat(), memory.Bits(), wide, start, higher, wordSize), 0)
  {
    hide Pow2, LowBits, Element, Count, MemorySpace.Flat, MemorySpace.Valid, At, Scanned, RunEnd, Tokens;
    ghost var e := Scanned(memory.Flat(), memory.Bits(), wide, start, higher, wordSize);
    tokens := [];
    var address := start;
    ghost var i: nat := 0;
    assert address == At(start, wordSize, 0) by { AtZero(start, wordSize); }
    while address < higher
      invariant address == At(start, wordSize, i)
      invariant Tokens(e, 0) == tokens + Tokens(e, i)
      decreases |e| - i
    {
      var token;
      token, address := NextToken(memory, wide, start, higher, wordSize, address, i);
      i := Following(e, i);
      tokens := tokens + [token];
    }
    CountIff(start, higher, wordSize, i);
    NoTokens(e, i);
  }

  lemma NoTokens(e: seq<nat>, i: nat)
    requires e != [] && i >= |e| - 1
    ensures Tokens(e, i) == []
  {
  }

  lemma TokenStep(e: seq<nat>, i: nat)
    requires i < |e| - 1
    ensures Tokens(e, i)
            == if e[i + 1] == e[i] then [Run(RunEnd(e, e[i], i + 2) - i, e[i])] + Tokens(e, RunEnd(e, e[i], i + 2))
               else [Single(e[i])] + Tokens(e, i + 1)
  {
    hide RunEnd;
  }

  lemma AtZero(start: nat, wordSize: nat)
    ensures At(start, wordSize, 0) == start
  {
  }

  /** The whole output: one element of memory after another, as many as the range has, and one more
      exactly when the run test reads past its end. */
  lemma LogisimExact(m: Bytes, n: nat, wide: bool, start: nat, higher: nat, wordSize: nat)
    requires |m| == Pow2(n) && wordSize > 0
    ensures var e := Scanned(m, n, wide, start, higher, wordSize);
            var out := Expand(Tokens(e, 0));
            && |out| == Count(start, higher, wordSize) + (if Overruns(e, 0) then 1 else 0)
            && (forall k | 0 <= k < |out| :: out[k] == Element(m, n, wide, At(start, wordSize, k)))
            && (forall k | 0 <= k < |out| ::
                  var a := At(start, wordSize, k);
                  if wide then out[k] % 0x100 == m[LowBits(a, n)] && out[k] / 0x100 == m[LowBits(a + 1, n)]
                  else out[k] == m[LowBits(a, n)])
  {
    hide Pow2, LowBits, Element, Count, At, Tokens, Expand;
    ExpandExact(Scanned(m, n, wide, start, higher, wordSize), 0);
    var out := Expand(Tokens(Scanned(m, n, wide, start, higher, wordSize), 0));
    forall k | 0 <= k < |out|
      ensures var a := At(start, wordSize, k);
              if wide then out[k] % 0x100 == m[LowBits(a, n)] && out[k] / 0x100 == m[LowBits(a + 1, n)]
              else out[k] == m[LowBits(a, n)]
    {
      ElementBytes(m, n, At(start, wordSize, k));
    }
  }
}
