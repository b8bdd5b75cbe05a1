/** Between the code generator and the linker: the relocations of a whole program. */
module Linking {
  import opened Expressions
  import opened ExactArithmetic
  import opened Sections
  import opened Relocations
  import opened Instructions
  import opened Layout
  import opened TwoPass
  import opened CodeGeneration
  import opened Stability

  /** The bits a relocation's field has in its section: from its start up to, not including, its end. */
  function FieldStart(r: Relocation): nat { 8 * r.offset + r.position }

  function FieldEnd(r: Relocation): nat { FieldStart(r) + r.width }

  /** A field within a stretch of one section. */
  predicate FieldIn(r: Relocation, section: nat, start: nat, end: nat)
  {
    r.section == section && 8 * start <= FieldStart(r) && FieldEnd(r) <= 8 * end
  }

  /** Relocations of one section come in the order of their fields. */
  ghost predicate Ordered(rs: seq<Relocation>)
  {
    forall i, j | 0 <= i < j < |rs| :: rs[i].section == rs[j].section ==> FieldEnd(rs[i]) <= FieldStart(rs[j])
  }

  lemma OrderedConcat(first: seq<Relocation>, rest: seq<Relocation>)
    requires Ordered(first) && Ordered(rest)
    requires forall r, s | r in first && s in rest :: r.section == s.section ==> FieldEnd(r) <= FieldStart(s)
    ensures Ordered(first + rest)
  {
    var all := first + rest;
    forall i, j | 0 <= i < j < |all|
      ensures all[i].section == all[j].section ==> FieldEnd(all[i]) <= FieldStart(all[j])
    {
      if i < |first| <= j {
        assert all[i] in first && all[j] in rest;
      } else if i >= |first| {
        assert all[i] == rest[i - |first|] && all[j] == rest[j - |first|];
      }
    }
  }

  lemma {:induction false} ItemsOrdered(env: Env, section: nat, offset: nat, grain: Grain, values: seq<Expr>, n: nat)
    requires env.Acyclic() && n <= |values|
    ensures Ordered(ItemsLinks(env, section, offset, grain, values, n))
    ensures forall r | r in ItemsLinks(env, section, offset, grain, values, n) ::
              FieldIn(r, section, offset, offset + grain * n)
  {
    hide Eval, BaseSymbol, IsLabel;
    if n > 0 {
      ItemsOrdered(env, section, offset, grain, values, n - 1);
      OrderedConcat(ItemsLinks(env, section, offset, grain, values, n - 1),
                    ItemLinks(env, section, offset + grain * (n - 1), grain, values[n - 1]));
    }
  }

  /** A statement's relocations are in its room, in order. */
  lemma LinksInRoom(env: Env, p: Placed)
    requires env.Acyclic() && RightSize(env, p)
    ensures Ordered(LinksOf(env, p))
    ensures forall r | r in LinksOf(env, p) :: FieldIn(r, p.section, p.offset, p.offset + p.size)
  {
    hide Eval, BaseSymbol, IsLabel, SameSectionLabel, TextBytes, AlignSize;
    match p.body {
      case Values(grain, values) => ItemsOrdered(env, p.section, p.offset, grain, values, |values|);
      case _ =>
    }
  }

  /** Over a whole program: relocations in order, and each before the end of what is placed so far. */
  lemma {:induction false} AllOrdered(env: Env, placed: seq<Placed>, n: nat, count: nat)
    requires env.Acyclic() && n <= |placed| && Fitted(placed, count)
    requires forall p | p in placed :: RightSize(env, p)
    ensures Ordered(AllLinks(env, placed, n))
    ensures forall r | r in AllLinks(env, placed, n) ::
              r.section < count && FieldEnd(r) <= 8 * SizeBefore(placed, n, r.section)
  {
    hide LinksOf, RightSize;
    if n > 0 {
      var p := placed[n - 1];
      AllOrdered(env, placed, n - 1, count);
      LinksInRoom(env, p);
      OrderedConcat(AllLinks(env, placed, n - 1), LinksOf(env, p));
    }
  }

  lemma {:induction false} FixesIndex(env: Env, bases: seq<nat>, rs: seq<Relocation>)
    requires forall r | r in rs :: InTable(env, |bases|, r) && Resolved(env, r)
    ensures |Fixes(env, bases, rs)| == |rs|
    ensures forall i | 0 <= i < |rs| :: Fixes(env, bases, rs)[i] == FixOf(env, bases, rs[i])
    decreases |rs|
  {
    hide FixOf, Resolved, InTable;
    if rs != [] {
      FixesIndex(env, bases, rs[1..]);
      forall i | 0 <= i < |rs| ensures Fixes(env, bases, rs)[i] == FixOf(env, bases, rs[i]) {
        if i > 0 { assert rs[i] == rs[1..][i - 1]; }
      }
    }
  }

  /** A label operand names a symbol the linker knows. */
  predicate Linkable(env: Env, count: nat, r: Relocation)
  {
    r.symbol in env.defs && InTable(env, count, r) && r.position + r.width <= 16
  }

  ghost predicate KnownSections(env: Env, count: nat)
  {
    forall name | name in env.defs :: env.defs[name].section < count
  }

  lemma ItemLinkable(env: Env, section: nat, offset: nat, grain: Grain, x: Expr, count: nat)
    requires env.Acyclic() && IntEnv(env) && IntLiterals(x) && KnownSections(env, count) && section < count
    ensures forall r | r in ItemLinks(env, section, offset, grain, x) ::
              Linkable(env, count, r) && (r.offset, r.position, r.width) == (offset, 0, 8 * grain)
  {
    hide Eval, BaseSymbol, IntEnv, IntLiterals;
    if IsLabel(env, x) { LabelIsDefined(env, x); }
  }

  /** Both bytes of the patched word are in the statement's room, unless it is a `.byte`. */
  predicate WordInRoom(r: Relocation, start: nat, end: nat)
  {
    start <= r.offset && if r.position == 0 && r.width == 8 then r.offset + 1 <= end else r.offset + 2 <= end
  }

  lemma {:induction false} ItemsLinkable(env: Env, section: nat, offset: nat, grain: Grain, values: seq<Expr>, n: nat,
                                         count: nat)
    requires env.Acyclic() && IntEnv(env) && KnownSections(env, count) && section < count && n <= |values|
    requires forall x | x in values :: IntLiterals(x)
    ensures forall r | r in ItemsLinks(env, section, offset, grain, values, n) ::
              Linkable(env, count, r) && WordInRoom(r, offset, offset + grain * n)
  {
    hide Eval, BaseSymbol, IntEnv, IntLiterals, ItemLinks, Linkable, KnownSections;
    if n > 0 {
      ItemsLinkable(env, section, offset, grain, values, n - 1, count);
      ItemLinkable(env, section, offset + grain * (n - 1), grain, values[n - 1], count);
    }
  }

  lemma LinksLinkable(env: Env, p: Placed, count: nat)
    requires env.Acyclic() && IntEnv(env) && KnownSections(env, count) && p.section < count
    requires IntBody(p.body) && RightSize(env, p)
    ensures forall r | r in LinksOf(env, p) :: Linkable(env, count, r) && WordInRoom(r, p.offset, p.offset + p.size)
  {
    hide Eval, BaseSymbol, IntEnv, IntLiterals, SameSectionLabel, ItemsLinks, TextBytes, AlignSize;
    match p.body {
      case Values(grain, values) => ItemsLinkable(env, p.section, p.offset, grain, values, |values|, count);
      case Instr(LoadLabel(_, _, x)) => if IsLabel(env, x) { LabelIsDefined(env, x); }
      case Instr(MoveImmediate(_, _, x)) => if IsLabel(env, x) { LabelIsDefined(env, x); }
      case _ =>
    }
  }

  /** A relocation that can be resolved, and whose word is in the room the first `n` statements have in its section,
      unless it is a `.byte` at its end. */
  ghost predicate Sound(env: Env, placed: seq<Placed>, n: nat, count: nat, r: Relocation)
    requires n <= |placed|
  {
    Linkable(env, count, r) && WordInRoom(r, 0, SizeBefore(placed, n, r.section))
  }

  lemma SoundEarlier(env: Env, placed: seq<Placed>, n: nat, count: nat, r: Relocation)
    requires 0 < n <= |placed| && Sound(env, placed, n - 1, count, r)
    ensures Sound(env, placed, n, count, r)
  {
    hide Linkable;
  }

  lemma SoundHere(env: Env, placed: seq<Placed>, n: nat, count: nat, r: Relocation)
    requires 0 < n <= |placed| && Fitted(placed, count) && Linkable(env, count, r)
    requires var p := placed[n - 1];
             r.section == p.section && WordInRoom(r, p.offset, p.offset + p.size)
    ensures Sound(env, placed, n, count, r)
  {
    hide Linkable;
  }

  /** Every relocation of a program is sound. */
  lemma {:induction false} AllSound(env: Env, placed: seq<Placed>, n: nat, count: nat)
    requires env.Acyclic() && IntEnv(env) && KnownSections(env, count) && Fitted(placed, count) && n <= |placed|
    requires forall p | p in placed :: RightSize(env, p) && IntBody(p.body)
    ensures forall r | r in AllLinks(env, placed, n) :: Sound(env, placed, n, count, r)
  {
    hide Env.Acyclic, LinksOf, RightSize, IntEnv, IntBody, KnownSections, Linkable, WordInRoom, Sound, Fitted;
    if n > 0 {
      var p := placed[n - 1];
      AllSound(env, placed, n - 1, count);
      assert p.section < count by { SectionInTable(placed, n - 1, count); }
      LinksLinkable(env, p, count);
      LinksInRoom(env, p);
      forall r | r in AllLinks(env, placed, n) ensures Sound(env, placed, n, count, r) {
        if r in LinksOf(env, p) {
          SoundHere(env, placed, n, count, r);
        } else {
          SoundEarlier(env, placed, n, count, r);
        }
      }
    }
  }

  lemma SectionInTable(placed: seq<Placed>, i: nat, count: nat)
    requires Fitted(placed, count) && i < |placed|
    ensures placed[i].section < count
  {
  }

  /** A `.byte label` on the last byte of its section. */
  predicate OnLastByte(contents: seq<Bytes>, r: Relocation)
  {
    r.section < |contents| && r.offset + 1 == |contents[r.section]|
  }

  /** What pass one and pass two leave for the linker. */
  ghost predicate Generated(env: Env, placed: seq<Placed>, contents: seq<Bytes>)
  {
    && env.Acyclic() && IntEnv(env) && KnownSections(env, |contents|) && Fitted(placed, |contents|)
    && (forall p | p in placed :: RightSize(env, p) && IntBody(p.body))
    && (forall k | 0 <= k < |contents| :: |contents[k]| == SizeBefore(placed, |placed|, k))
  }

  lemma FixOfField(env: Env, bases: seq<nat>, r: Relocation)
    requires Linkable(env, |bases|, r)
    ensures var f := FixOf(env, bases, r);
            && f.section == r.section && f.offset == r.offset && f.width == r.width && f.position == r.position
            && f.Start() == FieldStart(r) && f.InWord()
  {
    hide TargetValue;
  }

  /** The relocations of a program have fields with no bit in common; and they lie inside their sections,
      and linking keeps every size, exactly when no `.byte label` is on a section's last byte. */
  lemma ProgramFixes(env: Env, bases: seq<nat>, placed: seq<Placed>, contents: seq<Bytes>)
    requires Generated(env, placed, contents) && |bases| == |contents|
    ensures var rs := AllLinks(env, placed, |placed|);
            && (forall r | r in rs :: Linkable(env, |bases|, r))
            && (forall r | r in rs :: InTable(env, |bases|, r) && Resolved(env, r))
    ensures var rs := AllLinks(env, placed, |placed|);
            var fixes := Fixes(env, bases, rs);
            && |fixes| == |rs| && (forall i | 0 <= i < |rs| :: fixes[i] == FixOf(env, bases, rs[i]))
            && AllDisjoint(fixes)
            && (AllInside(contents, fixes) <==> forall r | r in rs :: !OnLastByte(contents, r))
            && (SameSizes(ApplyAll(contents, fixes), contents) <==> forall r | r in rs :: !OnLastByte(contents, r))
  {
    hide Env.Acyclic, RightSize, IntBody, IntEnv, KnownSections, LinksOf, AllLinks, Fitted, Linkable, FixOf;
    hide SizeBefore, Fixes, ApplyAll, SameSizes;
    var rs := AllLinks(env, placed, |placed|);
    AllOrdered(env, placed, |placed|, |bases|);
    AllSound(env, placed, |placed|, |bases|);
    LinkableFixes(env, bases, rs);
    var fixes := Fixes(env, bases, rs);
    forall i | 0 <= i < |rs| ensures fixes[i].section < |contents| && fixes[i].InWord()
      ensures fixes[i].Inside(contents) <==> !OnLastByte(contents, rs[i])
    {
      FixOfField(env, bases, rs[i]);
      assert Sound(env, placed, |placed|, |bases|, rs[i]);
    }
    SizesKeptIff(contents, fixes);
    forall i, j | 0 <= i < j < |fixes| ensures Disjoint(fixes[i], fixes[j]) {
      FixOfField(env, bases, rs[i]);
      FixOfField(env, bases, rs[j]);
    }
  }

  lemma LinkableFixes(env: Env, bases: seq<nat>, rs: seq<Relocation>)
    requires forall r | r in rs :: Linkable(env, |bases|, r)
    ensures forall r | r in rs :: InTable(env, |bases|, r) && Resolved(env, r)
    ensures |Fixes(env, bases, rs)| == |rs|
    ensures forall i | 0 <= i < |rs| :: Fixes(env, bases, rs)[i] == FixOf(env, bases, rs[i])
  {
    FixesIndex(env, bases, rs);
  }
}
