/** Which section a statement ends up in, by name. */
module SectionNames {
  import opened Expressions
  import opened Sections
  import opened Layout

  /** The section selected when the first `j` statements are done and statement `j` has had its say. */
  function NameFrom(name: string, program: Program, j: nat): string
    decreases |program|
  {
    if program == [] then name
    else
      var next := if program[0].body.InSection? then program[0].body.name else name;
      if j == 0 then next else NameFrom(next, program[1..], j - 1)
  }

  /** There is one section and it is empty: the next selection renames it. */
  predicate Loose(t: State) { |t.records| == 1 && t.records[0].contents == [] }

  ghost predicate Named(t: State, name: string)
  {
    t.current < |t.records| && t.records[t.current].name == name
  }

  /** What one statement does to the table, `size` being the room it takes. */
  ghost predicate Moves(t: State, u: State, body: Body, section: nat, size: nat, name: string)
  {
    && Named(u, if body.InSection? then body.name else name) && section == u.current && (body.InSection? ==> size == 0)
    && (if Loose(t) && size == 0 then Loose(u)
        else
          && !Loose(u) && |u.records| >= |t.records|
          && forall k | 0 <= k < |t.records| :: u.records[k].name == t.records[k].name)
  }

  lemma SelectMoves(t: State, name: string, was: string)
    requires t.Valid() && Named(t, was)
    ensures Moves(t, t.Select(name), InSection(name), t.Select(name).current, 0, was)
  {
  }

  lemma AppendMoves(t: State, data: Bytes, body: Body, name: string)
    requires t.Valid() && Named(t, name) && !body.InSection?
    ensures Moves(t, t.Append(data), body, t.current, |data|, name)
  {
    if data == [] { AppendNothing(t); }
  }

  lemma PlaceMoves(a: Assembly, body: Body, rank: map<string, nat>, name: string)
    requires Ready(a, rank) && RankedBody(body, rank) && Named(a.table, name)
    ensures Place(a, body, rank).placed != []
    ensures var b := Place(a, body, rank);
            var p := b.placed[|b.placed| - 1];
            Moves(a.table, b.table, body, p.section, p.size, name)
  {
    hide Eval, State.Select, TextBytes, AlignSize, HeightIn, SizeFails, SpaceSize, Moves, State.Append;
    var b := Place(a, body, rank);
    var p := b.placed[|b.placed| - 1];
    if body.InSection? {
      SelectMoves(a.table, body.name, name);
      SelectedReady(a, body.name, rank);
      AppendNothing(a.table.Select(body.name));
      assert Reserved(p) == [];
    } else {
      AppendMoves(a.table, Reserved(p), body, name);
      assert |Reserved(p)| == p.size;
    }
  }

  lemma AdvanceMoves(a: Assembly, s: Statement, rank: map<string, nat>, name: string)
    requires Ready(a, rank) && RankedBody(s.body, rank) && Named(a.table, name)
    ensures var b := Advance(a, s, rank);
            var p := b.placed[|a.placed|];
            Moves(a.table, b.table, s.body, p.section, p.size, name) && b.placed[..|a.placed|] == a.placed
  {
    hide Place, Ready, Moves, RankedBody;
    CurrentInTable(a, rank);
    DotsReady(a, s.dots, rank);
    PlaceReady(a.DefineDots(s.dots), s.body, rank);
    PlaceMoves(a.DefineDots(s.dots), s.body, rank, name);
    PlacedLast(a.DefineDots(s.dots), s.body, rank);
  }

  lemma PlacedLast(a: Assembly, body: Body, rank: map<string, nat>)
    requires Ready(a, rank) && RankedBody(body, rank)
    ensures |Place(a, body, rank).placed| == |a.placed| + 1 && Place(a, body, rank).placed[..|a.placed|] == a.placed
  {
    hide Eval, State.Select, TextBytes, AlignSize, HeightIn, SizeFails, SpaceSize, State.Append;
  }

  /** From a table whose names are settled: every name stays, and every statement is in the section selected. */
  lemma {:induction false} SettledNames(a: Assembly, program: Program, rank: map<string, nat>, name: string)
    requires Ready(a, rank) && Ranked(program, rank) && Named(a.table, name) && !Loose(a.table)
    ensures var b := PassOne(a, program, rank);
            && b.placed[..|a.placed|] == a.placed && |b.table.records| >= |a.table.records|
            && (forall k | 0 <= k < |a.table.records| :: b.table.records[k].name == a.table.records[k].name)
            && (forall j | 0 <= j < |program| ::
                  InNamed(b, |a.placed| + j, NameFrom(name, program, j)))
    decreases |program|
  {
    hide Ready, Advance, RankedBody;
    if program != [] {
      var next := Advance(a, program[0], rank);
      var now := if program[0].body.InSection? then program[0].body.name else name;
      AdvanceMoves(a, program[0], rank, name);
      SettledNames(next, program[1..], rank, now);
      var b := PassOne(a, program, rank);
      assert b.placed[..|next.placed|] == next.placed;
      assert b.placed[|a.placed|] == next.placed[|a.placed|];
      forall j | 0 <= j < |program| ensures InNamed(b, |a.placed| + j, NameFrom(name, program, j)) {
        if j > 0 { assert InNamed(b, |next.placed| + (j - 1), NameFrom(now, program[1..], j - 1)); }
      }
    }
  }

  /** Statement `i` is in a section of that name. */
  predicate InNamed(b: Assembly, i: nat, name: string)
  {
    i < |b.placed| && b.placed[i].section < |b.table.records| && b.table.records[b.placed[i].section].name == name
  }

  /** Statement `m` is the first, from statement `n` on, that takes room. */
  predicate FirstRoom(placed: seq<Placed>, n: nat, m: nat)
  {
    && n + m <= |placed| && (forall i | n <= i < n + m :: placed[i].size == 0)
    && (n + m < |placed| ==> placed[n + m].size > 0)
  }

  lemma {:induction false} PlacedPrefix(a: Assembly, program: Program, rank: map<string, nat>)
    requires Ready(a, rank) && Ranked(program, rank)
    ensures PassOne(a, program, rank).placed[..|a.placed|] == a.placed
    decreases |program|
  {
    hide Ready, Advance, RankedBody;
    if program != [] {
      var next, b := Advance(a, program[0], rank), PassOne(a, program, rank);
      StepPrefix(a, program[0], rank);
      PlacedPrefix(next, program[1..], rank);
      assert b.placed[..|a.placed|] == b.placed[..|next.placed|][..|a.placed|];
    }
  }

  lemma StepPrefix(a: Assembly, s: Statement, rank: map<string, nat>)
    requires Ready(a, rank) && RankedBody(s.body, rank)
    ensures Advance(a, s, rank).placed[..|a.placed|] == a.placed
  {
    hide Place, Ready, RankedBody;
    CurrentInTable(a, rank);
    DotsReady(a, s.dots, rank);
    PlaceReady(a.DefineDots(s.dots), s.body, rank);
    PlacedLast(a.DefineDots(s.dots), s.body, rank);
  }

  /** The name the section of statement `j` has in the end, `m` being the first that takes room. */
  function FinalName(name: string, program: Program, m: nat, j: nat): string
  {
    NameFrom(name, program, if j < m then m else j)
  }

  predicate AllNamed(b: Assembly, n: nat, name: string, program: Program, m: nat)
  {
    forall j | 0 <= j < |program| :: InNamed(b, n + j, FinalName(name, program, m, j))
  }

  lemma NamedCons(b: Assembly, n: nat, name: string, program: Program, m: nat)
    requires program != [] && InNamed(b, n, FinalName(name, program, m, 0))
    requires AllNamed(b, n + 1, if program[0].body.InSection? then program[0].body.name else name, program[1..],
                      if m == 0 then 0 else m - 1)
    ensures AllNamed(b, n, name, program, m)
  {
    hide InNamed;
    var now := if program[0].body.InSection? then program[0].body.name else name;
    var less := if m == 0 then 0 else m - 1;
    forall j | 0 <= j < |program| ensures InNamed(b, n + j, FinalName(name, program, m, j)) {
      if j > 0 {
        assert InNamed(b, n + 1 + (j - 1), FinalName(now, program[1..], less, j - 1));
        assert FinalName(name, program, m, j) == FinalName(now, program[1..], less, j - 1);
      }
    }
  }

  /** From an empty lone section: the statements before the first that takes room are in the section selected
      there, because every selection until then renames it; all others are in the section selected at them. */
  lemma {:induction false} LooseNames(a: Assembly, program: Program, rank: map<string, nat>, name: string, m: nat)
    requires Ready(a, rank) && Ranked(program, rank) && Named(a.table, name) && Loose(a.table)
    requires FirstRoom(PassOne(a, program, rank).placed, |a.placed|, m)
    ensures var b := PassOne(a, program, rank);
            && m <= |program| && b.table.records != [] && b.table.records[0].name == NameFrom(name, program, m)
            && AllNamed(b, |a.placed|, name, program, m)
    decreases |program|
  {
    hide Ready, Advance, RankedBody, AllNamed;
    var b := PassOne(a, program, rank);
    if program == [] {
      NoneNamed(b, |a.placed|, name, program, m);
    } else {
      var next := Advance(a, program[0], rank);
      var now := if program[0].body.InSection? then program[0].body.name else name;
      AdvanceMoves(a, program[0], rank, name);
      PlacedPrefix(next, program[1..], rank);
      assert b.placed[|a.placed|] == b.placed[..|next.placed|][|a.placed|] == next.placed[|a.placed|];
      if Loose(next.table) {
        LooseNames(next, program[1..], rank, now, m - 1);
      } else {
        SettledNames(next, program[1..], rank, now);
        RoomNamed(b, |next.placed|, now, program[1..]);
      }
      NamedCons(b, |a.placed|, name, program, m);
    }
  }

  lemma NoneNamed(b: Assembly, n: nat, name: string, program: Program, m: nat)
    requires program == []
    ensures AllNamed(b, n, name, program, m)
  {
  }

  lemma RoomNamed(b: Assembly, n: nat, name: string, program: Program)
    requires forall j | 0 <= j < |program| :: InNamed(b, n + j, NameFrom(name, program, j))
    ensures AllNamed(b, n, name, program, 0)
  {
    hide InNamed;
  }
}
