/**
 * `gameSchedule` (A2/project.py): order the game groups so that a referee
 * plays before refereeing, by topologically sorting a digraph on group
 * indices.
 */
module GameSchedule {
  import opened Options
  import opened PyDicts
  import opened GraphSpecs
  import opened GameGroups
  import opened Tournament

  type Group = set<Game<string>>

  /**
   * `game_color[g]`: the index of the group holding `g`. The dict
   * comprehension visits the groups in order, so when `g` lies in several
   * groups the last one wins; `None` when no group holds it.
   */
  function ColourOf(groups: seq<Group>, g: Game<string>): (c: Option<nat>)
    ensures c.Some? ==> c.value < |groups| && g in groups[c.value]
                        && forall k | c.value < k < |groups| :: g !in groups[k]
    ensures c.None? ==> forall k | 0 <= k < |groups| :: g !in groups[k]
  {
    if groups == [] then None
    else if g in groups[|groups| - 1] then Some(|groups| - 1)
    else ColourOf(groups[..|groups| - 1], g)
  }

  /** `r in g` for a game `g`: `r` is one of its players. */
  predicate PlaysIn(r: string, g: Game<string>) {
    r == g.0 || r == g.1
  }

  // ---------------------------------------------------------------------
  // `referee_games`: one (refereed game, played game) pair per referee.

  type Pairing = (string, (Game<string>, Game<string>))

  /** `e` is `(ra, (ga, gb))` for an entry `ga: ra` and a game `gb` that `ra` plays in. */
  ghost predicate IsRefereePair(chosen: Assignment, e: Pairing) {
    exists i, j | 0 <= i < |chosen| && 0 <= j < |chosen| ::
      e == (chosen[i].1, (chosen[i].0, chosen[j].0)) && PlaysIn(chosen[i].1, chosen[j].0)
  }

  /** The pairs the inner loop produces for entry `i`, over the first `n` games. */
  function PlayedGames(chosen: Assignment, i: nat, n: nat): seq<Pairing>
    requires i < |chosen| && n <= |chosen|
  {
    if n == 0 then []
    else
      var ps := PlayedGames(chosen, i, n - 1);
      var (ga, ra) := chosen[i];
      if PlaysIn(ra, chosen[n - 1].0) then ps + [(ra, (ga, chosen[n - 1].0))] else ps
  }

  /** Every pair entry `i` produces belongs to its referee and pairs their game with one they play in. */
  lemma {:induction false} PlayedGamesPairs(chosen: Assignment, i: nat, n: nat)
    requires i < |chosen| && n <= |chosen|
    ensures forall e | e in PlayedGames(chosen, i, n) :: IsRefereePair(chosen, e) && e.0 == chosen[i].1
  {
    if n > 0 {
      PlayedGamesPairs(chosen, i, n - 1);
      var ra := chosen[i].1;
      if PlaysIn(ra, chosen[n - 1].0) {
        var last := (ra, (chosen[i].0, chosen[n - 1].0));
        assert IsRefereePair(chosen, last) by {
          assert last == (chosen[i].1, (chosen[i].0, chosen[n - 1].0));
        }
        assert PlayedGames(chosen, i, n) == PlayedGames(chosen, i, n - 1) + [last];
      }
    }
  }

  /** Entry `i` produces a pair exactly when its referee plays in one of the first `n` games. */
  lemma {:induction false} PlayedGamesEmptyIff(chosen: Assignment, i: nat, n: nat)
    requires i < |chosen| && n <= |chosen|
    ensures PlayedGames(chosen, i, n) == [] <==> forall j | 0 <= j < n :: !PlaysIn(chosen[i].1, chosen[j].0)
  {
    if n > 0 {
      PlayedGamesEmptyIff(chosen, i, n - 1);
    }
  }

  /** Every pair the comprehension produces, in the order it produces them, for the first `n` entries. */
  function RefereeEntries(chosen: Assignment, n: nat): seq<Pairing>
    requires n <= |chosen|
  {
    if n == 0 then [] else RefereeEntries(chosen, n - 1) + PlayedGames(chosen, n - 1, |chosen|)
  }

  lemma {:induction false} RefereeEntriesPairs(chosen: Assignment, n: nat)
    requires n <= |chosen|
    ensures forall e | e in RefereeEntries(chosen, n) :: IsRefereePair(chosen, e)
  {
    if n > 0 {
      RefereeEntriesPairs(chosen, n - 1);
      PlayedGamesPairs(chosen, n - 1, |chosen|);
    }
  }

  /** `referee_games`: the last pair produced for each referee. */
  function RefereeGames(chosen: Assignment): Dict<string, (Game<string>, Game<string>)> {
    FromEntries(RefereeEntries(chosen, |chosen|))
  }

  /** `referee_games` has unique keys, and each of its pairs comes from an entry whose referee plays in the second game. */
  lemma RefereeGamesPairs(chosen: Assignment)
    ensures DistinctKeys(RefereeGames(chosen))
    ensures forall e | e in RefereeGames(chosen) :: IsRefereePair(chosen, e)
  {
    RefereeEntriesPairs(chosen, |chosen|);
  }

  /** Each referee who plays in some game of the dict keeps exactly one pair, and no one else has one. */
  lemma RefereeGamesKeys(chosen: Assignment)
    ensures Keys(RefereeGames(chosen)) ==
      set i, j | 0 <= i < |chosen| && 0 <= j < |chosen| && PlaysIn(chosen[i].1, chosen[j].0) :: chosen[i].1
  {
    var refs := set i, j | 0 <= i < |chosen| && 0 <= j < |chosen| && PlaysIn(chosen[i].1, chosen[j].0) :: chosen[i].1;
    forall r | r in refs ensures r in Keys(RefereeGames(chosen)) {
      var i, j :| 0 <= i < |chosen| && 0 <= j < |chosen| && PlaysIn(chosen[i].1, chosen[j].0) && r == chosen[i].1;
      RefereeKept(chosen, i, j);
    }
    forall r | r in Keys(RefereeGames(chosen)) ensures r in refs {
      var i, j := KeptReferee(chosen, r);
    }
  }

  lemma RefereeKept(chosen: Assignment, i: nat, j: nat)
    requires i < |chosen| && j < |chosen| && PlaysIn(chosen[i].1, chosen[j].0)
    ensures chosen[i].1 in Keys(RefereeGames(chosen))
  {
    var ps := PlayedGames(chosen, i, |chosen|);
    PlayedGamesEmptyIff(chosen, i, |chosen|);
    PlayedGamesPairs(chosen, i, |chosen|);
    assert ps[0] in ps;
    EntriesPrefix(chosen, |chosen|, i);
    assert ps[0] in RefereeEntries(chosen, |chosen|);
  }

  lemma KeptReferee(chosen: Assignment, r: string) returns (i: nat, j: nat)
    requires r in Keys(RefereeGames(chosen))
    ensures i < |chosen| && j < |chosen| && PlaysIn(chosen[i].1, chosen[j].0) && r == chosen[i].1
  {
    var entries := RefereeEntries(chosen, |chosen|);
    RefereeEntriesPairs(chosen, |chosen|);
    var e :| e in entries && e.0 == r;
    assert IsRefereePair(chosen, e);
    i, j :| 0 <= i < |chosen| && 0 <= j < |chosen| &&
      e == (chosen[i].1, (chosen[i].0, chosen[j].0)) && PlaysIn(chosen[i].1, chosen[j].0);
  }

  /** The pairs of entry `i` are among those produced for the first `n` entries, when `i < n`. */
  lemma {:induction false} EntriesPrefix(chosen: Assignment, n: nat, i: nat)
    requires i < n <= |chosen|
    ensures forall e | e in PlayedGames(chosen, i, |chosen|) :: e in RefereeEntries(chosen, n)
    decreases n
  {
    if i < n - 1 {
      EntriesPrefix(chosen, n - 1, i);
      EntriesGrow(chosen, n);
    } else {
      EntriesLast(chosen, n);
    }
  }

  lemma EntriesGrow(chosen: Assignment, n: nat)
    requires 0 < n <= |chosen|
    ensures forall e | e in RefereeEntries(chosen, n - 1) :: e in RefereeEntries(chosen, n)
  {
    assert RefereeEntries(chosen, n) == RefereeEntries(chosen, n - 1) + PlayedGames(chosen, n - 1, |chosen|);
  }

  lemma EntriesLast(chosen: Assignment, n: nat)
    requires 0 < n <= |chosen|
    ensures forall e | e in PlayedGames(chosen, n - 1, |chosen|) :: e in RefereeEntries(chosen, n)
  {
    assert RefereeEntries(chosen, n) == RefereeEntries(chosen, n - 1) + PlayedGames(chosen, n - 1, |chosen|);
  }

  // ---------------------------------------------------------------------
  // `dependencies`, `D`, `E` and `V`.

  /** Every pair whose two games differ has both games in some group: otherwise `game_color` raises KeyError. */
  predicate Coloured(groups: seq<Group>, rg: Dict<string, (Game<string>, Game<string>)>) {
    forall k | 0 <= k < |rg| ::
      rg[k].1.0 != rg[k].1.1 ==> ColourOf(groups, rg[k].1.0).Some? && ColourOf(groups, rg[k].1.1).Some?
  }

  /**
   * `for ga in g for gb in g if ga != gb` over a pair `g = (g0, g1)`: nothing
   * when both games are one game, otherwise both orientations.
   */
  function PairDependencies(groups: seq<Group>, pair: (Game<string>, Game<string>)): seq<(nat, nat)>
    requires pair.0 != pair.1 ==> ColourOf(groups, pair.0).Some? && ColourOf(groups, pair.1).Some?
  {
    if pair.0 == pair.1 then []
    else
      var c0 := ColourOf(groups, pair.0).value;
      var c1 := ColourOf(groups, pair.1).value;
      [(c0, c1), (c1, c0)]
  }

  /** `dependencies`: the group pairs of every kept (refereed, played) pair, in dict order. */
  function Dependencies(groups: seq<Group>, rg: Dict<string, (Game<string>, Game<string>)>): seq<(nat, nat)>
    requires Coloured(groups, rg)
  {
    if rg == [] then []
    else
      assert Coloured(groups, rg[1..]) by {
        forall k | 0 <= k < |rg| - 1 ensures rg[1..][k] == rg[k + 1] { }
      }
      PairDependencies(groups, rg[0].1) + Dependencies(groups, rg[1..])
  }

  /** Every dependency is a pair of group indices, and it appears together with its reverse. */
  lemma {:induction false} DependenciesSymmetric(groups: seq<Group>, rg: Dict<string, (Game<string>, Game<string>)>)
    requires Coloured(groups, rg)
    ensures forall d | d in Dependencies(groups, rg) ::
      (d.1, d.0) in Dependencies(groups, rg) && d.0 < |groups| && d.1 < |groups|
  {
    if rg != [] {
      var rest := rg[1..];
      assert Coloured(groups, rest) by {
        forall k | 0 <= k < |rest| ensures rest[k] == rg[k + 1] { }
      }
      DependenciesSymmetric(groups, rest);
      var head := PairDependencies(groups, rg[0].1);
      assert Dependencies(groups, rg) == head + Dependencies(groups, rest);
      if rg[0].1.0 != rg[0].1.1 {
        var c0, c1 := ColourOf(groups, rg[0].1.0).value, ColourOf(groups, rg[0].1.1).value;
        assert head == [(c0, c1), (c1, c0)];
      }
    }
  }

  /** The entries of `{a: {b} for b, a in dependencies if a != b}`, in order. */
  function DependencyEntries(ds: seq<(nat, nat)>): seq<(nat, set<nat>)> {
    if ds == [] then []
    else (if ds[0].0 != ds[0].1 then [(ds[0].1, {ds[0].0})] else []) + DependencyEntries(ds[1..])
  }

  /** Each entry `(a, {b})` comes from a dependency `(b, a)` with `a != b`. */
  lemma {:induction false} DependencyEntriesFrom(ds: seq<(nat, nat)>)
    ensures forall e | e in DependencyEntries(ds) :: exists d | d in ds :: d.0 != d.1 && e == (d.1, {d.0})
  {
    if ds != [] {
      DependencyEntriesFrom(ds[1..]);
      forall e | e in DependencyEntries(ds) ensures exists d | d in ds :: d.0 != d.1 && e == (d.1, {d.0}) {
        if e !in DependencyEntries(ds[1..]) {
          assert ds[0] in ds;
        } else {
          var d :| d in ds[1..] && d.0 != d.1 && e == (d.1, {d.0});
          assert d in ds;
        }
      }
    }
  }

  lemma {:induction false} DependencyEntriesConcat(xs: seq<(nat, nat)>, ys: seq<(nat, nat)>)
    ensures DependencyEntries(xs + ys) == DependencyEntries(xs) + DependencyEntries(ys)
  {
    if xs != [] {
      assert (xs + ys)[0] == xs[0];
      assert (xs + ys)[1..] == xs[1..] + ys;
      DependencyEntriesConcat(xs[1..], ys);
      var head := if xs[0].0 != xs[0].1 then [(xs[0].1, {xs[0].0})] else [];
      assert DependencyEntries(xs + ys) == head + (DependencyEntries(xs[1..]) + DependencyEntries(ys));
      assert DependencyEntries(xs) == head + DependencyEntries(xs[1..]);
    } else {
      assert xs + ys == ys;
    }
  }

  /** `D`: each group index mapped to the last group it was paired with. */
  function DependencyDict(groups: seq<Group>, rg: Dict<string, (Game<string>, Game<string>)>): Dict<nat, set<nat>>
    requires Coloured(groups, rg)
  {
    FromEntries(DependencyEntries(Dependencies(groups, rg)))
  }

  /** `E = {(b, a) for a in D for b in D[a]}`. */
  function DependencyEdges(d: Dict<nat, set<nat>>): set<(nat, nat)> {
    set a, b | a in Keys(d) && b in Get(d, a).value :: (b, a)
  }

  /** `V = set(D.keys()) | {c for ca in D for c in D[ca]}`. */
  function DependencyVertices(d: Dict<nat, set<nat>>): set<nat> {
    Keys(d) + set a, b | a in Keys(d) && b in Get(d, a).value :: b
  }

  type Orderer = (set<nat>, set<(nat, nat)>) -> Option<seq<nat>>

  /** `[gameGroups[color] for color in top_ordering]`. */
  function Reorder(groups: seq<Group>, order: seq<nat>): (r: seq<Group>)
    requires forall k | 0 <= k < |order| :: order[k] < |groups|
    ensures |r| == |order| && forall k | 0 <= k < |order| :: r[k] == groups[order[k]]
  {
    seq(|order|, k requires 0 <= k < |order| => groups[order[k]])
  }

  /** Every vertex of the digraph is the colour of some game, so it indexes the group list. */
  lemma VerticesAreGroups(groups: seq<Group>, rg: Dict<string, (Game<string>, Game<string>)>)
    requires Coloured(groups, rg)
    ensures forall c | c in DependencyVertices(DependencyDict(groups, rg)) :: c < |groups|
  {
    var ds := Dependencies(groups, rg);
    var d := DependencyDict(groups, rg);
    DependenciesSymmetric(groups, rg);
    DependencyEntriesFrom(ds);
    forall c | c in DependencyVertices(d) ensures c < |groups| {
      if c in Keys(d) {
        var i :| 0 <= i < |d| && d[i].0 == c;
        assert d[i] in d;
      } else {
        var a, b :| a in Keys(d) && b in Get(d, a).value && c == b;
        var i :| 0 <= i < |d| && d[i] == (a, Get(d, a).value);
        assert d[i] in d;
      }
    }
  }

  /**
   * `gameSchedule(assignedReferees, gameGroups)`: the groups in the order
   * `topOrdering` gives the dependency digraph's vertices, or None when it
   * finds no order.
   */
  function Schedule(chosen: Assignment, groups: seq<Group>, topOrdering: Orderer): (r: Option<seq<Group>>)
    requires Coloured(groups, RefereeGames(chosen))
    requires TopOrderingContract(topOrdering)
    ensures r.Some? ==> forall k | 0 <= k < |r.value| :: r.value[k] in groups
  {
    var rg := RefereeGames(chosen);
    var d := DependencyDict(groups, rg);
    var order := topOrdering(DependencyVertices(d), DependencyEdges(d));
    if order.Some? then
      assert TopOrderingResult(DependencyVertices(d), DependencyEdges(d), order);
      VerticesAreGroups(groups, rg);
      Some(Reorder(groups, order.value))
    else None
  }

  // ---------------------------------------------------------------------
  // What the function computes as written.

  /** Some kept pair joins two different games that lie in different groups. */
  ghost predicate HasCrossDependency(groups: seq<Group>, rg: Dict<string, (Game<string>, Game<string>)>) {
    exists k | 0 <= k < |rg| :: rg[k].1.0 != rg[k].1.1 && ColourOf(groups, rg[k].1.0) != ColourOf(groups, rg[k].1.1)
  }

  /** One pair yields the two entries of an edge exactly when it crosses groups, and none otherwise. */
  lemma PairEntries(groups: seq<Group>, pair: (Game<string>, Game<string>)) returns (cross: bool, x: nat, y: nat)
    requires pair.0 != pair.1 ==> ColourOf(groups, pair.0).Some? && ColourOf(groups, pair.1).Some?
    ensures cross == (pair.0 != pair.1 && ColourOf(groups, pair.0) != ColourOf(groups, pair.1))
    ensures cross ==> x != y && DependencyEntries(PairDependencies(groups, pair)) == [(y, {x}), (x, {y})]
    ensures !cross ==> DependencyEntries(PairDependencies(groups, pair)) == []
  {
    cross := pair.0 != pair.1 && ColourOf(groups, pair.0) != ColourOf(groups, pair.1);
    x, y := 0, 0;
    var ds := PairDependencies(groups, pair);
    if pair.0 != pair.1 {
      x, y := ColourOf(groups, pair.0).value, ColourOf(groups, pair.1).value;
      var none: seq<(nat, nat)> := [];
      assert ds == [(x, y), (y, x)];
      assert ds[1..] == [(y, x)] && ds[1..][1..] == none;
      assert DependencyEntries(ds[1..]) == (if y != x then [(x, {y})] else []);
    }
  }

  /**
   * Every dependency is emitted in both orientations, one right after the
   * other, so the entries of `D` end with `(y, {x}), (x, {y})` for the last
   * pair that crosses groups; with no such pair there are no entries at all.
   */
  lemma {:induction false} DependencyEntriesShape(groups: seq<Group>, rg: Dict<string, (Game<string>, Game<string>)>) returns (x: nat, y: nat)
    requires Coloured(groups, rg)
    ensures var es := DependencyEntries(Dependencies(groups, rg));
            HasCrossDependency(groups, rg) ==>
              x != y && |es| >= 2 && es[|es| - 2] == (y, {x}) && es[|es| - 1] == (x, {y})
    ensures !HasCrossDependency(groups, rg) ==> DependencyEntries(Dependencies(groups, rg)) == []
  {
    x, y := 0, 0;
    if rg != [] {
      var rest := rg[1..];
      assert Coloured(groups, rest) by {
        forall k | 0 <= k < |rest| ensures rest[k] == rg[k + 1] { }
      }
      var head := DependencyEntries(PairDependencies(groups, rg[0].1));
      var tail := DependencyEntries(Dependencies(groups, rest));
      assert Dependencies(groups, rg) == PairDependencies(groups, rg[0].1) + Dependencies(groups, rest);
      DependencyEntriesConcat(PairDependencies(groups, rg[0].1), Dependencies(groups, rest));
      var x', y' := DependencyEntriesShape(groups, rest);
      var crossHead, hx, hy := PairEntries(groups, rg[0].1);
      CrossSplit(groups, rg);
      var crossTail := HasCrossDependency(groups, rest);
      x, y := ShapeStep(head, tail, crossHead, crossTail, hx, hy, x', y');
    }
  }

  /** The entries of one pair followed by those of the later pairs keep the shape. */
  lemma ShapeStep(head: seq<(nat, set<nat>)>, tail: seq<(nat, set<nat>)>, crossHead: bool, crossTail: bool,
                  hx: nat, hy: nat, tx: nat, ty: nat) returns (x: nat, y: nat)
    requires crossHead ==> hx != hy && head == [(hy, {hx}), (hx, {hy})]
    requires !crossHead ==> head == []
    requires crossTail ==> tx != ty && |tail| >= 2 && tail[|tail| - 2] == (ty, {tx}) && tail[|tail| - 1] == (tx, {ty})
    requires !crossTail ==> tail == []
    ensures var es := head + tail;
            crossHead || crossTail ==> x != y && |es| >= 2 && es[|es| - 2] == (y, {x}) && es[|es| - 1] == (x, {y})
    ensures !crossHead && !crossTail ==> head + tail == []
  {
    x, y := 0, 0;
    var es := head + tail;
    if crossTail {
      x, y := tx, ty;
      assert es[|es| - 2] == tail[|tail| - 2] && es[|es| - 1] == tail[|tail| - 1];
    } else if crossHead {
      x, y := hx, hy;
      assert es == head;
    }
  }

  lemma CrossSplit(groups: seq<Group>, rg: Dict<string, (Game<string>, Game<string>)>)
    requires rg != []
    ensures HasCrossDependency(groups, rg) <==>
      (rg[0].1.0 != rg[0].1.1 && ColourOf(groups, rg[0].1.0) != ColourOf(groups, rg[0].1.1))
      || HasCrossDependency(groups, rg[1..])
  {
    var rest := rg[1..];
    if HasCrossDependency(groups, rest) {
      var k :| 0 <= k < |rest| && rest[k].1.0 != rest[k].1.1 && ColourOf(groups, rest[k].1.0) != ColourOf(groups, rest[k].1.1);
      assert rg[k + 1] == rest[k];
    }
    if HasCrossDependency(groups, rg) {
      var k :| 0 <= k < |rg| && rg[k].1.0 != rg[k].1.1 && ColourOf(groups, rg[k].1.0) != ColourOf(groups, rg[k].1.1);
      if k > 0 { assert rest[k - 1] == rg[k]; }
    }
  }

  /** A pair that crosses groups puts both orientations of one edge into `E`. */
  lemma CrossMakesTwoCycle(groups: seq<Group>, rg: Dict<string, (Game<string>, Game<string>)>) returns (x: nat, y: nat)
    requires Coloured(groups, rg) && HasCrossDependency(groups, rg)
    ensures var d := DependencyDict(groups, rg);
            x in DependencyVertices(d) && y in DependencyVertices(d)
            && (x, y) in DependencyEdges(d) && (y, x) in DependencyEdges(d)
  {
    x, y := DependencyEntriesShape(groups, rg);
    LastTwoEntries(DependencyEntries(Dependencies(groups, rg)), x, y);
    EdgesBothWays(DependencyDict(groups, rg), x, y);
  }

  lemma LastTwoEntries(es: seq<(nat, set<nat>)>, x: nat, y: nat)
    requires x != y && |es| >= 2 && es[|es| - 2] == (y, {x}) && es[|es| - 1] == (x, {y})
    ensures Get(FromEntries(es), x) == Some({y}) && Get(FromEntries(es), y) == Some({x})
  {
    var n := |es|;
    FromEntriesLast(es, n - 1);
    assert forall j :: n - 2 < j < n ==> es[j].0 != es[n - 2].0 by {
      forall j | n - 2 < j < n ensures es[j].0 != es[n - 2].0 {
        assert j == n - 1;
      }
    }
    FromEntriesLast(es, n - 2);
  }

  lemma EdgesBothWays(d: Dict<nat, set<nat>>, x: nat, y: nat)
    requires Get(d, x) == Some({y}) && Get(d, y) == Some({x})
    ensures x in DependencyVertices(d) && y in DependencyVertices(d)
    ensures (x, y) in DependencyEdges(d) && (y, x) in DependencyEdges(d)
  {
  }

  /**
   * As written, `gameSchedule` never returns the groups: a pair that crosses
   * groups always leaves a 2-cycle in `E`, so the result is None, and
   * otherwise `V` and `E` are empty, so the result is the empty list.
   */
  lemma ScheduleAsWritten(chosen: Assignment, groups: seq<Group>, topOrdering: Orderer)
    requires Coloured(groups, RefereeGames(chosen))
    requires TopOrderingContract(topOrdering)
    ensures Schedule(chosen, groups, topOrdering) ==
      if HasCrossDependency(groups, RefereeGames(chosen)) then None else Some([])
  {
    var rg := RefereeGames(chosen);
    var d := DependencyDict(groups, rg);
    var vs := DependencyVertices(d);
    var edges := DependencyEdges(d);
    assert TopOrderingResult(vs, edges, topOrdering(vs, edges));
    if HasCrossDependency(groups, rg) {
      var x, y := CrossMakesTwoCycle(groups, rg);
      TwoCycleHasNoOrdering(vs, edges, x, y);
    } else {
      var _, _ := DependencyEntriesShape(groups, rg);
      assert d == [];
      assert vs == {} && edges == {};
      var order := topOrdering(vs, edges);
      if order.Some? {
        EmptyOrdering(order.value);
      } else {
        EmptyOrdering<nat>([]);
      }
      assert Reorder(groups, []) == [];
    }
  }

  // ---------------------------------------------------------------------
  // The schedule the function is evidently meant to produce.

  /** Every game of the dict lies in some group. */
  predicate AllGrouped(chosen: Assignment, groups: seq<Group>) {
    forall i | 0 <= i < |chosen| :: ColourOf(groups, chosen[i].0).Some?
  }

  /** The group indices `0 .. n - 1`. */
  function Indices(n: nat): (r: set<nat>)
    ensures forall c: nat :: c in r <==> c < n
    ensures |r| == n
  {
    if n == 0 then
      var none: set<nat> := {};
      none
    else
      var r := Indices(n - 1) + {n - 1};
      assert n - 1 !in Indices(n - 1);
      r
  }

  /**
   * The intended dependencies: when the referee of `ga` plays in another game
   * `gb` in a different group, the group of `gb` comes before the group of `ga`.
   */
  function IntendedEdges(chosen: Assignment, groups: seq<Group>): (e: set<(nat, nat)>)
    requires AllGrouped(chosen, groups)
    ensures EdgesWithin(Indices(|groups|), e)
  {
    set i, j | 0 <= i < |chosen| && 0 <= j < |chosen| && chosen[i].0 != chosen[j].0
               && PlaysIn(chosen[i].1, chosen[j].0)
               && ColourOf(groups, chosen[j].0) != ColourOf(groups, chosen[i].0)
      :: (ColourOf(groups, chosen[j].0).value, ColourOf(groups, chosen[i].0).value)
  }

  /** The corrected schedule: every group index is a vertex, and the edges are the intended dependencies. */
  function IntendedSchedule(chosen: Assignment, groups: seq<Group>, topOrdering: Orderer): (r: Option<seq<Group>>)
    requires AllGrouped(chosen, groups)
    requires TopOrderingContract(topOrdering)
    ensures r.Some? ==> |r.value| == |groups| && forall c | 0 <= c < |groups| :: groups[c] in r.value
    ensures r.Some? ==> multiset(r.value) == multiset(groups)
  {
    var vs := Indices(|groups|);
    var edges := IntendedEdges(chosen, groups);
    var order := topOrdering(vs, edges);
    assert TopOrderingResult(vs, edges, order);
    if order.Some? then
      assert IsTopOrdering(order.value, vs, edges);
      OrderingIsPermutation(order.value, groups, edges);
      Some(Reorder(groups, order.value))
    else None
  }

  /** The corrected schedule fails exactly when the intended dependencies admit no order, that is, when they form a cycle. */
  lemma IntendedNoneIff(chosen: Assignment, groups: seq<Group>, topOrdering: Orderer)
    requires AllGrouped(chosen, groups)
    requires TopOrderingContract(topOrdering)
    ensures IntendedSchedule(chosen, groups, topOrdering).None? ==>
      forall order :: !IsTopOrdering(order, Indices(|groups|), IntendedEdges(chosen, groups))
    ensures (forall order :: !IsTopOrdering(order, Indices(|groups|), IntendedEdges(chosen, groups))) ==>
      IntendedSchedule(chosen, groups, topOrdering).None?
  {
    var vs := Indices(|groups|);
    var edges := IntendedEdges(chosen, groups);
    var order := topOrdering(vs, edges);
    assert TopOrderingResult(vs, edges, order);
    if order.Some? {
      assert IsTopOrdering(order.value, vs, edges);
      assert IntendedSchedule(chosen, groups, topOrdering).Some?;
    } else {
      assert forall o :: !IsTopOrdering(o, vs, edges);
      assert IntendedSchedule(chosen, groups, topOrdering).None?;
    }
  }

  /** A topological ordering of the group indices lists each of them exactly once. */
  lemma OrderingIsPermutation(order: seq<nat>, groups: seq<Group>, edges: set<(nat, nat)>)
    requires IsTopOrdering(order, Indices(|groups|), edges)
    ensures |order| == |groups| && forall k | 0 <= k < |order| :: order[k] < |groups|
    ensures forall c | 0 <= c < |groups| :: groups[c] in Reorder(groups, order)
    ensures multiset(Reorder(groups, order)) == multiset(groups)
  {
    assert Distinct(order);
    DistinctSize(order);
    assert Elements(order) == Indices(|groups|);
    ReorderCovers(order, groups);
    ReorderPermutes(groups, order);
  }

  /** Listing the groups in an order that names each index exactly once rearranges them, losing and adding none. */
  lemma {:induction false} ReorderPermutes(groups: seq<Group>, order: seq<nat>)
    requires |order| == |groups| && Distinct(order)
    requires forall k | 0 <= k < |order| :: order[k] < |groups|
    requires forall c: nat | c < |groups| :: c in order
    ensures multiset(Reorder(groups, order)) == multiset(groups)
    decreases |groups|
  {
    if groups != [] {
      var n := |groups| - 1;
      var p, rest := RemoveTop(order);
      ReorderPermutes(groups[..n], rest);
      ReorderInit(groups, rest);
      ReorderWithout(groups, order, p);
      var before, after := Reorder(groups, order[..p]), Reorder(groups, order[p + 1..]);
      var others := Reorder(groups[..n], rest);
      assert others == before + after;
      PermuteStep(groups, Reorder(groups, order), before, after, others);
    }
  }

  /** Putting the last element back between two parts of a rearrangement of the others rearranges the whole. */
  lemma PermuteStep<T>(whole: seq<T>, reordered: seq<T>, before: seq<T>, after: seq<T>, others: seq<T>)
    requires whole != []
    requires reordered == before + [whole[|whole| - 1]] + after
    requires others == before + after && multiset(others) == multiset(whole[..|whole| - 1])
    ensures multiset(reordered) == multiset(whole)
  {
    assert whole == whole[..|whole| - 1] + [whole[|whole| - 1]];
  }

  /** Reordering by `order` is reordering by the entries before `p`, then `order[p]`, then the entries after it. */
  lemma ReorderWithout(groups: seq<Group>, order: seq<nat>, p: nat)
    requires p < |order| && forall k | 0 <= k < |order| :: order[k] < |groups|
    ensures var before, after := Reorder(groups, order[..p]), Reorder(groups, order[p + 1..]);
            && Reorder(groups, order) == before + [groups[order[p]]] + after
            && Reorder(groups, order[..p] + order[p + 1..]) == before + after
  {
    assert order == order[..p] + [order[p]] + order[p + 1..];
    ReorderConcat(groups, order[..p] + [order[p]], order[p + 1..]);
    ReorderConcat(groups, order[..p], [order[p]]);
    ReorderConcat(groups, order[..p], order[p + 1..]);
  }

  /** Taking the largest index out of a list of the indices `0 .. n`, each once, leaves a list of `0 .. n - 1`, each once. */
  lemma RemoveTop(order: seq<nat>) returns (p: nat, rest: seq<nat>)
    requires order != [] && Distinct(order)
    requires forall k | 0 <= k < |order| :: order[k] < |order|
    requires forall c: nat | c < |order| :: c in order
    ensures p < |order| && order[p] == |order| - 1 && rest == order[..p] + order[p + 1..]
    ensures |rest| == |order| - 1 && Distinct(rest)
    ensures forall k | 0 <= k < |rest| :: rest[k] < |rest|
    ensures forall c: nat | c < |rest| :: c in rest
  {
    var n: nat := |order| - 1;
    assert n in order;
    p :| 0 <= p < |order| && order[p] == n;
    rest := order[..p] + order[p + 1..];
    SliceOutDistinct(order, p);
    forall k | 0 <= k < |rest| ensures rest[k] < |rest| {
      var k' := SliceOutIndex(order, p, k);
    }
    forall c: nat | c < |rest| ensures c in rest {
      assert c in order;
      var q :| 0 <= q < |order| && order[q] == c;
      if q < p { assert rest[q] == c; } else { assert rest[q - 1] == c; }
    }
  }

  /** Entry `k` of `order` without entry `p` is entry `k` or `k + 1` of `order`, never entry `p`. */
  lemma SliceOutIndex(order: seq<nat>, p: nat, k: nat) returns (k': nat)
    requires p < |order| && k < |order| - 1
    ensures k' < |order| && k' != p && (order[..p] + order[p + 1..])[k] == order[k']
    ensures k' == if k < p then k else k + 1
  {
    k' := if k < p then k else k + 1;
  }

  lemma SliceOutDistinct(order: seq<nat>, p: nat)
    requires p < |order| && Distinct(order)
    ensures Distinct(order[..p] + order[p + 1..])
  {
    var rest := order[..p] + order[p + 1..];
    forall i, j | 0 <= i < j < |rest| ensures rest[i] != rest[j] {
      var i' := SliceOutIndex(order, p, i);
      var j' := SliceOutIndex(order, p, j);
    }
  }

  lemma ReorderConcat(groups: seq<Group>, a: seq<nat>, b: seq<nat>)
    requires forall k | 0 <= k < |a + b| :: (a + b)[k] < |groups|
    ensures forall k | 0 <= k < |a| :: a[k] < |groups|
    ensures forall k | 0 <= k < |b| :: b[k] < |groups|
    ensures Reorder(groups, a + b) == Reorder(groups, a) + Reorder(groups, b)
  {
    assert forall k | 0 <= k < |a| :: a[k] == (a + b)[k];
    assert forall k | 0 <= k < |b| :: b[k] == (a + b)[|a| + k];
  }

  lemma ReorderInit(groups: seq<Group>, order: seq<nat>)
    requires groups != [] && forall k | 0 <= k < |order| :: order[k] < |groups| - 1
    ensures Reorder(groups, order) == Reorder(groups[..|groups| - 1], order)
  {
  }

  lemma ReorderCovers(order: seq<nat>, groups: seq<Group>)
    requires forall k | 0 <= k < |order| :: order[k] < |groups|
    requires forall c: nat | c < |groups| :: c in order
    ensures forall c | 0 <= c < |groups| :: groups[c] in Reorder(groups, order)
  {
    var r := Reorder(groups, order);
    forall c | 0 <= c < |groups| ensures groups[c] in r {
      var n: nat := c;
      assert n in order;
      var p :| 0 <= p < |order| && order[p] == c;
      assert r[p] == groups[c];
    }
  }

  predicate Distinct(s: seq<nat>) {
    forall i, j | 0 <= i < j < |s| :: s[i] != s[j]
  }

  function Elements(s: seq<nat>): set<nat> {
    set k | k in s
  }

  lemma DistinctTail(s: seq<nat>)
    requires s != [] && Distinct(s)
    ensures Distinct(s[1..]) && s[0] !in Elements(s[1..])
  {
    var rest := s[1..];
    forall i, j | 0 <= i < j < |rest| ensures rest[i] != rest[j] {
      assert rest[i] == s[i + 1] && rest[j] == s[j + 1];
    }
    forall i | 0 <= i < |rest| ensures rest[i] != s[0] { assert rest[i] == s[i + 1]; }
  }

  lemma ElementsCons(s: seq<nat>)
    requires s != []
    ensures Elements(s) == {s[0]} + Elements(s[1..])
  {
    assert s == [s[0]] + s[1..];
  }

  /** A sequence without repetitions has as many elements as entries. */
  lemma {:induction false} DistinctSize(s: seq<nat>)
    requires Distinct(s)
    ensures |Elements(s)| == |s|
  {
    if s != [] {
      DistinctTail(s);
      DistinctSize(s[1..]);
      ElementsCons(s);
    } else {
      assert Elements(s) == {};
    }
  }

  /**
   * In a corrected schedule, the group in which a referee plays comes before
   * the group of the game they referee.
   */
  lemma PlayedBeforeRefereed(chosen: Assignment, groups: seq<Group>, topOrdering: Orderer, i: nat, j: nat)
    requires AllGrouped(chosen, groups)
    requires TopOrderingContract(topOrdering)
    requires IntendedSchedule(chosen, groups, topOrdering).Some?
    requires i < |chosen| && j < |chosen| && chosen[i].0 != chosen[j].0 && PlaysIn(chosen[i].1, chosen[j].0)
    requires ColourOf(groups, chosen[j].0) != ColourOf(groups, chosen[i].0)
    ensures var r := IntendedSchedule(chosen, groups, topOrdering).value;
            exists p, q | 0 <= p < q < |r| ::
              r[p] == groups[ColourOf(groups, chosen[j].0).value] && r[q] == groups[ColourOf(groups, chosen[i].0).value]
  {
    var edges := IntendedEdges(chosen, groups);
    var order := topOrdering(Indices(|groups|), edges);
    assert TopOrderingResult(Indices(|groups|), edges, order);
    var r := IntendedSchedule(chosen, groups, topOrdering).value;
    var played, refereed := ColourOf(groups, chosen[j].0).value, ColourOf(groups, chosen[i].0).value;
    assert (played, refereed) in edges;
    assert played in Indices(|groups|) && refereed in Indices(|groups|);
    var p :| 0 <= p < |order.value| && order.value[p] == played;
    var q :| 0 <= q < |order.value| && order.value[q] == refereed;
    assert p < q;
    assert r[p] == groups[played] && r[q] == groups[refereed];
  }
}
