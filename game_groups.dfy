/**
 * `gameGroups` (A2/project.py): split the refereed games into groups that
 * can be played at the same time, by colouring the graph whose edges join
 * two games sharing a person.
 */
module GameGroups {
  import opened PyDicts
  import opened GraphSpecs
  import opened Tournament

  /** `assignedReferees`: a dict from game to referee, in insertion order. */
  type Assignment = Dict<Game<string>, string>

  /** The people a refereed game occupies: its two players and its referee. */
  function People(g: Game<string>, r: string): set<string> {
    {g.0, g.1, r}
  }

  /**
   * The test on two refereed games `(a, b), r1` and `(c, d), r2`:
   * `a in (c, d) or b in (c, d) or r1 == r2 or r1 in (c, d) or r2 in (a, b)`,
   * where `in` on a pair compares with each component.
   */
  predicate Clash(g1: Game<string>, r1: string, g2: Game<string>, r2: string) {
    || g1.0 == g2.0 || g1.0 == g2.1
    || g1.1 == g2.0 || g1.1 == g2.1
    || r1 == r2
    || r1 == g2.0 || r1 == g2.1
    || r2 == g1.0 || r2 == g1.1
  }

  /** `E`: every ordered pair of different games that clash. */
  function ConflictEdges(chosen: Assignment): (e: set<(Game<string>, Game<string>)>)
    ensures EdgesWithin(Keys(chosen), e)
    ensures Irreflexive(e)
    ensures forall p | p in e :: (p.1, p.0) in e
  {
    var e := set i, j | 0 <= i < |chosen| && 0 <= j < |chosen| && chosen[i].0 != chosen[j].0
                        && Clash(chosen[i].0, chosen[i].1, chosen[j].0, chosen[j].1) :: (chosen[i].0, chosen[j].0);
    assert forall p | p in e :: (p.1, p.0) in e by {
      forall p | p in e ensures (p.1, p.0) in e {
        var i, j :| 0 <= i < |chosen| && 0 <= j < |chosen| && chosen[i].0 != chosen[j].0
                    && Clash(chosen[i].0, chosen[i].1, chosen[j].0, chosen[j].1) && p == (chosen[i].0, chosen[j].0);
        assert Clash(chosen[j].0, chosen[j].1, chosen[i].0, chosen[i].1);
      }
    }
    e
  }

  /** Two refereed games clash exactly when some person is in both. */
  lemma ClashIff(g1: Game<string>, r1: string, g2: Game<string>, r2: string)
    ensures Clash(g1, r1, g2, r2) <==> People(g1, r1) * People(g2, r2) != {}
  {
    var both := People(g1, r1) * People(g2, r2);
    if g1.0 == g2.0 || g1.0 == g2.1 || r2 == g1.0 { assert g1.0 in both; }
    else if g1.1 == g2.0 || g1.1 == g2.1 || r2 == g1.1 { assert g1.1 in both; }
    else if r1 == r2 || r1 == g2.0 || r1 == g2.1 { assert r1 in both; }
  }

  /** Two games of the dict are joined exactly when they are different and share a person. */
  lemma ConflictEdgeIff(chosen: Assignment, i: nat, j: nat)
    requires DistinctKeys(chosen) && i < |chosen| && j < |chosen|
    ensures (chosen[i].0, chosen[j].0) in ConflictEdges(chosen) <==>
            i != j && People(chosen[i].0, chosen[i].1) * People(chosen[j].0, chosen[j].1) != {}
  {
    var (g1, r1) := chosen[i];
    var (g2, r2) := chosen[j];
    ClashIff(g1, r1, g2, r2);
    if (g1, g2) in ConflictEdges(chosen) {
      var i', j' :| 0 <= i' < |chosen| && 0 <= j' < |chosen| && chosen[i'].0 != chosen[j'].0
                    && Clash(chosen[i'].0, chosen[i'].1, chosen[j'].0, chosen[j'].1) && (g1, g2) == (chosen[i'].0, chosen[j'].0);
      assert i' == i && j' == j;
    }
  }

  /** `list(assignedReferees)`: the games in insertion order. */
  function GameList(chosen: Assignment): (games: seq<Game<string>>)
    ensures (set g | g in games) == Keys(chosen)
  {
    var games := seq(|chosen|, k requires 0 <= k < |chosen| => chosen[k].0);
    assert forall g | g in games :: g in Keys(chosen);
    assert forall g | g in Keys(chosen) :: g in games by {
      forall g | g in Keys(chosen) ensures g in games {
        var k :| 0 <= k < |chosen| && chosen[k].0 == g;
        assert games[k] == g;
      }
    }
    games
  }

  type Colourer = (seq<Game<string>>, set<(Game<string>, Game<string>)>) -> (nat, map<Game<string>, nat>)
  type Classifier = map<Game<string>, nat> -> seq<set<Game<string>>>

  /** Every game lies in exactly one group, and the groups hold nothing else. */
  ghost predicate IsPartition(groups: seq<set<Game<string>>>, games: set<Game<string>>) {
    && (forall i | 0 <= i < |groups| :: groups[i] <= games)
    && (forall g | g in games :: exists i :: 0 <= i < |groups| && g in groups[i])
    && (forall i, j | 0 <= i < |groups| && 0 <= j < |groups| && i != j :: groups[i] !! groups[j])
  }

  /** No two games of one group share a player or a referee. */
  ghost predicate GroupsClashFree(chosen: Assignment, groups: seq<set<Game<string>>>) {
    forall k, a, b | 0 <= k < |groups| && 0 <= a < |chosen| && 0 <= b < |chosen| && a != b
                     && chosen[a].0 in groups[k] && chosen[b].0 in groups[k] ::
      People(chosen[a].0, chosen[a].1) !! People(chosen[b].0, chosen[b].1)
  }

  /**
   * `gameGroups(assignedReferees)`: the colour classes of a minimum colouring
   * of the conflict graph.
   */
  function GroupGames(chosen: Assignment, minColouring: Colourer, colourClasses: Classifier): (groups: seq<set<Game<string>>>)
    requires DistinctKeys(chosen)
    requires MinColouringContract(minColouring) && ColourClassesContract(colourClasses)
    ensures IsPartition(groups, Keys(chosen))
    ensures GroupsClashFree(chosen, groups)
  {
    var games := GameList(chosen);
    var e := ConflictEdges(chosen);
    var (k, colour) := minColouring(games, e);
    var groups := colourClasses(colour);
    assert IsMinColouring(Keys(chosen), e, colour, k);
    assert IsColourClasses(colour, groups);
    ClassesPartition(colour, groups);
    ClassesClashFree(chosen, colour, k, groups);
    groups
  }

  /** Games of one colour class are not joined, so they share nobody. */
  lemma ClassesClashFree(chosen: Assignment, colour: map<Game<string>, nat>, k: nat, groups: seq<set<Game<string>>>)
    requires DistinctKeys(chosen)
    requires IsColouring(Keys(chosen), ConflictEdges(chosen), colour, k)
    requires IsColourClasses(colour, groups)
    ensures GroupsClashFree(chosen, groups)
  {
    OneColourPerClassClashFree(chosen, colour, k, groups);
  }

  lemma OneColourPerClassClashFree(chosen: Assignment, colour: map<Game<string>, nat>, k: nat, groups: seq<set<Game<string>>>)
    requires DistinctKeys(chosen)
    requires IsColouring(Keys(chosen), ConflictEdges(chosen), colour, k)
    requires forall i, u, v | 0 <= i < |groups| && u in groups[i] && v in groups[i] && u in colour && v in colour ::
      colour[u] == colour[v]
    ensures GroupsClashFree(chosen, groups)
  {
    forall n, a, b | 0 <= n < |groups| && 0 <= a < |chosen| && 0 <= b < |chosen| && a != b
                     && chosen[a].0 in groups[n] && chosen[b].0 in groups[n]
      ensures People(chosen[a].0, chosen[a].1) !! People(chosen[b].0, chosen[b].1)
    {
      assert chosen[a].0 in Keys(chosen) && chosen[b].0 in Keys(chosen);
      SameColourShareNobody(chosen, colour, k, a, b);
    }
  }

  /** Two games that a proper colouring of the conflict graph gives one colour share nobody. */
  lemma SameColourShareNobody(chosen: Assignment, colour: map<Game<string>, nat>, k: nat, a: nat, b: nat)
    requires DistinctKeys(chosen) && a < |chosen| && b < |chosen| && a != b
    requires IsColouring(Keys(chosen), ConflictEdges(chosen), colour, k)
    requires colour[chosen[a].0] == colour[chosen[b].0]
    ensures People(chosen[a].0, chosen[a].1) !! People(chosen[b].0, chosen[b].1)
  {
    assert chosen[a].0 in Keys(chosen) && chosen[b].0 in Keys(chosen);
    assert (chosen[a].0, chosen[b].0) !in ConflictEdges(chosen);
    ConflictEdgeIff(chosen, a, b);
  }

  /** The colour classes of a colouring partition the coloured vertices. */
  lemma ClassesPartition(colour: map<Game<string>, nat>, groups: seq<set<Game<string>>>)
    requires IsColourClasses(colour, groups)
    ensures IsPartition(groups, colour.Keys)
  {
    forall i, j | 0 <= i < |groups| && 0 <= j < |groups| && i != j ensures groups[i] !! groups[j] {
      forall g | g in groups[i] ensures g !in groups[j] {
      }
    }
  }

  // ---------------------------------------------------------------------
  // The group sizes add up to the number of games.

  function TotalSize(groups: seq<set<Game<string>>>): nat {
    if groups == [] then 0 else |groups[0]| + TotalSize(groups[1..])
  }

  ghost function Union(groups: seq<set<Game<string>>>): set<Game<string>> {
    set i, g | 0 <= i < |groups| && g in groups[i] :: g
  }

  /** Disjoint groups hold as many games together as their sizes add up to. */
  lemma {:induction false} TotalSizeOfDisjoint(groups: seq<set<Game<string>>>)
    requires forall i, j | 0 <= i < |groups| && 0 <= j < |groups| && i != j :: groups[i] !! groups[j]
    ensures TotalSize(groups) == |Union(groups)|
  {
    if groups != [] {
      var rest := groups[1..];
      assert forall i, j | 0 <= i < |rest| && 0 <= j < |rest| && i != j :: rest[i] !! rest[j] by {
        forall i, j | 0 <= i < |rest| && 0 <= j < |rest| && i != j ensures rest[i] !! rest[j] {
          assert rest[i] == groups[i + 1] && rest[j] == groups[j + 1];
        }
      }
      TotalSizeOfDisjoint(rest);
      assert Union(groups) == groups[0] + Union(rest) by {
        forall g | g in Union(groups) ensures g in groups[0] + Union(rest) {
          var i :| 0 <= i < |groups| && g in groups[i];
          if i > 0 { assert g in rest[i - 1]; }
        }
        forall g | g in Union(rest) ensures g in Union(groups) {
          var i :| 0 <= i < |rest| && g in rest[i];
          assert g in groups[i + 1];
        }
      }
      assert groups[0] !! Union(rest) by {
        forall g | g in Union(rest) ensures g !in groups[0] {
          var i :| 0 <= i < |rest| && g in rest[i];
          assert groups[0] !! groups[i + 1];
        }
      }
    }
  }

  /** A dict with distinct keys has as many keys as entries. */
  lemma {:induction false} KeysSize(d: Assignment)
    requires DistinctKeys(d)
    ensures |Keys(d)| == |d|
  {
    if d != [] {
      var rest := d[1..];
      assert DistinctKeys(rest) by {
        forall a, b | 0 <= a < b < |rest| ensures rest[a].0 != rest[b].0 {
          assert rest[a] == d[a + 1] && rest[b] == d[b + 1];
        }
      }
      KeysSize(rest);
      KeysCons(d);
      assert d[0].0 !in Keys(rest) by {
        forall k | 0 <= k < |rest| ensures rest[k].0 != d[0].0 {
          assert rest[k] == d[k + 1];
        }
      }
    }
  }

  /**
   * The test helper's first check: the group sizes add up to the number of
   * games, so no game is left out or counted twice.
   */
  lemma GroupSizesAddUp(chosen: Assignment, minColouring: Colourer, colourClasses: Classifier)
    requires DistinctKeys(chosen)
    requires MinColouringContract(minColouring) && ColourClassesContract(colourClasses)
    ensures TotalSize(GroupGames(chosen, minColouring, colourClasses)) == |chosen|
  {
    var groups := GroupGames(chosen, minColouring, colourClasses);
    TotalSizeOfDisjoint(groups);
    assert Union(groups) == Keys(chosen) by {
      forall g | g in Keys(chosen) ensures g in Union(groups) {
        var i :| 0 <= i < |groups| && g in groups[i];
      }
    }
    KeysSize(chosen);
  }
}
