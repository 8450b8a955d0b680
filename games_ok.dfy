/**
 * `gamesOK`: the structural check on a tournament's set of games
 * (A2/project.py and its earlier, identical draft project.py).
 *
 * A game is an ORDERED pair of players, as a Python tuple is: `(a, b)` and
 * `(b, a)` are different elements of the set. The check works on the
 * symmetric closure of the games, so orientation does not change its answer.
 */
module GamesOk {
  import opened Tournament

  /** `V`: every player that appears in some game. */
  function Players<P(==)>(games: set<Game<P>>): set<P> {
    (set g | g in games :: g.0) + (set g | g in games :: g.1)
  }

  /** `E`: the games together with their reversed orientations. */
  function Edges<P(==)>(games: set<Game<P>>): set<Game<P>> {
    games + (set g | g in games :: (g.1, g.0))
  }

  /** `N[x]`: the second components of the edges leaving `x`. */
  function Neighbours<P(==)>(games: set<Game<P>>, x: P): set<P> {
    set e | e in Edges(games) && e.0 == x :: e.1
  }

  /** `N`: one entry per vertex that starts an edge. */
  function NeighbourMap<P(==)>(games: set<Game<P>>): (n: map<P, set<P>>)
    ensures n.Keys == Players(games)
  {
    var n := map x | x in (set e | e in Edges(games) :: e.0) :: Neighbours(games, x);
    assert n.Keys == Players(games) by {
      forall p | p in Players(games) ensures p in n.Keys {
        var g :| g in games && (g.0 == p || g.1 == p);
        if g.0 == p { assert g in Edges(games); } else { assert (g.1, g.0) in Edges(games); }
      }
    }
    n
  }

  /** `gamesOK(games)`: all degrees equal, and two common opponents for every non-adjacent pair. */
  function GamesOK<P(==)>(games: set<Game<P>>): (ok: bool)
    ensures ok ==> games != {}
  {
    var V := Players(games);
    var N := NeighbourMap(games);
    var d := set u | u in V :: |N[u]|;
    if |d| != 1 then false
    else forall u, v | u in V && v in V && v != u && u !in N[v] :: |N[v] * N[u]| >= 2
  }

  // ---------------------------------------------------------------------
  // The tournament rule, stated directly on the games.

  /** The players `x` has a game with, in either orientation. */
  ghost function Opponents<P>(games: set<Game<P>>, x: P): set<P> {
    (set g | g in games && g.0 == x :: g.1) + (set g | g in games && g.1 == x :: g.0)
  }

  lemma OpponentsMembership<P>(games: set<Game<P>>, x: P)
    ensures forall y :: y in Opponents(games, x) <==> (x, y) in games || (y, x) in games
  {
    forall y ensures y in Opponents(games, x) <==> (x, y) in games || (y, x) in games {
      if (x, y) in games { assert y in (set g | g in games && g.0 == x :: g.1); }
      if (y, x) in games { assert y in (set g | g in games && g.1 == x :: g.0); }
    }
  }

  ghost predicate SameNumberOfGames<P>(games: set<Game<P>>) {
    forall x, y | x in Players(games) && y in Players(games) :: |Opponents(games, x)| == |Opponents(games, y)|
  }

  ghost predicate TwoCommonOpponents<P>(games: set<Game<P>>) {
    forall x, y | x in Players(games) && y in Players(games) && x != y && y !in Opponents(games, x) ::
      |Opponents(games, x) * Opponents(games, y)| >= 2
  }

  /** The neighbour map is symmetric: `y` is in `N[x]` exactly when `(x, y)` or `(y, x)` is a game. */
  lemma NeighboursAreOpponents<P>(games: set<Game<P>>, x: P)
    requires x in Players(games)
    ensures NeighbourMap(games)[x] == Opponents(games, x)
    ensures forall y :: y in NeighbourMap(games)[x] <==> (x, y) in games || (y, x) in games
  {
    var n := Neighbours(games, x);
    var o := Opponents(games, x);
    forall y | y in n ensures y in o {
      var e :| e in Edges(games) && e.0 == x && e.1 == y;
      if e !in games {
        var g :| g in games && e == (g.1, g.0);
      }
    }
    forall y | y in o ensures y in n {
      if g :| g in games && g.0 == x && g.1 == y {
        assert g in Edges(games);
      } else {
        var g :| g in games && g.1 == x && g.0 == y;
        assert (g.1, g.0) in Edges(games);
      }
    }
    forall y ensures y in o <==> (x, y) in games || (y, x) in games {
      if (x, y) in games { assert y in (set g | g in games && g.0 == x :: g.1); }
      if (y, x) in games { assert y in (set g | g in games && g.1 == x :: g.0); }
    }
  }

  /** A set of size one is a singleton. */
  lemma SizeOne<T>(s: set<T>)
    requires |s| == 1
    ensures exists k :: s == {k}
  {
    var k :| k in s;
    assert |s - {k}| == 0;
    assert s == {k};
  }

  /** The degree set has exactly one element iff there are players and they all have equal degree. */
  lemma DegreeSet<P>(games: set<Game<P>>)
    ensures var N := NeighbourMap(games);
            var d := set u | u in Players(games) :: |N[u]|;
            |d| == 1 <==> Players(games) != {} && SameNumberOfGames(games)
  {
    var V := Players(games);
    var N := NeighbourMap(games);
    var d := set u | u in V :: |N[u]|;
    forall x | x in V ensures |N[x]| == |Opponents(games, x)| {
      NeighboursAreOpponents(games, x);
    }
    if |d| == 1 {
      SizeOne(d);
      DegreeSetSingleton(V, N, d);
      assert SameNumberOfGames(games);
    }
    if V != {} && SameNumberOfGames(games) {
      var x :| x in V;
      assert forall u | u in V :: |N[u]| == |N[x]|;
      DegreeSetOfRegular(V, N, d, x);
    }
  }

  lemma DegreeSetSingleton<P>(V: set<P>, N: map<P, set<P>>, d: set<nat>)
    requires V <= N.Keys && d == set u | u in V :: |N[u]|
    requires exists k :: d == {k}
    ensures V != {}
    ensures forall x, y | x in V && y in V :: |N[x]| == |N[y]|
  {
    var k :| d == {k};
    assert k in d;
    forall x, y | x in V && y in V ensures |N[x]| == |N[y]| {
      assert |N[x]| in d && |N[y]| in d;
    }
  }

  lemma DegreeSetOfRegular<P>(V: set<P>, N: map<P, set<P>>, d: set<nat>, x: P)
    requires V <= N.Keys && d == set u | u in V :: |N[u]|
    requires x in V && forall u | u in V :: |N[u]| == |N[x]|
    ensures |d| == 1
  {
    assert d == {|N[x]|};
  }

  /**
   * `gamesOK` accepts exactly the game sets with at least one player in which
   * every player has the same number of opponents and any two players who
   * never meet share at least two opponents.
   */
  lemma GamesOKIff<P>(games: set<Game<P>>)
    ensures GamesOK(games) <==> Players(games) != {} && SameNumberOfGames(games) && TwoCommonOpponents(games)
  {
    DegreeSet(games);
    var V := Players(games);
    var N := NeighbourMap(games);
    forall x | x in V ensures N[x] == Opponents(games, x) {
      NeighboursAreOpponents(games, x);
    }
    var pairs := forall u, v | u in V && v in V && v != u && u !in N[v] :: |N[v] * N[u]| >= 2;
    assert pairs <==> TwoCommonOpponents(games) by {
      if pairs {
        forall x, y | x in V && y in V && x != y && y !in Opponents(games, x)
          ensures |Opponents(games, x) * Opponents(games, y)| >= 2
        {
          assert |N[x] * N[y]| >= 2;
        }
      }
      if TwoCommonOpponents(games) {
        forall u, v | u in V && v in V && v != u && u !in N[v] ensures |N[v] * N[u]| >= 2 {
          assert |Opponents(games, v) * Opponents(games, u)| >= 2;
        }
      }
    }
  }

  /** The rule is enough for acceptance. */
  lemma Accepted<P>(games: set<Game<P>>)
    requires Players(games) != {} && SameNumberOfGames(games) && TwoCommonOpponents(games)
    ensures GamesOK(games)
  {
    GamesOKIff(games);
  }

  /** Two players with different numbers of opponents make `gamesOK` return False. */
  lemma UnequalDegreesRejected<P>(games: set<Game<P>>, x: P, y: P)
    requires x in Players(games) && y in Players(games)
    requires |Opponents(games, x)| != |Opponents(games, y)|
    ensures !GamesOK(games)
  {
    GamesOKIff(games);
  }

  /** Two players who never meet and share fewer than two opponents make `gamesOK` return False. */
  lemma TooFewCommonOpponentsRejected<P>(games: set<Game<P>>, x: P, y: P)
    requires x in Players(games) && y in Players(games) && x != y
    requires (x, y) !in games && (y, x) !in games
    requires |Opponents(games, x) * Opponents(games, y)| < 2
    ensures !GamesOK(games)
  {
    NeighboursAreOpponents(games, x);
    GamesOKIff(games);
  }

  /** With no games the degree set is empty, so its size is not 1 and `gamesOK` returns False. */
  lemma EmptyRejected<P>()
    ensures !GamesOK<P>({})
  {
    var none: set<Game<P>> := {};
    assert Players(none) == {};
    GamesOKIff(none);
  }

  /** A single game between two different players passes: both have one opponent and no pair is non-adjacent. */
  lemma SingleGameAccepted<P>(a: P, b: P)
    requires a != b
    ensures GamesOK({(a, b)})
  {
    var games := {(a, b)};
    SingleGameShape(a, b);
    assert SameNumberOfGames(games) by {
      forall x, y | x in Players(games) && y in Players(games)
        ensures |Opponents(games, x)| == |Opponents(games, y)|
      {
        assert |Opponents(games, x)| == 1 by { assert x == a || x == b; }
        assert |Opponents(games, y)| == 1 by { assert y == a || y == b; }
      }
    }
    assert TwoCommonOpponents(games) by {
      forall x, y | x in Players(games) && y in Players(games) && x != y
        ensures y in Opponents(games, x)
      {
        assert x == a || x == b;
      }
    }
    Accepted(games);
  }

  lemma SingleGameShape<P>(a: P, b: P)
    requires a != b
    ensures Players({(a, b)}) == {a, b}
    ensures Opponents({(a, b)}, a) == {b} && Opponents({(a, b)}, b) == {a}
  {
    var games := {(a, b)};
    assert (set g | g in games :: g.0) == {a};
    assert (set g | g in games :: g.1) == {b};
    assert (set g | g in games && g.0 == a :: g.1) == {b};
    assert (set g | g in games && g.1 == a :: g.0) == {};
    assert (set g | g in games && g.0 == b :: g.1) == {};
    assert (set g | g in games && g.1 == b :: g.0) == {a};
  }

  /** Adding the reverse orientation of a game already present changes nothing: E is the symmetric closure. */
  lemma ReversedGameIrrelevant<P>(games: set<Game<P>>, a: P, b: P)
    requires (a, b) in games
    ensures GamesOK(games + {(b, a)}) == GamesOK(games)
  {
    var more := games + {(b, a)};
    assert Edges(more) == Edges(games) by {
      assert (b, a) in Edges(games);
      assert (a, b) in Edges(games);
      forall e | e in Edges(more) ensures e in Edges(games) {
        if e !in more {
          var g :| g in more && e == (g.1, g.0);
          if g != (b, a) { assert (g.1, g.0) in Edges(games); }
        }
      }
    }
    assert Players(more) == Players(games);
    forall x ensures Neighbours(more, x) == Neighbours(games, x) {
    }
    assert NeighbourMap(more) == NeighbourMap(games);
  }
}
