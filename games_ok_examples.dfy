/**
 * The game sets of the author's `gamesOK` tests (A2/cust_tests.py and
 * cust_tests.py), each with the answer the tests expect.
 */
module GamesOkExamples {
  import opened GamesOk
  import opened Tournament

  function FiveCycle(): set<Game<int>> {
    {(0, 1), (1, 2), (2, 3), (3, 4), (4, 0)}
  }

  lemma FiveCycleOpponents()
    ensures Opponents(FiveCycle(), 0) == {1, 4}
    ensures Opponents(FiveCycle(), 2) == {1, 3}
  {
    OpponentsMembership(FiveCycle(), 0);
    OpponentsMembership(FiveCycle(), 2);
  }

  /** The 5-cycle 0-1-2-3-4-0 is rejected: players 0 and 2 never meet and share only player 1. */
  lemma FiveCycleRejected()
    ensures !GamesOK(FiveCycle())
  {
    var games := FiveCycle();
    FiveCycleOpponents();
    assert Opponents(games, 0) * Opponents(games, 2) == {1};
    assert 0 in Players(games) && 2 in Players(games) by {
      assert (0, 1) in games && (2, 3) in games;
    }
    TooFewCommonOpponentsRejected(games, 0, 2);
  }

  /** Two disjoint triangles 0-2-4 and 1-3-5 joined by the matching 0-3, 1-4, 2-5: every player meets three others. */
  function Triangles(): set<Game<int>> {
    {(0, 2), (0, 3), (0, 4), (1, 3), (1, 4), (1, 5), (2, 4), (2, 5), (3, 5)}
  }

  lemma BadTrianglesOpponents()
    ensures Opponents(Triangles() + {(0, 5)}, 0) == {2, 3, 4, 5}
    ensures Opponents(Triangles() + {(0, 5)}, 1) == {3, 4, 5}
  {
    OpponentsMembership(Triangles() + {(0, 5)}, 0);
    OpponentsMembership(Triangles() + {(0, 5)}, 1);
  }

  /** Adding (0, 5) to the triangles set gives player 0 four opponents and player 1 three: rejected. */
  lemma BadTrianglesRejected()
    ensures !GamesOK(Triangles() + {(0, 5)})
  {
    var games := Triangles() + {(0, 5)};
    BadTrianglesOpponents();
    assert 0 in Players(games) && 1 in Players(games) by {
      assert (0, 2) in games && (1, 3) in games;
    }
    UnequalDegreesRejected(games, 0, 1);
  }

  function TrianglesOpponents(x: int): set<int>
    requires 0 <= x < 6
  {
    [{2, 3, 4}, {3, 4, 5}, {0, 4, 5}, {0, 1, 5}, {0, 1, 2}, {1, 2, 3}][x]
  }

  lemma TrianglesShape()
    ensures Players(Triangles()) == {0, 1, 2, 3, 4, 5}
    ensures forall x | 0 <= x < 6 :: Opponents(Triangles(), x) == TrianglesOpponents(x)
  {
    var games := Triangles();
    assert (0, 2) in games && (1, 3) in games && (2, 5) in games && (0, 4) in games;
    forall x | 0 <= x < 6 ensures Opponents(games, x) == TrianglesOpponents(x) {
      OpponentsMembership(games, x);
    }
  }

  /** The triangles set is accepted: three opponents each, and every non-adjacent pair shares two. */
  lemma TrianglesAccepted()
    ensures GamesOK(Triangles())
  {
    TrianglesRule();
    Accepted(Triangles());
  }

  lemma TrianglesRule()
    ensures Players(Triangles()) != {} && SameNumberOfGames(Triangles()) && TwoCommonOpponents(Triangles())
  {
    var games := Triangles();
    TrianglesShape();
    assert SameNumberOfGames(games) by {
      forall x, y | x in Players(games) && y in Players(games)
        ensures |Opponents(games, x)| == |Opponents(games, y)|
      {
        TrianglesDegree(x);
        TrianglesDegree(y);
      }
    }
    assert TwoCommonOpponents(games) by {
      forall x, y | x in Players(games) && y in Players(games) && x != y && y !in Opponents(games, x)
        ensures |Opponents(games, x) * Opponents(games, y)| >= 2
      {
        TrianglesCommon(x, y);
      }
    }
  }

  lemma TrianglesDegree(x: int)
    requires 0 <= x < 6
    ensures |TrianglesOpponents(x)| == 3
  {
  }

  lemma TrianglesCommon(x: int, y: int)
    requires 0 <= x < 6 && 0 <= y < 6 && x != y && y !in TrianglesOpponents(x)
    ensures |TrianglesOpponents(x) * TrianglesOpponents(y)| >= 2
  {
    var lo, hi := if x < y then x else y, if x < y then y else x;
    var common := TrianglesOpponents(x) * TrianglesOpponents(y);
    if lo == 0 && hi == 1 { TwoElements(common, 3, 4); }
    else if lo == 0 && hi == 5 { TwoElements(common, 2, 3); }
    else if lo == 1 && hi == 2 { TwoElements(common, 4, 5); }
    else if lo == 2 && hi == 3 { TwoElements(common, 0, 5); }
    else if lo == 3 && hi == 4 { TwoElements(common, 0, 1); }
    else if lo == 4 && hi == 5 { TwoElements(common, 1, 2); }
    else { assert false; }
  }

  lemma TwoElements<T>(s: set<T>, a: T, b: T)
    requires a in s && b in s && a != b
    ensures |s| >= 2
  {
    assert s == {a, b} + (s - {a, b});
  }

  function K33(): set<Game<int>> {
    set u, v | 0 <= u < 3 && 3 <= v < 6 :: (u, v)
  }

  lemma K33Shape()
    ensures Players(K33()) == {0, 1, 2, 3, 4, 5}
    ensures forall x | 0 <= x < 6 :: Opponents(K33(), x) == if x < 3 then {3, 4, 5} else {0, 1, 2}
  {
    var games := K33();
    assert (0, 3) in games && (1, 4) in games && (2, 5) in games;
    forall x | 0 <= x < 6
      ensures Opponents(games, x) == if x < 3 then {3, 4, 5} else {0, 1, 2}
    {
      OpponentsMembership(games, x);
      if x < 3 {
        assert (x, 3) in games && (x, 4) in games && (x, 5) in games;
      } else {
        assert (0, x) in games && (1, x) in games && (2, x) in games;
      }
    }
  }

  /** K(3,3) is accepted: everyone has three opponents, and two players on one side share all three. */
  lemma K33Accepted()
    ensures GamesOK(K33())
  {
    K33Rule();
    Accepted(K33());
  }

  lemma K33Rule()
    ensures Players(K33()) != {} && SameNumberOfGames(K33()) && TwoCommonOpponents(K33())
  {
    var games := K33();
    K33Shape();
    assert SameNumberOfGames(games) by {
      forall x, y | x in Players(games) && y in Players(games)
        ensures |Opponents(games, x)| == |Opponents(games, y)|
      {
        K33Degree(x);
        K33Degree(y);
      }
    }
    assert TwoCommonOpponents(games) by {
      forall x, y | x in Players(games) && y in Players(games) && x != y && y !in Opponents(games, x)
        ensures |Opponents(games, x) * Opponents(games, y)| >= 2
      {
        assert Opponents(games, x) == Opponents(games, y) by { assert (x < 3) == (y < 3); }
        K33Degree(x);
      }
    }
  }

  lemma K33Degree(x: int)
    requires 0 <= x < 6
    ensures |Opponents(K33(), x)| == 3
  {
    K33Shape();
    assert |{3, 4, 5}| == 3 && |{0, 1, 2}| == 3;
  }

  function K5(): set<Game<int>> {
    {(0, 1), (0, 2), (0, 3), (0, 4), (1, 2), (1, 3), (1, 4), (2, 3), (2, 4), (3, 4)}
  }

  function K5Opponents(x: int): set<int>
    requires 0 <= x < 5
  {
    [{1, 2, 3, 4}, {0, 2, 3, 4}, {0, 1, 3, 4}, {0, 1, 2, 4}, {0, 1, 2, 3}][x]
  }

  lemma K5Shape()
    ensures Players(K5()) == {0, 1, 2, 3, 4}
    ensures forall x | 0 <= x < 5 :: Opponents(K5(), x) == K5Opponents(x)
  {
    var games := K5();
    assert (0, 1) in games && (2, 3) in games && (3, 4) in games;
    forall x | 0 <= x < 5 ensures Opponents(games, x) == K5Opponents(x) {
      OpponentsMembership(games, x);
    }
  }

  lemma K5Degree(x: int)
    requires 0 <= x < 5
    ensures |K5Opponents(x)| == 4
  {
  }

  /** K5 is accepted: everyone has four opponents and every pair meets. */
  lemma K5Accepted()
    ensures GamesOK(K5())
  {
    K5Rule();
    Accepted(K5());
  }

  lemma K5Rule()
    ensures Players(K5()) != {} && SameNumberOfGames(K5()) && TwoCommonOpponents(K5())
  {
    var games := K5();
    K5Shape();
    assert SameNumberOfGames(games) by {
      forall x, y | x in Players(games) && y in Players(games)
        ensures |Opponents(games, x)| == |Opponents(games, y)|
      {
        K5Degree(x);
        K5Degree(y);
      }
    }
    assert TwoCommonOpponents(games) by {
      forall x, y | x in Players(games) && y in Players(games) && x != y
        ensures y in Opponents(games, x)
      {
      }
    }
  }
}
