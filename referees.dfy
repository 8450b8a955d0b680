/**
 * `referees` (A2/project.py): read a conflict-of-interest table, list the
 * (game, referee) pairs the table allows, and let a maximum bipartite
 * matching choose one referee per game.
 *
 * The CSV file arrives as its rows, each already split into cells.
 */
module Referees {
  import opened Options
  import opened PyStrings
  import opened GraphSpecs
  import opened Tournament

  type Row = seq<string>
  type Table = map<string, set<string>>

  /**
   * The conflicts a row lists: every later cell that is not literally empty,
   * stripped. No conflict starts or ends with whitespace, and a cell of
   * whitespace alone becomes the empty conflict.
   */
  function RowConflicts(row: Row): (c: set<string>)
    ensures forall u | u in c :: u == "" || (!IsSpace(u[0]) && !IsSpace(u[|u| - 1]))
    ensures "" in c <==> exists n :: 1 <= n < |row| && row[n] != "" && AllSpace(row[n])
    ensures |row| <= 1 ==> c == {}
    ensures forall n | 1 <= n < |row| && row[n] != "" :: Strip(row[n]) in c
    ensures forall u | u in c :: exists n :: 1 <= n < |row| && row[n] != "" && u == Strip(row[n])
  {
    var c := set n | 1 <= n < |row| && row[n] != "" :: Strip(row[n]);
    ConflictsTrimmed(row, c);
    BlankConflictIff(row, c);
    c
  }

  lemma ConflictsTrimmed(row: Row, c: set<string>)
    requires forall u | u in c :: exists n :: 1 <= n < |row| && row[n] != "" && u == Strip(row[n])
    ensures forall u | u in c :: u == "" || (!IsSpace(u[0]) && !IsSpace(u[|u| - 1]))
  {
    forall u | u in c ensures u == "" || (!IsSpace(u[0]) && !IsSpace(u[|u| - 1])) {
      var n :| 1 <= n < |row| && row[n] != "" && u == Strip(row[n]);
      var i, j := StripSpec(row[n]);
    }
  }

  lemma BlankConflictIff(row: Row, c: set<string>)
    requires forall n | 1 <= n < |row| && row[n] != "" :: Strip(row[n]) in c
    requires forall u | u in c :: exists n :: 1 <= n < |row| && row[n] != "" && u == Strip(row[n])
    ensures "" in c <==> exists n :: 1 <= n < |row| && row[n] != "" && AllSpace(row[n])
  {
    if "" in c {
      var n :| 1 <= n < |row| && row[n] != "" && "" == Strip(row[n]);
      StripEmptyIff(row[n]);
    }
    if n :| 1 <= n < |row| && row[n] != "" && AllSpace(row[n]) {
      StripEmptyIff(row[n]);
    }
  }

  predicate IsHeader(row: Row)
    requires row != []
  {
    Strip(row[0]) == "Referee"
  }

  /** The referees a list of rows names: the stripped first cell of every row that is not a header. */
  ghost function NamedReferees(rows: seq<Row>): set<string>
    requires forall i | 0 <= i < |rows| :: rows[i] != []
  {
    set i | 0 <= i < |rows| && !IsHeader(rows[i]) :: Strip(rows[i][0])
  }

  /**
   * `C`: the dict comprehension over the rows. A later row for the same
   * referee replaces an earlier one, as assigning to a present key does.
   */
  function ConflictTable(rows: seq<Row>): (c: Table)
    requires forall i | 0 <= i < |rows| :: rows[i] != []
    ensures c.Keys == NamedReferees(rows)
    ensures "Referee" !in c
  {
    if rows == [] then map[]
    else
      var init := rows[..|rows| - 1];
      var last := rows[|rows| - 1];
      var c := ConflictTable(init);
      NamedRefereesSnoc(rows);
      if IsHeader(last) then c else c[Strip(last[0]) := RowConflicts(last)]
  }

  lemma NamedRefereesSnoc(rows: seq<Row>)
    requires rows != [] && forall i | 0 <= i < |rows| :: rows[i] != []
    ensures var last := rows[|rows| - 1];
            NamedReferees(rows) == NamedReferees(rows[..|rows| - 1]) + (if IsHeader(last) then {} else {Strip(last[0])})
  {
    var init := rows[..|rows| - 1];
    var last := rows[|rows| - 1];
    forall x | x in NamedReferees(rows) ensures x in NamedReferees(init) || (!IsHeader(last) && x == Strip(last[0])) {
      var i :| 0 <= i < |rows| && !IsHeader(rows[i]) && x == Strip(rows[i][0]);
      if i < |rows| - 1 { assert rows[i] == init[i]; }
    }
    forall x | x in NamedReferees(init) ensures x in NamedReferees(rows) {
      var i :| 0 <= i < |init| && !IsHeader(init[i]) && x == Strip(init[i][0]);
      assert rows[i] == init[i];
    }
    if !IsHeader(last) {
      assert Strip(rows[|rows| - 1][0]) in NamedReferees(rows);
    }
  }

  /** A referee's entry comes from the last row that names them. */
  lemma {:induction false} ConflictTableLastRow(rows: seq<Row>, i: nat)
    requires forall k | 0 <= k < |rows| :: rows[k] != []
    requires i < |rows| && !IsHeader(rows[i])
    requires forall j | i < j < |rows| :: IsHeader(rows[j]) || Strip(rows[j][0]) != Strip(rows[i][0])
    ensures ConflictTable(rows)[Strip(rows[i][0])] == RowConflicts(rows[i])
  {
    var init := rows[..|rows| - 1];
    if i < |rows| - 1 {
      assert init[i] == rows[i];
      assert forall j | i < j < |init| :: init[j] == rows[j];
      ConflictTableLastRow(init, i);
    }
  }

  // ---------------------------------------------------------------------
  // Candidate edges.

  /**
   * `all(r not in p and u not in p for u in c for p in g)`: neither the
   * referee's name nor any of their conflicts occurs inside either player's
   * name. The test ranges over the conflicts, so it holds trivially when
   * the referee has none.
   */
  predicate IsCandidate(g: Game<string>, r: string, c: set<string>) {
    forall u | u in c ::
      !Contains(g.0, r) && !Contains(g.0, u) && !Contains(g.1, r) && !Contains(g.1, u)
  }

  /**
   * `E`: every allowed (game, referee) pair. A referee with conflicts is
   * allowed for a game when neither their name nor any conflict occurs in
   * either player's name; a referee without conflicts is allowed for every game.
   */
  function CandidateEdges(games: set<Game<string>>, c: Table): (e: set<(Game<string>, string)>)
    ensures forall p | p in e :: p.0 in games && p.1 in c
    ensures forall g, r | g in games && r in c && c[r] != {} ::
      (g, r) in e <==>
        && !OccursIn(r, g.0) && !OccursIn(r, g.1)
        && forall u | u in c[r] :: !OccursIn(u, g.0) && !OccursIn(u, g.1)
    ensures forall g, r | g in games && r in c && c[r] == {} :: (g, r) in e
  {
    var e := set g, r | g in games && r in c && IsCandidate(g, r, c[r]) :: (g, r);
    forall g, r | g in games && r in c && c[r] != {}
      ensures (g, r) in e <==>
        && !OccursIn(r, g.0) && !OccursIn(r, g.1)
        && forall u | u in c[r] :: !OccursIn(u, g.0) && !OccursIn(u, g.1)
    {
      CandidateIff(g, r, c[r]);
    }
    e
  }

  /** A referee with conflicts is never a candidate for a game they play in. */
  lemma PlayerIsNoCandidate(g: Game<string>, c: set<string>)
    requires c != {}
    ensures !IsCandidate(g, g.0, c) && !IsCandidate(g, g.1, c)
  {
    ContainsSelf(g.0);
    ContainsSelf(g.1);
  }

  /** A referee without conflicts is a candidate for every game, even one they play in. */
  lemma NoConflictsAlwaysCandidate(g: Game<string>, r: string)
    ensures IsCandidate(g, r, {})
  {
  }

  /**
   * A conflict cell holding only whitespace strips to "", and "" occurs in
   * every name: such a referee is a candidate for no game at all.
   */
  lemma BlankCellBarsReferee(rows: seq<Row>, i: nat, n: nat, g: Game<string>)
    requires forall k | 0 <= k < |rows| :: rows[k] != []
    requires i < |rows| && !IsHeader(rows[i])
    requires forall j | i < j < |rows| :: IsHeader(rows[j]) || Strip(rows[j][0]) != Strip(rows[i][0])
    requires 1 <= n < |rows[i]| && rows[i][n] != "" && AllSpace(rows[i][n])
    ensures !IsCandidate(g, Strip(rows[i][0]), ConflictTable(rows)[Strip(rows[i][0])])
  {
    ConflictTableLastRow(rows, i);
    StripEmptyIff(rows[i][n]);
    assert "" in RowConflicts(rows[i]);
    EmptyIsContained(g.0);
  }

  /**
   * A named conflict bars its referee: when the stripped text of a non-empty
   * cell in the last row naming the referee occurs in a player's name, the
   * referee is not allowed for that game.
   */
  lemma ListedConflictBarsReferee(rows: seq<Row>, i: nat, n: nat, games: set<Game<string>>, g: Game<string>)
    requires forall k | 0 <= k < |rows| :: rows[k] != []
    requires i < |rows| && !IsHeader(rows[i])
    requires forall j | i < j < |rows| :: IsHeader(rows[j]) || Strip(rows[j][0]) != Strip(rows[i][0])
    requires 1 <= n < |rows[i]| && rows[i][n] != ""
    requires OccursIn(Strip(rows[i][n]), g.0) || OccursIn(Strip(rows[i][n]), g.1)
    ensures (g, Strip(rows[i][0])) !in CandidateEdges(games, ConflictTable(rows))
  {
    var r, c := Strip(rows[i][0]), ConflictTable(rows);
    ConflictTableLastRow(rows, i);
    assert Strip(rows[i][n]) in c[r];
    assert r in c by {
      assert r in NamedReferees(rows);
    }
  }

  /** `u` occurs in `p` at some offset. */
  ghost predicate OccursIn(u: string, p: string) {
    exists i :: 0 <= i <= |p| && u <= p[i..]
  }

  /**
   * For a referee with conflicts the filter is a plain substring test: neither
   * the referee's name nor any conflict occurs anywhere in either player's name.
   */
  lemma CandidateIff(g: Game<string>, r: string, c: set<string>)
    requires c != {}
    ensures IsCandidate(g, r, c) <==>
      && !OccursIn(r, g.0) && !OccursIn(r, g.1)
      && forall u | u in c :: !OccursIn(u, g.0) && !OccursIn(u, g.1)
  {
    ContainsIff(g.0, r);
    ContainsIff(g.1, r);
    forall u | u in c
      ensures (Contains(g.0, u) <==> OccursIn(u, g.0)) && (Contains(g.1, u) <==> OccursIn(u, g.1))
    {
      ContainsIff(g.0, u);
      ContainsIff(g.1, u);
    }
    var u0 :| u0 in c;
  }

  // ---------------------------------------------------------------------
  // The matching and the acceptance test.

  type Matcher = (set<Game<string>>, set<string>, set<(Game<string>, string)>) -> set<(Game<string>, string)>

  /** The referee a matching gives a matched game: unique, since no game is matched twice. */
  function MatchedReferee(m: set<(Game<string>, string)>, g: Game<string>): (r: string)
    requires forall p, q | p in m && q in m && p.0 == q.0 :: p == q
    requires exists p | p in m :: p.0 == g
    ensures (g, r) in m
  {
    var p :| p in m && p.0 == g; p.1
  }

  /** `M`: the matching read as a game -> referee dict. */
  function MatchingMap(m: set<(Game<string>, string)>): (chosen: map<Game<string>, string>)
    requires forall p, q | p in m && q in m && p.0 == q.0 :: p == q
    ensures chosen.Keys == set p | p in m :: p.0
    ensures forall g | g in chosen :: (g, chosen[g]) in m
  {
    map g | g in (set p | p in m :: p.0) :: MatchedReferee(m, g)
  }

  /** Every game is given a candidate referee, and no referee is given two games. */
  ghost predicate IsAssignment(games: set<Game<string>>, c: Table, chosen: map<Game<string>, string>) {
    && chosen.Keys == games
    && (forall g | g in games :: chosen[g] in c && IsCandidate(g, chosen[g], c[chosen[g]]))
    && (forall g1, g2 | g1 in games && g2 in games && g1 != g2 :: chosen[g1] != chosen[g2])
  }

  /** `not all(r in g for g in A for r in B)`: some referee is not a player of some game. */
  predicate SomeRefereeOutside(games: set<Game<string>>, c: Table) {
    !(forall g, r | g in games && r in c :: r == g.0 || r == g.1)
  }

  /**
   * `referees(games, file)`: the referee table's assignment when the maximum
   * matching covers every game and the second test passes, otherwise None.
   */
  function AssignReferees(games: set<Game<string>>, rows: seq<Row>, maxMatching: Matcher): (r: Option<map<Game<string>, string>>)
    requires forall i | 0 <= i < |rows| :: rows[i] != []
    requires MaxMatchingContract(maxMatching)
    ensures r.Some? ==> IsAssignment(games, ConflictTable(rows), r.value)
    ensures r.Some? ==> SomeRefereeOutside(games, ConflictTable(rows))
  {
    var c := ConflictTable(rows);
    var e := CandidateEdges(games, c);
    var m := maxMatching(games, c.Keys, e);
    assert IsMaximumMatching(m, e);
    var chosen := MatchingMap(m);
    if |chosen| == |games| && SomeRefereeOutside(games, c) then
      AssignmentFromMatching(games, c, m, chosen);
      Some(chosen)
    else None
  }

  lemma AssignmentFromMatching(games: set<Game<string>>, c: Table, m: set<(Game<string>, string)>, chosen: map<Game<string>, string>)
    requires IsMatching(m, CandidateEdges(games, c))
    requires chosen.Keys == (set p | p in m :: p.0) && forall g | g in chosen :: (g, chosen[g]) in m
    requires |chosen| == |games|
    ensures IsAssignment(games, c, chosen)
  {
    assert chosen.Keys <= games;
    SubsetSameSize(chosen.Keys, games);
  }

  /** A subset as large as its superset is the whole set. */
  lemma SubsetSameSize<T>(a: set<T>, b: set<T>)
    requires a <= b && |a| == |b|
    ensures a == b
  {
    assert |b - a| == |b| - |a|;
  }

  /** A relation that relates no first component twice has as many pairs as first components. */
  lemma {:induction false} FirstsSize<X, Y>(m: set<(X, Y)>)
    requires forall p, q | p in m && q in m && p.0 == q.0 :: p == q
    ensures |set p | p in m :: p.0| == |m|
    decreases |m|
  {
    if m != {} {
      var p :| p in m;
      var rest := m - {p};
      FirstsSize(rest);
      assert (set q | q in m :: q.0) == (set q | q in rest :: q.0) + {p.0};
    }
  }

  /** A maximum matching covers every game exactly when some complete assignment exists. */
  lemma MaximumMatchingCovers(games: set<Game<string>>, c: Table, m: set<(Game<string>, string)>)
    requires IsMaximumMatching(m, CandidateEdges(games, c))
    ensures |MatchingMap(m)| == |games| <==> exists f :: IsAssignment(games, c, f)
  {
    if |MatchingMap(m)| == |games| {
      AssignmentFromMatching(games, c, m, MatchingMap(m));
    }
    if f :| IsAssignment(games, c, f) {
      AssignmentCovers(games, c, m, f);
    }
  }

  lemma AssignmentCovers(games: set<Game<string>>, c: Table, m: set<(Game<string>, string)>, f: map<Game<string>, string>)
    requires IsMaximumMatching(m, CandidateEdges(games, c))
    requires IsAssignment(games, c, f)
    ensures |MatchingMap(m)| == |games|
  {
    var full := AssignmentIsMatching(games, c, f);
    CoverByMaximum(games, m, CandidateEdges(games, c), full);
  }

  /** A maximum matching is at least as large as a matching that covers every game, so it covers them all too. */
  lemma CoverByMaximum(games: set<Game<string>>, m: set<(Game<string>, string)>, e: set<(Game<string>, string)>, full: set<(Game<string>, string)>)
    requires IsMaximumMatching(m, e) && IsMatching(full, e) && |full| == |games|
    requires forall p | p in e :: p.0 in games
    ensures |MatchingMap(m)| == |games|
  {
    MaximumAtLeast(m, e, full);
    MatchingMapSize(m);
    MatchedGamesAreGames(games, m, e);
    var keys := MatchingMap(m).Keys;
    assert |games| == |keys| + |games - keys|;
  }

  lemma MaximumAtLeast(m: set<(Game<string>, string)>, e: set<(Game<string>, string)>, other: set<(Game<string>, string)>)
    requires IsMaximumMatching(m, e) && IsMatching(other, e)
    ensures |other| <= |m|
  {
  }

  lemma MatchedGamesAreGames(games: set<Game<string>>, m: set<(Game<string>, string)>, e: set<(Game<string>, string)>)
    requires IsMatching(m, e) && forall p | p in e :: p.0 in games
    ensures MatchingMap(m).Keys <= games
  {
  }

  lemma MatchingMapSize(m: set<(Game<string>, string)>)
    requires forall p, q | p in m && q in m && p.0 == q.0 :: p == q
    ensures |MatchingMap(m).Keys| == |MatchingMap(m)| == |m|
  {
    FirstsSize(m);
  }

  /** A complete assignment is a matching with one edge per game. */
  lemma AssignmentIsMatching(games: set<Game<string>>, c: Table, f: map<Game<string>, string>) returns (full: set<(Game<string>, string)>)
    requires IsAssignment(games, c, f)
    ensures IsMatching(full, CandidateEdges(games, c)) && |full| == |games|
  {
    full := set g | g in games :: (g, f[g]);
    assert (set p | p in full :: p.0) == games by {
      forall g | g in games ensures g in (set p | p in full :: p.0) {
        assert (g, f[g]) in full;
      }
    }
    FirstsSize(full);
  }

  /**
   * `referees` succeeds exactly when every game can be given its own
   * candidate referee and not every referee plays in every game; which
   * complete assignment it returns is the matching's choice.
   */
  lemma AssignRefereesIff(games: set<Game<string>>, rows: seq<Row>, maxMatching: Matcher)
    requires forall i | 0 <= i < |rows| :: rows[i] != []
    requires MaxMatchingContract(maxMatching)
    ensures AssignReferees(games, rows, maxMatching).Some? <==>
      (exists f :: IsAssignment(games, ConflictTable(rows), f))
      && SomeRefereeOutside(games, ConflictTable(rows))
  {
    var c := ConflictTable(rows);
    var e := CandidateEdges(games, c);
    var m := maxMatching(games, c.Keys, e);
    assert IsMaximumMatching(m, e);
    MaximumMatchingCovers(games, c, m);
  }

  /** With no games the second test is vacuous, so `referees` returns None. */
  lemma NoGamesNoAssignment(rows: seq<Row>, maxMatching: Matcher)
    requires forall i | 0 <= i < |rows| :: rows[i] != []
    requires MaxMatchingContract(maxMatching)
    ensures AssignReferees({}, rows, maxMatching) == None
  {
  }

  /** With no referees in the table there is nothing to match, so `referees` returns None. */
  lemma NoRefereesNoAssignment(games: set<Game<string>>, rows: seq<Row>, maxMatching: Matcher)
    requires forall i | 0 <= i < |rows| :: rows[i] != [] && IsHeader(rows[i])
    requires MaxMatchingContract(maxMatching)
    ensures AssignReferees(games, rows, maxMatching) == None
  {
    assert ConflictTable(rows).Keys == {};
  }
}
