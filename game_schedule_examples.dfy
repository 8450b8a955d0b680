/**
 * The author's `gameSchedule` test (A2/cust_tests.py): Charlie referees
 * Alice v Bob and plays Charlie v Bob, and the two games are in different
 * groups. The test expects the group of Charlie v Bob first.
 */
module GameScheduleExamples {
  import opened Options
  import opened PyDicts
  import opened GraphSpecs
  import opened GameGroups
  import opened GameSchedule
  import opened Tournament

  function ScenarioAssignment(): Assignment {
    [(("Alice", "Bob"), "Charlie"), (("Charlie", "Bob"), "Rene")]
  }

  function ScenarioGroups(): seq<Group> {
    [{("Alice", "Bob")}, {("Charlie", "Bob")}]
  }

  lemma ScenarioColours()
    ensures ColourOf(ScenarioGroups(), ("Alice", "Bob")) == Some(0)
    ensures ColourOf(ScenarioGroups(), ("Charlie", "Bob")) == Some(1)
  {
    assert ("Alice", "Bob") != ("Charlie", "Bob");
    assert ScenarioGroups()[..1] == [{("Alice", "Bob")}];
  }

  function CharliePair(): Pairing {
    ("Charlie", (("Alice", "Bob"), ("Charlie", "Bob")))
  }

  lemma ScenarioPlayed()
    ensures PlayedGames(ScenarioAssignment(), 0, 2) == [CharliePair()]
    ensures PlayedGames(ScenarioAssignment(), 1, 2) == []
  {
    var a := ScenarioAssignment();
    assert !PlaysIn("Charlie", ("Alice", "Bob")) && PlaysIn("Charlie", ("Charlie", "Bob"));
    assert !PlaysIn("Rene", ("Alice", "Bob")) && !PlaysIn("Rene", ("Charlie", "Bob"));
    assert PlayedGames(a, 0, 1) == [];
    assert PlayedGames(a, 1, 1) == [];
  }

  lemma ScenarioRefereeGames()
    ensures RefereeGames(ScenarioAssignment()) == [CharliePair()]
  {
    var a := ScenarioAssignment();
    ScenarioPlayed();
    assert RefereeEntries(a, 1) == [CharliePair()];
    assert RefereeEntries(a, 2) == [CharliePair()];
    var none: seq<Pairing> := [];
    assert [CharliePair()][..0] == none;
  }

  /** As written, the test scenario is unschedulable: the result is None, not the expected order. */
  lemma ScenarioAsWritten(topOrdering: Orderer)
    requires TopOrderingContract(topOrdering)
    ensures Coloured(ScenarioGroups(), RefereeGames(ScenarioAssignment()))
    ensures Schedule(ScenarioAssignment(), ScenarioGroups(), topOrdering) == None
  {
    ScenarioColours();
    ScenarioRefereeGames();
    var rg := RefereeGames(ScenarioAssignment());
    assert rg[0].1.0 != rg[0].1.1;
    assert HasCrossDependency(ScenarioGroups(), rg);
    ScheduleAsWritten(ScenarioAssignment(), ScenarioGroups(), topOrdering);
  }

  lemma ScenarioEdges()
    ensures AllGrouped(ScenarioAssignment(), ScenarioGroups())
    ensures IntendedEdges(ScenarioAssignment(), ScenarioGroups()) == {(1, 0)}
  {
    ScenarioColours();
    var a := ScenarioAssignment();
    assert a[0].0 != a[1].0 && PlaysIn(a[0].1, a[1].0);
    assert !PlaysIn(a[1].1, a[0].0) && !PlaysIn(a[0].1, a[0].0) && !PlaysIn(a[1].1, a[1].0);
  }

  /** The only order of groups 0 and 1 with group 1 first. */
  lemma ScenarioOnlyOrder(order: seq<nat>)
    ensures IsTopOrdering(order, Indices(2), {(1, 0)}) <==> order == [1, 0]
  {
    var vs := Indices(2);
    if IsTopOrdering(order, vs, {(1, 0)}) {
      assert 0 in order && 1 in order;
      var p :| 0 <= p < |order| && order[p] == 1;
      var q :| 0 <= q < |order| && order[q] == 0;
      assert p < q;
      OrderingIsPermutation(order, ScenarioGroups(), {(1, 0)});
      assert p == 0 && q == 1;
    }
    if order == [1, 0] {
      assert forall v: nat | v in vs :: v in order by {
        forall v: nat | v in vs ensures v in order { assert v == 0 || v == 1; }
      }
    }
  }

  /** The corrected schedule puts the group where Charlie plays first, as the test expects. */
  lemma ScenarioIntended(topOrdering: Orderer)
    requires TopOrderingContract(topOrdering)
    ensures AllGrouped(ScenarioAssignment(), ScenarioGroups())
    ensures IntendedSchedule(ScenarioAssignment(), ScenarioGroups(), topOrdering) ==
      Some([{("Charlie", "Bob")}, {("Alice", "Bob")}])
  {
    ScenarioEdges();
    var groups := ScenarioGroups();
    var vs := Indices(|groups|);
    var edges := IntendedEdges(ScenarioAssignment(), groups);
    var order := topOrdering(vs, edges);
    assert TopOrderingResult(vs, edges, order);
    ScenarioOnlyOrder([1, 0]);
    if order.Some? {
      ScenarioOnlyOrder(order.value);
    }
    assert order == Some([1, 0]);
    assert Reorder(groups, [1, 0]) == [groups[1], groups[0]];
  }
}
