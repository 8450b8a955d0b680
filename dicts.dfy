/**
 * Python's `dict`, where iteration order matters: entries are kept in
 * insertion order, assigning to a present key replaces its value in place,
 * and a dict comprehension assigns its entries one after another, so the
 * last entry produced for a key is the one that survives.
 */
module PyDicts {
  import opened Options

  type Dict<K, V> = seq<(K, V)>

  function Keys<K(==), V>(d: Dict<K, V>): set<K> {
    set i | 0 <= i < |d| :: d[i].0
  }

  lemma KeysCons<K, V>(d: Dict<K, V>)
    requires d != []
    ensures Keys(d) == {d[0].0} + Keys(d[1..])
  {
    forall x | x in Keys(d) ensures x in {d[0].0} + Keys(d[1..]) {
      var i :| 0 <= i < |d| && d[i].0 == x;
      if i > 0 { assert d[1..][i - 1] == d[i]; }
    }
    forall x | x in Keys(d[1..]) ensures x in Keys(d) {
      var i :| 0 <= i < |d| - 1 && d[1..][i].0 == x;
      assert d[i + 1] == d[1..][i];
    }
  }

  predicate DistinctKeys<K(==), V>(d: Dict<K, V>) {
    forall i, j :: 0 <= i < j < |d| ==> d[i].0 != d[j].0
  }

  /** `d.get(k)`. */
  function Get<K(==), V>(d: Dict<K, V>, k: K): (r: Option<V>)
    ensures r.Some? <==> k in Keys(d)
    ensures r.Some? ==> exists i :: 0 <= i < |d| && d[i] == (k, r.value)
  {
    if d == [] then None
    else if d[0].0 == k then Some(d[0].1)
    else
      var r := Get(d[1..], k);
      assert Keys(d) == {d[0].0} + Keys(d[1..]);
      r
  }

  /** In a dict every stored entry is what a lookup of its key gives. */
  lemma {:induction false} GetEntry<K, V>(d: Dict<K, V>, i: nat)
    requires DistinctKeys(d) && i < |d|
    ensures Get(d, d[i].0) == Some(d[i].1)
  {
    if i > 0 {
      assert DistinctKeys(d[1..]) by {
        forall a, b | 0 <= a < b < |d| - 1 ensures d[1..][a].0 != d[1..][b].0 {
          assert d[1..][a] == d[a + 1] && d[1..][b] == d[b + 1];
        }
      }
      GetEntry(d[1..], i - 1);
    }
  }

  /** `d[k] = v`: replaces the value of a present key where it stands, appends a new key. */
  function Put<K(==,!new), V>(d: Dict<K, V>, k: K, v: V): (r: Dict<K, V>)
    requires DistinctKeys(d)
    ensures DistinctKeys(r)
    ensures Keys(r) == Keys(d) + {k}
    ensures Get(r, k) == Some(v)
    ensures forall k' :: k' != k ==> Get(r, k') == Get(d, k')
    ensures forall e | e in r :: e in d || e == (k, v)
  {
    if d == [] then
      assert Keys([(k, v)]) == {k} by { KeysCons([(k, v)]); }
      [(k, v)]
    else if d[0].0 == k then
      var r := [(k, v)] + d[1..];
      assert r[1..] == d[1..];
      assert forall e | e in r :: e in d || e == (k, v);
      KeysCons(r);
      KeysCons(d);
      assert forall k' :: k' != k ==> Get(r, k') == Get(d[1..], k');
      r
    else
      assert DistinctKeys(d[1..]) by {
        forall a, b | 0 <= a < b < |d| - 1 ensures d[1..][a].0 != d[1..][b].0 {
          assert d[1..][a] == d[a + 1] && d[1..][b] == d[b + 1];
        }
      }
      var rest := Put(d[1..], k, v);
      PutCons(d, k, rest);
      [d[0]] + rest
  }

  /** Putting an absent key behind the first entry keeps the first key unique. */
  lemma PutCons<K, V>(d: Dict<K, V>, k: K, rest: Dict<K, V>)
    requires d != [] && DistinctKeys(d) && d[0].0 != k
    requires DistinctKeys(rest) && Keys(rest) == Keys(d[1..]) + {k}
    ensures DistinctKeys([d[0]] + rest)
    ensures Keys([d[0]] + rest) == Keys(d) + {k}
  {
    var r := [d[0]] + rest;
    assert d[0].0 !in Keys(d[1..]) by {
      forall j | 0 <= j < |d| - 1 ensures d[1..][j].0 != d[0].0 {
        assert d[1..][j] == d[j + 1];
      }
    }
    assert DistinctKeys(r) by {
      forall a, b | 0 <= a < b < |r| ensures r[a].0 != r[b].0 {
        if a == 0 {
          assert r[b] in rest;
          assert r[b].0 in Keys(rest);
        } else {
          assert r[a] == rest[a - 1] && r[b] == rest[b - 1];
        }
      }
    }
    assert r[1..] == rest;
    KeysCons(r);
    KeysCons(d);
  }

  /** `{k: v for (k, v) in entries}`: assign the entries in order. */
  function FromEntries<K(==,!new), V>(entries: seq<(K, V)>): (d: Dict<K, V>)
    ensures DistinctKeys(d)
    ensures Keys(d) == set e | e in entries :: e.0
    ensures forall e | e in d :: e in entries
  {
    if entries == [] then []
    else
      var last := entries[|entries| - 1];
      var init := entries[..|entries| - 1];
      assert entries == init + [last];
      Put(FromEntries(init), last.0, last.1)
  }

  /** The value a comprehension leaves under a key is the one from the last entry for that key. */
  lemma {:induction false} FromEntriesLast<K(!new), V>(entries: seq<(K, V)>, i: nat)
    requires i < |entries|
    requires forall j :: i < j < |entries| ==> entries[j].0 != entries[i].0
    ensures Get(FromEntries(entries), entries[i].0) == Some(entries[i].1)
  {
    var init := entries[..|entries| - 1];
    var last := entries[|entries| - 1];
    FromEntriesSnoc(entries);
    if i < |entries| - 1 {
      InitPrefix(entries, i);
      FromEntriesLast(init, i);
      assert last.0 != entries[i].0;
    }
  }

  lemma FromEntriesSnoc<K(!new), V>(entries: seq<(K, V)>)
    requires entries != []
    ensures var last := entries[|entries| - 1];
            FromEntries(entries) == Put(FromEntries(entries[..|entries| - 1]), last.0, last.1)
  {
  }

  lemma InitPrefix<K, V>(entries: seq<(K, V)>, i: nat)
    requires i < |entries| - 1
    requires forall j :: i < j < |entries| ==> entries[j].0 != entries[i].0
    ensures var init := entries[..|entries| - 1];
            init[i] == entries[i] && forall j :: i < j < |init| ==> init[j].0 != init[i].0
  {
    var init := entries[..|entries| - 1];
    assert forall j :: i < j < |init| ==> init[j] == entries[j];
  }
}
