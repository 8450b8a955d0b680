/**
 * What the course's `graphs` and `digraphs` modules promise. Their code is
 * not part of this model: each primitive is passed to the functions that
 * call it as a function value, and these predicates state the contract
 * that value must meet.
 */
module GraphSpecs {
  import opened Options

  /** Every edge joins two members of the vertex set. */
  ghost predicate EdgesWithin<V>(vs: set<V>, edges: set<(V, V)>) {
    forall e | e in edges :: e.0 in vs && e.1 in vs
  }

  ghost predicate Irreflexive<V>(edges: set<(V, V)>) {
    forall e | e in edges :: e.0 != e.1
  }

  // ---- digraphs.maxMatching ----

  /** A set of edges of a bipartite graph in which no endpoint is used twice. */
  ghost predicate IsMatching<X, Y>(m: set<(X, Y)>, edges: set<(X, Y)>) {
    && m <= edges
    && (forall p, q | p in m && q in m && p.0 == q.0 :: p == q)
    && (forall p, q | p in m && q in m && p.1 == q.1 :: p == q)
  }

  ghost predicate IsMaximumMatching<X(!new), Y(!new)>(m: set<(X, Y)>, edges: set<(X, Y)>) {
    IsMatching(m, edges) && forall m' | IsMatching(m', edges) :: |m'| <= |m|
  }

  /** `digraphs.maxMatching(A, B, E)` returns a maximum matching of the bipartite graph (A | B, E). */
  ghost predicate MaxMatchingContract<X(!new), Y(!new)>(maxMatching: (set<X>, set<Y>, set<(X, Y)>) -> set<(X, Y)>) {
    forall a: set<X>, b: set<Y>, edges: set<(X, Y)> | (forall e | e in edges :: e.0 in a && e.1 in b) ::
      IsMaximumMatching(maxMatching(a, b, edges), edges)
  }

  // ---- graphs.minColouring and graphs.colourClassesFromColouring ----

  /** `colour` gives every vertex one of `k` colours, and no edge joins two vertices of one colour. */
  ghost predicate IsColouring<V>(vs: set<V>, edges: set<(V, V)>, colour: map<V, nat>, k: nat) {
    && colour.Keys == vs
    && (forall v | v in vs :: colour[v] < k)
    && (forall e | e in edges && e.0 in vs && e.1 in vs :: colour[e.0] != colour[e.1])
  }

  /** A colouring with `k` colours, and no colouring of the same graph uses fewer. */
  ghost predicate IsMinColouring<V(!new)>(vs: set<V>, edges: set<(V, V)>, colour: map<V, nat>, k: nat) {
    IsColouring(vs, edges, colour, k) && forall k', colour' | IsColouring(vs, edges, colour', k') :: k <= k'
  }

  /** `graphs.minColouring(V, E)` returns `(k, C)`, a minimum colouring of the graph on the listed vertices. */
  ghost predicate MinColouringContract<V(!new)>(minColouring: (seq<V>, set<(V, V)>) -> (nat, map<V, nat>)) {
    forall vs: seq<V>, edges: set<(V, V)> | EdgesWithin((set v | v in vs), edges) && Irreflexive(edges) ::
      IsMinColouring((set v | v in vs), edges, minColouring(vs, edges).1, minColouring(vs, edges).0)
  }

  /**
   * `classes` groups the coloured vertices by colour: the classes hold exactly
   * the coloured vertices, the vertices of one class share a colour, and two
   * classes never share one. Nothing here rules out an empty class.
   */
  ghost predicate IsColourClasses<V>(colour: map<V, nat>, classes: seq<set<V>>) {
    && (forall i | 0 <= i < |classes| :: classes[i] <= colour.Keys)
    && (forall v | v in colour :: exists i :: 0 <= i < |classes| && v in classes[i])
    && (forall i, u, v | 0 <= i < |classes| && u in classes[i] && v in classes[i] :: colour[u] == colour[v])
    && (forall i, j, u, v | 0 <= i < |classes| && 0 <= j < |classes| && i != j && u in classes[i] && v in classes[j] ::
          colour[u] != colour[v])
  }

  /** `graphs.colourClassesFromColouring(C)` returns the colour classes of `C`. */
  ghost predicate ColourClassesContract<V(!new)>(colourClasses: map<V, nat> -> seq<set<V>>) {
    forall colour :: IsColourClasses(colour, colourClasses(colour))
  }

  // ---- digraphs.topOrdering ----

  /** `order` lists every vertex once, and every edge points forward in it. */
  ghost predicate IsTopOrdering<V>(order: seq<V>, vs: set<V>, edges: set<(V, V)>) {
    && (forall i, j | 0 <= i < j < |order| :: order[i] != order[j])
    && (forall i | 0 <= i < |order| :: order[i] in vs)
    && (forall v | v in vs :: v in order)
    && (forall i, j | 0 <= i < |order| && 0 <= j < |order| && (order[i], order[j]) in edges :: i < j)
  }

  ghost predicate TopOrderingResult<V(!new)>(vs: set<V>, edges: set<(V, V)>, r: Option<seq<V>>) {
    && (r.Some? ==> IsTopOrdering(r.value, vs, edges))
    && (r.None? ==> forall order :: !IsTopOrdering(order, vs, edges))
  }

  /** `digraphs.topOrdering(V, E)` returns a topological ordering, or `None` when the digraph has none. */
  ghost predicate TopOrderingContract<V(!new)>(topOrdering: (set<V>, set<(V, V)>) -> Option<seq<V>>) {
    forall vs, edges :: TopOrderingResult(vs, edges, topOrdering(vs, edges))
  }

  /** A digraph with edges both ways between two vertices has no topological ordering. */
  lemma TwoCycleHasNoOrdering<V>(vs: set<V>, edges: set<(V, V)>, x: V, y: V)
    requires (x, y) in edges && (y, x) in edges && x in vs && y in vs
    ensures forall order :: !IsTopOrdering(order, vs, edges)
  {
    forall order | IsTopOrdering(order, vs, edges) ensures false {
      assert false;
    }
  }

  /** The empty digraph is ordered by the empty sequence, and by nothing else. */
  lemma EmptyOrdering<V>(order: seq<V>)
    ensures IsTopOrdering(order, {}, {}) <==> order == []
  {
    var none: set<V> := {};
    if order != [] {
      assert order[0] !in none;
      assert !IsTopOrdering(order, none, {});
    } else {
      assert IsTopOrdering(order, none, {});
    }
  }
}
