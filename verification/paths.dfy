/** Walks and reachability: the reference meaning of the traversals. */
module Paths {
  import opened Graphs

  /** `p` visits vertices, each following one along an edge. */
  predicate IsPath<V(==,!new)>(g: Graph<V>, p: seq<V>) {
    |p| > 0 && forall i :: 0 <= i < |p| - 1 ==> p[i] in g.adj && p[i + 1] in g.adj[p[i]]
  }

  /** A walk extended by an edge out of its last vertex is a walk. */
  lemma PathExtend<V(!new)>(g: Graph<V>, p: seq<V>, y: V)
    requires IsPath(g, p) && p[|p| - 1] in g.adj && y in g.adj[p[|p| - 1]]
    ensures IsPath(g, p + [y]) && (p + [y])[0] == p[0]
  {
  }

  /** Some walk leads from `a` to `b` (zero edges when `a == b`). */
  ghost predicate Reachable<V(!new)>(g: Graph<V>, a: V, b: V) {
    exists p :: IsPath(g, p) && p[0] == a && p[|p| - 1] == b
  }

  lemma ReachableRefl<V(!new)>(g: Graph<V>, a: V)
    ensures Reachable(g, a, a)
  {
    assert IsPath(g, [a]);
  }

  lemma ReachableStep<V(!new)>(g: Graph<V>, a: V, x: V, y: V)
    requires Reachable(g, a, x) && x in g.adj && y in g.adj[x]
    ensures Reachable(g, a, y)
  {
    var p :| IsPath(g, p) && p[0] == a && p[|p| - 1] == x;
    var q := p + [y];
    assert IsPath(g, q);
  }

  /** A set holding `a` that no edge leaves holds every vertex reachable from `a`. */
  lemma ClosedSetHoldsReachable<V(!new)>(g: Graph<V>, s: set<V>, a: V, b: V)
    requires a in s
    requires forall x, y :: x in s && x in g.adj && y in g.adj[x] ==> y in s
    requires Reachable(g, a, b)
    ensures b in s
  {
    var p :| IsPath(g, p) && p[0] == a && p[|p| - 1] == b;
    var i := 0;
    while i < |p| - 1
      invariant 0 <= i < |p| && p[i] in s
    {
      i := i + 1;
    }
  }

  /** Some walk of at most `m` edges leads from `a` to `b`. */
  ghost predicate Within<V(!new)>(g: Graph<V>, a: V, b: V, m: nat) {
    exists p :: IsPath(g, p) && p[0] == a && p[|p| - 1] == b && |p| <= m + 1
  }

  /** The last edge of a short walk to `b != a` leaves a vertex one step closer. */
  lemma WithinLastEdge<V(!new)>(g: Graph<V>, a: V, b: V, m: nat)
    requires Within(g, a, b, m) && b != a
    ensures m >= 1
    ensures exists y :: Within(g, a, y, m - 1) && y in g.adj && b in g.adj[y]
  {
    var p :| IsPath(g, p) && p[0] == a && p[|p| - 1] == b && |p| <= m + 1;
    var q := p[..|p| - 1];
    assert IsPath(g, q);
    assert Within(g, a, p[|p| - 2], m - 1);
  }
}
