/** `reachable_bfs` and `reachable_dfs`: one worklist loop, two disciplines. */
module Search {
  import opened Seqs
  import opened Graphs
  import opened Paths

  /** Where newly discovered vertices join the pending list `l`: appended
      at the back (`reachable_bfs`) or inserted at the front in successor
      order (`reachable_dfs`, whose `l.insert(s, elem)` with `s` counting
      up puts them before the old contents). */
  datatype Frontier = Queue | Stack

  /** The loop variables: `pending` is the list `l`, `found` is `res`. */
  datatype State<V> = State(pending: seq<V>, found: seq<V>)

  /** Shape of the loop state for a search started at `v`. */
  predicate Wf<V(==,!new)>(g: Graph<V>, v: V, s: State<V>) {
    && Valid(g) && Closed(g) && v in g.adj
    && NoDup(s.pending) && NoDup(s.found)
    && (forall x :: x in s.pending ==> x in g.adj && x !in s.found)
    && (forall x :: x in s.found ==> x in g.adj)
    && v !in s.found
  }

  /** The start vertex has been expanded: each of its successors is `v`
      itself, found or pending. */
  predicate Expanded<V(==,!new)>(g: Graph<V>, v: V, s: State<V>)
    requires v in g.adj
  {
    forall y :: y in g.adj[v] ==> y == v || y in s.found || y in s.pending
  }

  /** One iteration of the `while` loop: pop the first pending vertex,
      record it unless it is the start, then add each successor that is
      neither found nor pending (nor, when `guardSelf`, the popped vertex
      itself: the `elem != node` test that only `reachable_bfs` has). */
  function Step<V(==,!new)>(g: Graph<V>, v: V, order: Frontier, guardSelf: bool, s: State<V>): (r: State<V>)
    requires Wf(g, v, s) && s.pending != []
    ensures Wf(g, v, r)
    ensures r.found == s.found + (if s.pending[0] != v then [s.pending[0]] else [])
    ensures forall x :: x in s.pending[1..] ==> x in r.pending
    ensures forall x :: x in r.pending ==> x in s.pending[1..] || x in g.adj[s.pending[0]]
    ensures forall y :: y in g.adj[s.pending[0]] ==> y == v || y in r.found || y in r.pending
    ensures Expanded(g, v, s) ==> Expanded(g, v, r)
    ensures Expanded(g, v, s) && s.pending[0] == v && (guardSelf || v !in g.adj[v]) ==>
              r.pending == s.pending[1..]
  {
    var node := s.pending[0];
    var rest := s.pending[1..];
    NoDupTail(s.pending);
    var found := if node != v then s.found + [node] else s.found;
    assert NoDup(found) by {
      if node != v { NoDupConcat(s.found, [node]); }
    }
    var seen := found + rest + (if guardSelf then [node] else []);
    var newer := Unseen(g.adj[node], seen);
    JoinNoDup(order, rest, newer);
    assert Expanded(g, v, s) && node == v && (guardSelf || v !in g.adj[v]) ==> newer == [] by {
      if Expanded(g, v, s) && node == v && (guardSelf || v !in g.adj[v]) {
        UnseenAllSeen(g.adj[node], seen);
      }
    }
    State(Join(order, rest, newer), found)
  }

  /** Where newly discovered vertices go: behind the pending ones for a
      queue, ahead of them for a stack. */
  function Join<V(==,!new)>(order: Frontier, rest: seq<V>, newer: seq<V>): (r: seq<V>)
    ensures forall x :: x in r <==> x in rest || x in newer
  {
    if order == Queue then rest + newer else newer + rest
  }

  lemma JoinNoDup<V(!new)>(order: Frontier, rest: seq<V>, newer: seq<V>)
    requires NoDup(rest) && NoDup(newer) && forall x :: x in newer ==> x !in rest
    ensures NoDup(Join(order, rest, newer))
  {
    if order == Queue { NoDupConcat(rest, newer); } else { NoDupConcat(newer, rest); }
  }

  /** Where one iteration puts the vertices it discovers: `reachable_bfs`
      appends them behind the vertices still pending (`l.append`), and
      `reachable_dfs` inserts them ahead of them (`l.insert(s, elem)` with
      `s` counting up). Either way the new vertices keep the order of their
      first occurrence in the popped vertex's list, and they are exactly the
      successors that are neither recorded nor pending (nor, with the
      guard, the popped vertex itself). */
  lemma StepDiscipline<V(!new)>(g: Graph<V>, v: V, order: Frontier, guardSelf: bool, s: State<V>)
    requires Wf(g, v, s) && s.pending != []
    ensures |s.pending| - 1 <= |Step(g, v, order, guardSelf, s).pending|
    ensures order == Queue ==>
      var p := Step(g, v, order, guardSelf, s).pending;
      p[..|s.pending| - 1] == s.pending[1..] && FirstSeenOrder(p[|s.pending| - 1..], g.adj[s.pending[0]])
    ensures order == Stack ==>
      var p := Step(g, v, order, guardSelf, s).pending;
      var k := |p| - (|s.pending| - 1);
      p[k..] == s.pending[1..] && FirstSeenOrder(p[..k], g.adj[s.pending[0]])
    ensures forall x :: x in Step(g, v, order, guardSelf, s).pending && x !in s.pending[1..] <==>
      x in g.adj[s.pending[0]] && x !in Step(g, v, order, guardSelf, s).found && x !in s.pending[1..]
      && (guardSelf ==> x != s.pending[0])
  {
    var node := s.pending[0];
    var rest := s.pending[1..];
    var found := if node != v then s.found + [node] else s.found;
    var seen := found + rest + (if guardSelf then [node] else []);
    var newer := Unseen(g.adj[node], seen);
    UnseenFirstOrder(g.adj[node], seen);
    assert Step(g, v, order, guardSelf, s).pending == Join(order, rest, newer);
    if order == Queue {
      assert (rest + newer)[..|rest|] == rest && (rest + newer)[|rest|..] == newer;
    } else {
      assert (newer + rest)[|newer|..] == rest && (newer + rest)[..|newer|] == newer;
    }
  }

  /** The loop from state `s` until `l` is empty; returns `res`. */
  function Search<V(==,!new)>(g: Graph<V>, v: V, order: Frontier, guardSelf: bool, s: State<V>): (r: seq<V>)
    requires Wf(g, v, s) && Expanded(g, v, s)
    requires guardSelf || v !in g.adj[v]
    ensures NoDup(r) && v !in r
    ensures forall x :: x in r ==> x in g.adj
    decreases |g.adj.Keys - Elems(s.found)|, |s.pending|
  {
    if s.pending == [] then s.found
    else
      var next := Step(g, v, order, guardSelf, s);
      var node := s.pending[0];
      if node != v then
        LeftShrinks(g.adj.Keys, Elems(s.found), Elems(next.found), node);
        Search(g, v, order, guardSelf, next)
      else
        Search(g, v, order, guardSelf, next)
  }

  /** The whole traversal from `v`: the first iteration pops `v` itself. */
  function Reach<V(==,!new)>(g: Graph<V>, v: V, order: Frontier, guardSelf: bool): (r: seq<V>)
    requires Valid(g) && Closed(g) && v in g.adj
    requires guardSelf || v !in g.adj[v]
    ensures NoDup(r) && v !in r
  {
    Search(g, v, order, guardSelf, Step(g, v, order, guardSelf, State([v], [])))
  }

  /** `reachable_bfs(v)`. */
  function ReachableBfs<V(==,!new)>(g: Graph<V>, v: V): (r: seq<V>)
    requires Valid(g) && Closed(g) && v in g.adj
    ensures NoDup(r) && v !in r
  {
    Reach(g, v, Queue, true)
  }

  /** `reachable_dfs(v)` as written: without the `elem != node` test the
      loop never ends when `v` has an edge to itself, hence the requirement. */
  function ReachableDfs<V(==,!new)>(g: Graph<V>, v: V): (r: seq<V>)
    requires Valid(g) && Closed(g) && v in g.adj && v !in g.adj[v]
    ensures NoDup(r) && v !in r
  {
    Reach(g, v, Stack, false)
  }

  /** `reachable_dfs(v)` with the `elem != node` test that `reachable_bfs`
      has: defined on every vertex. */
  function ReachableDfsGuarded<V(==,!new)>(g: Graph<V>, v: V): (r: seq<V>)
    requires Valid(g) && Closed(g) && v in g.adj
    ensures NoDup(r) && v !in r
  {
    Reach(g, v, Stack, true)
  }

  /** Everything the loop records is reachable, and when it stops the
      recorded vertices together with `v` have no edge leaving them. */
  lemma {:induction false} SearchCorrect<V(!new)>(g: Graph<V>, v: V, order: Frontier, guardSelf: bool, s: State<V>)
    requires Wf(g, v, s) && Expanded(g, v, s)
    requires guardSelf || v !in g.adj[v]
    requires forall x :: x in s.found || x in s.pending ==> Reachable(g, v, x)
    requires forall x, y :: x in s.found && y in g.adj[x] ==> y == v || y in s.found || y in s.pending
    ensures forall x :: x in Search(g, v, order, guardSelf, s) ==> Reachable(g, v, x)
    ensures forall x, y :: x in Search(g, v, order, guardSelf, s) && y in g.adj[x] ==>
              y == v || y in Search(g, v, order, guardSelf, s)
    decreases |g.adj.Keys - Elems(s.found)|, |s.pending|
  {
    if s.pending != [] {
      var next := Step(g, v, order, guardSelf, s);
      var node := s.pending[0];
      forall x | x in next.found || x in next.pending ensures Reachable(g, v, x) {
        if x in g.adj[node] {
          ReachableStep(g, v, node, x);
        }
      }
      forall x, y | x in next.found && y in g.adj[x] ensures y == v || y in next.found || y in next.pending {
        if x != node {
          assert y == v || y in s.found || y in s.pending;
        }
      }
      if node != v {
        LeftShrinks(g.adj.Keys, Elems(s.found), Elems(next.found), node);
      }
      SearchCorrect(g, v, order, guardSelf, next);
    }
  }

  /** Nothing recorded or pending is lost: the loop's result holds every
      vertex found so far and every pending vertex other than `v`. */
  lemma {:induction false} SearchKeeps<V(!new)>(g: Graph<V>, v: V, order: Frontier, guardSelf: bool, s: State<V>)
    requires Wf(g, v, s) && Expanded(g, v, s)
    requires guardSelf || v !in g.adj[v]
    ensures forall x :: (x in s.found || x in s.pending) && x != v ==> x in Search(g, v, order, guardSelf, s)
    decreases |g.adj.Keys - Elems(s.found)|, |s.pending|
  {
    if s.pending != [] {
      var next := Step(g, v, order, guardSelf, s);
      if s.pending[0] != v {
        LeftShrinks(g.adj.Keys, Elems(s.found), Elems(next.found), s.pending[0]);
      }
      SearchKeeps(g, v, order, guardSelf, next);
      forall x | (x in s.found || x in s.pending) && x != v ensures x in next.found || x in next.pending {
        if x in s.pending && x != s.pending[0] {
          var i :| 0 <= i < |s.pending| && s.pending[i] == x;
          assert x in s.pending[1..];
        }
      }
    }
  }

  /** A traversal from `v` returns exactly the vertices other than `v`
      that are reachable from `v`, each once. */
  lemma ReachExact<V(!new)>(g: Graph<V>, v: V, order: Frontier, guardSelf: bool)
    requires Valid(g) && Closed(g) && v in g.adj
    requires guardSelf || v !in g.adj[v]
    ensures forall x :: x in Reach(g, v, order, guardSelf) <==> x != v && Reachable(g, v, x)
  {
    var s0 := State([v], []);
    var s1 := Step(g, v, order, guardSelf, s0);
    ReachableRefl(g, v);
    forall x | x in s1.found || x in s1.pending ensures Reachable(g, v, x) {
      ReachableStep(g, v, v, x);
    }
    SearchCorrect(g, v, order, guardSelf, s1);
    SearchKeeps(g, v, order, guardSelf, s1);
    var r := Reach(g, v, order, guardSelf);
    var closure := Elems(r) + {v};
    forall x | x != v && Reachable(g, v, x) ensures x in r {
      forall a, b | a in closure && a in g.adj && b in g.adj[a] ensures b in closure {
        if a != v {
          assert b == v || b in r;
        }
      }
      ClosedSetHoldsReachable(g, closure, v, x);
    }
  }

  /** `reachable_bfs(v)` is the set of vertices other than `v` that are
      reachable from `v`, without repetition. */
  lemma BfsReachesExactly<V(!new)>(g: Graph<V>, v: V)
    requires Valid(g) && Closed(g) && v in g.adj
    ensures forall x :: x in ReachableBfs(g, v) <==> x != v && Reachable(g, v, x)
  {
    ReachExact(g, v, Queue, true);
  }

  /** Wherever `reachable_dfs` terminates it returns the same set as `reachable_bfs`. */
  lemma DfsSameSetAsBfs<V(!new)>(g: Graph<V>, v: V)
    requires Valid(g) && Closed(g) && v in g.adj && v !in g.adj[v]
    ensures Elems(ReachableDfs(g, v)) == Elems(ReachableBfs(g, v))
    ensures forall x :: x in ReachableDfs(g, v) <==> x != v && Reachable(g, v, x)
  {
    ReachExact(g, v, Queue, true);
    ReachExact(g, v, Stack, false);
  }

  /** The guarded depth-first search returns the same set as `reachable_bfs`
      on every vertex, self-loops included. */
  lemma GuardedDfsSameSetAsBfs<V(!new)>(g: Graph<V>, v: V)
    requires Valid(g) && Closed(g) && v in g.adj
    ensures Elems(ReachableDfsGuarded(g, v)) == Elems(ReachableBfs(g, v))
  {
    ReachExact(g, v, Queue, true);
    ReachExact(g, v, Stack, true);
  }

  /** Without the `elem != node` test, popping a vertex that is not the
      start finds it already recorded, so the test only matters for the
      start vertex: with no self-loop there both steps agree. */
  lemma StepGuardIrrelevant<V(!new)>(g: Graph<V>, v: V, order: Frontier, s: State<V>)
    requires Wf(g, v, s) && s.pending != [] && v !in g.adj[v]
    ensures Step(g, v, order, false, s) == Step(g, v, order, true, s)
  {
    var node := s.pending[0];
    var rest := s.pending[1..];
    var found := if node != v then s.found + [node] else s.found;
    UnseenSameSeen(g.adj[node], found + rest + [], found + rest + [node]);
  }

  lemma {:induction false} SearchGuardIrrelevant<V(!new)>(g: Graph<V>, v: V, order: Frontier, s: State<V>)
    requires Wf(g, v, s) && Expanded(g, v, s) && v !in g.adj[v]
    ensures Search(g, v, order, false, s) == Search(g, v, order, true, s)
    decreases |g.adj.Keys - Elems(s.found)|, |s.pending|
  {
    if s.pending != [] {
      StepGuardIrrelevant(g, v, order, s);
      var next := Step(g, v, order, true, s);
      if s.pending[0] != v {
        LeftShrinks(g.adj.Keys, Elems(s.found), Elems(next.found), s.pending[0]);
      }
      SearchGuardIrrelevant(g, v, order, next);
    }
  }

  /** Where `reachable_dfs` as written terminates it agrees, order
      included, with the guarded version. */
  lemma DfsAsWrittenIsGuarded<V(!new)>(g: Graph<V>, v: V)
    requires Valid(g) && Closed(g) && v in g.adj && v !in g.adj[v]
    ensures ReachableDfs(g, v) == ReachableDfsGuarded(g, v)
  {
    var s0 := State([v], []);
    StepGuardIrrelevant(g, v, Stack, s0);
    SearchGuardIrrelevant(g, v, Stack, Step(g, v, Stack, true, s0));
  }

  /** The graph `{1: [1]}`: one vertex with an edge to itself. */
  function SelfLoop(): (g: Graph<int>)
    ensures Valid(g) && Closed(g) && 1 in g.adj && 1 in g.adj[1]
  {
    Graph([1], map[1 := [1]])
  }

  /** On `{1: [1]}`, one iteration of `reachable_dfs(1)` as written puts `1`
      back as the only pending vertex and records nothing, so the state
      repeats and the loop never ends; the guarded step empties the list. */
  lemma DfsSelfLoopNeverEnds()
    ensures Step(SelfLoop(), 1, Stack, false, State([1], [])) == State([1], [])
    ensures Step(SelfLoop(), 1, Stack, true, State([1], [])) == State([], [])
  {
    var g := SelfLoop();
    assert Unseen([1], []) == [1];
    assert Unseen([1], [1]) == [];
  }
}
