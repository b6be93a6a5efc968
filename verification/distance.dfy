/** `distance` and `shortest_path`: breadth-first search towards one target. */
module Distances {
  import opened Wrappers
  import opened Seqs
  import opened Graphs
  import opened Paths

  /** The three answers of `shortest_path`: the integer `0` when source
      and target coincide, a list of vertices, or `None`. */
  datatype Route<V> = Trivial | Found(path: seq<V>) | NoRoute

  /** Shape of the loop variables `l` and `visited` of both searches. */
  predicate LoopWf<V(==,!new), X>(g: Graph<V>, queue: seq<(V, X)>, visited: seq<V>) {
    && Valid(g) && Closed(g) && NoDup(visited)
    && (forall x :: x in visited ==> x in g.adj)
    && (forall i :: 0 <= i < |queue| ==> queue[i].0 in visited)
  }

  /** Each vertex of `xs` paired with the same label. */
  function Tagged<V, X>(xs: seq<V>, t: X): (r: seq<(V, X)>)
    ensures |r| == |xs| && forall i :: 0 <= i < |xs| ==> r[i] == (xs[i], t)
  {
    seq(|xs|, i requires 0 <= i < |xs| => (xs[i], t))
  }

  /** One iteration's queue update: `next` keeps the rest of `queue` in
      order and then queues, each labelled `t`, exactly the vertices that
      `visited'` adds to `visited`; those are the successors `succ` of the
      head that were not yet visited, each once, in the order of their
      first occurrence in `succ`. */
  ghost predicate QueuesUnvisited<V(!new), X>(succ: seq<V>, queue: seq<(V, X)>, visited: seq<V>, t: X,
                                            next: seq<(V, X)>, visited': seq<V>)
    requires queue != []
  {
    && visited <= visited' && |queue| - 1 <= |next| && next[..|queue| - 1] == queue[1..]
    && Heads(next[|queue| - 1..]) == visited'[|visited|..]
    && (forall i :: |queue| - 1 <= i < |next| ==> next[i].1 == t)
    && (forall x :: x in visited'[|visited|..] <==> x in succ && x !in visited)
    && FirstSeenOrder(visited'[|visited|..], succ)
  }

  /** The part of one iteration both loops share when the target is not
      among the successors of the popped vertex: drop the head, queue the
      unvisited successors with label `t`, mark them visited. */
  function Advance<V(==,!new), X>(g: Graph<V>, queue: seq<(V, X)>, visited: seq<V>, t: X): (r: (seq<(V, X)>, seq<V>))
    requires LoopWf(g, queue, visited) && queue != []
    ensures LoopWf(g, r.0, r.1)
    ensures QueuesUnvisited(g.adj[queue[0].0], queue, visited, t, r.0, r.1)
    ensures |g.adj.Keys - Elems(r.1)| < |g.adj.Keys - Elems(visited)| || (r.1 == visited && |r.0| < |queue|)
  {
    var newer := Unseen(g.adj[queue[0].0], visited);
    var next := queue[1..] + Tagged(newer, t);
    AdvanceKeepsWf(g, queue, visited, t);
    AdvanceOrder(g, queue, visited, t);
    (next, visited + newer)
  }

  lemma AdvanceKeepsWf<V(!new), X>(g: Graph<V>, queue: seq<(V, X)>, visited: seq<V>, t: X)
    requires LoopWf(g, queue, visited) && queue != []
    ensures var newer := Unseen(g.adj[queue[0].0], visited);
      && LoopWf(g, queue[1..] + Tagged(newer, t), visited + newer)
      && (|g.adj.Keys - Elems(visited + newer)| < |g.adj.Keys - Elems(visited)| || newer == [])
  {
    var newer := Unseen(g.adj[queue[0].0], visited);
    var next := queue[1..] + Tagged(newer, t);
    NoDupConcat(visited, newer);
    assert forall i :: 0 <= i < |next| ==> next[i].0 in visited + newer by {
      forall i | 0 <= i < |next| ensures next[i].0 in visited + newer {
        if i < |queue| - 1 { assert next[i] == queue[i + 1]; }
      }
    }
    assert newer != [] ==> |g.adj.Keys - Elems(visited + newer)| < |g.adj.Keys - Elems(visited)| by {
      if newer != [] {
        LeftShrinks(g.adj.Keys, Elems(visited), Elems(visited + newer), newer[0]);
      }
    }
  }

  lemma AdvanceOrder<V(!new), X>(g: Graph<V>, queue: seq<(V, X)>, visited: seq<V>, t: X)
    requires LoopWf(g, queue, visited) && queue != []
    ensures var newer := Unseen(g.adj[queue[0].0], visited);
      QueuesUnvisited(g.adj[queue[0].0], queue, visited, t, queue[1..] + Tagged(newer, t), visited + newer)
  {
    var newer := Unseen(g.adj[queue[0].0], visited);
    var next := queue[1..] + Tagged(newer, t);
    UnseenFirstOrder(g.adj[queue[0].0], visited);
    assert (visited + newer)[|visited|..] == newer;
    assert next[..|queue| - 1] == queue[1..] && next[|queue| - 1..] == Tagged(newer, t);
    assert Heads(Tagged(newer, t)) == newer;
  }

  /** The `while` loop of `distance`: pop `(node, dist)`; if `d` is among
      the successors of `node` the scan returns `dist + 1` when it reaches
      it; otherwise every successor not yet visited is queued at `dist + 1`
      and marked visited. */
  function DistLoop<V(==,!new)>(g: Graph<V>, d: V, queue: seq<(V, nat)>, visited: seq<V>): Option<nat>
    requires LoopWf(g, queue, visited)
    decreases |g.adj.Keys - Elems(visited)|, |queue|
  {
    if queue == [] then None
    else
      var (node, dist) := queue[0];
      if d in g.adj[node] then Some(dist + 1)
      else
        var (next, visited') := Advance(g, queue, visited, dist + 1);
        DistLoop(g, d, next, visited')
  }

  /** `distance(s, d)`: `0` when `s == d`, otherwise the breadth-first loop
      from `s`; `None` when the queue runs dry. */
  function Distance<V(==,!new)>(g: Graph<V>, s: V, d: V): (r: Option<nat>)
    requires Valid(g) && Closed(g) && (s == d || s in g.adj)
    ensures s == d ==> r == Some(0)
  {
    if s == d then Some(0) else DistLoop(g, d, [(s, 0)], [s])
  }

  /** The `while` loop of `shortest_path`: as `DistLoop`, but each queue
      entry carries the vertices before it instead of their number. */
  function PathLoop<V(==,!new)>(g: Graph<V>, d: V, queue: seq<(V, seq<V>)>, visited: seq<V>): (r: Route<V>)
    requires LoopWf(g, queue, visited)
    ensures !r.Trivial?
    decreases |g.adj.Keys - Elems(visited)|, |queue|
  {
    if queue == [] then NoRoute
    else
      var (node, preds) := queue[0];
      if d in g.adj[node] then Found(preds + [node, d])
      else
        var (next, visited') := Advance(g, queue, visited, preds + [node]);
        PathLoop(g, d, next, visited')
  }

  /** The entry's predecessors followed by its vertex form a walk from `s`. */
  ghost predicate WalkEntry<V(!new)>(g: Graph<V>, s: V, e: (V, seq<V>)) {
    IsPath(g, e.1 + [e.0]) && (e.1 + [e.0])[0] == s
  }

  /** Every queue entry is a walk from `s`. */
  ghost predicate WalksFrom<V(!new)>(g: Graph<V>, s: V, queue: seq<(V, seq<V>)>) {
    forall i :: 0 <= i < |queue| ==> WalkEntry(g, s, queue[i])
  }

  /** Queuing the unvisited successors of the head, each with the head's
      walk as predecessors, keeps every entry a walk from `s`. */
  lemma WalksFromAdvance<V(!new)>(g: Graph<V>, s: V, queue: seq<(V, seq<V>)>, visited: seq<V>)
    requires LoopWf(g, queue, visited) && queue != [] && WalksFrom(g, s, queue)
    ensures WalksFrom(g, s, Advance(g, queue, visited, queue[0].1 + [queue[0].0]).0)
  {
    var w := queue[0].1 + [queue[0].0];
    var newer := Unseen(g.adj[queue[0].0], visited);
    var added := Tagged(newer, w);
    assert WalkEntry(g, s, queue[0]);
    assert WalksFrom(g, s, added) by {
      forall k | 0 <= k < |added| ensures WalkEntry(g, s, added[k]) {
        assert added[k] == (newer[k], w);
        PathExtend(g, w, newer[k]);
      }
    }
    assert WalksFrom(g, s, queue[1..]) by {
      forall i | 0 <= i < |queue[1..]| ensures WalkEntry(g, s, queue[1..][i]) {
        assert queue[1..][i] == queue[i + 1];
      }
    }
    WalksFromConcat(g, s, queue[1..], added);
  }

  lemma WalksFromConcat<V(!new)>(g: Graph<V>, s: V, a: seq<(V, seq<V>)>, b: seq<(V, seq<V>)>)
    requires WalksFrom(g, s, a) && WalksFrom(g, s, b)
    ensures WalksFrom(g, s, a + b)
  {
    forall i | 0 <= i < |a + b| ensures WalkEntry(g, s, (a + b)[i]) {
      if i < |a| { assert (a + b)[i] == a[i]; } else { assert (a + b)[i] == b[i - |a|]; }
    }
  }

  lemma {:induction false} PathLoopSound<V(!new)>(g: Graph<V>, s: V, d: V, queue: seq<(V, seq<V>)>, visited: seq<V>)
    requires LoopWf(g, queue, visited) && WalksFrom(g, s, queue)
    ensures PathLoop(g, d, queue, visited).Found? ==>
      var p := PathLoop(g, d, queue, visited).path;
      IsPath(g, p) && p[0] == s && p[|p| - 1] == d
    decreases |g.adj.Keys - Elems(visited)|, |queue|
  {
    if queue != [] {
      var (node, preds) := queue[0];
      var w := preds + [node];
      if d in g.adj[node] {
        assert preds + [node, d] == w + [d];
        assert WalkEntry(g, s, queue[0]);
        PathExtend(g, w, d);
      } else {
        var (next, visited') := Advance(g, queue, visited, w);
        WalksFromAdvance(g, s, queue, visited);
        PathLoopSound(g, s, d, next, visited');
      }
    }
  }

  /** `shortest_path(s, d)`: `0` when `s == d`, otherwise the loop from `s`. */
  function ShortestPath<V(==,!new)>(g: Graph<V>, s: V, d: V): (r: Route<V>)
    requires Valid(g) && Closed(g) && (s == d || s in g.adj)
    ensures r.Trivial? <==> s == d
    ensures r.Found? ==> IsPath(g, r.path) && r.path[0] == s && r.path[|r.path| - 1] == d
  {
    if s == d then Trivial
    else
      PathLoopSound(g, s, d, [(s, [])], [s]);
      PathLoop(g, d, [(s, [])], [s])
  }

  /** The distance queue and the path queue hold the same vertices, each
      distance the length of the matching predecessor list. */
  predicate Matching<V(==)>(dq: seq<(V, nat)>, pq: seq<(V, seq<V>)>) {
    |dq| == |pq| && forall i :: 0 <= i < |dq| ==> dq[i].0 == pq[i].0 && dq[i].1 == |pq[i].1|
  }

  /** Dropping both heads and queuing the same vertices, with a distance
      equal to the length of the predecessor list, keeps the queues matched. */
  lemma MatchingStep<V>(dq: seq<(V, nat)>, pq: seq<(V, seq<V>)>, newer: seq<V>, t: nat, p: seq<V>)
    requires dq != [] && Matching(dq, pq) && t == |p|
    ensures Matching(dq[1..] + Tagged(newer, t), pq[1..] + Tagged(newer, p))
  {
    var dnext := dq[1..] + Tagged(newer, t);
    var pnext := pq[1..] + Tagged(newer, p);
    forall i | 0 <= i < |dnext| ensures dnext[i].0 == pnext[i].0 && dnext[i].1 == |pnext[i].1| {
      if i < |dq| - 1 {
        assert dnext[i] == dq[i + 1] && pnext[i] == pq[i + 1];
      }
    }
  }

  /** The two loops move in lockstep: same vertices queued, each distance
      the length of the matching predecessor list. */
  lemma {:induction false} LoopsAgree<V(!new)>(g: Graph<V>, d: V, dq: seq<(V, nat)>, pq: seq<(V, seq<V>)>, visited: seq<V>)
    requires LoopWf(g, dq, visited) && Matching(dq, pq)
    ensures LoopWf(g, pq, visited)
    ensures DistLoop(g, d, dq, visited).None? <==> PathLoop(g, d, pq, visited).NoRoute?
    ensures DistLoop(g, d, dq, visited).Some? ==>
      PathLoop(g, d, pq, visited).Found? &&
      |PathLoop(g, d, pq, visited).path| == DistLoop(g, d, dq, visited).value + 1
    decreases |g.adj.Keys - Elems(visited)|, |dq|
  {
    assert LoopWf(g, pq, visited) by {
      forall i | 0 <= i < |pq| ensures pq[i].0 in visited {
        assert dq[i].0 == pq[i].0;
      }
    }
    if dq != [] {
      var (node, dist) := dq[0];
      var (_, preds) := pq[0];
      if d !in g.adj[node] {
        var (dnext, visited') := Advance(g, dq, visited, dist + 1);
        var (pnext, _) := Advance(g, pq, visited, preds + [node]);
        MatchingStep(dq, pq, Unseen(g.adj[node], visited), dist + 1, preds + [node]);
        LoopsAgree(g, d, dnext, pnext, visited');
      }
    }
  }

  /** `distance` and `shortest_path` agree: both trivial exactly when
      `s == d`, both `None` together, and otherwise the path has one more
      vertex than the distance has edges. */
  lemma DistanceMatchesShortestPath<V(!new)>(g: Graph<V>, s: V, d: V)
    requires Valid(g) && Closed(g) && (s == d || s in g.adj)
    ensures s == d ==> Distance(g, s, d) == Some(0) && ShortestPath(g, s, d).Trivial?
    ensures Distance(g, s, d).None? <==> ShortestPath(g, s, d).NoRoute?
    ensures s != d && Distance(g, s, d).Some? ==>
      ShortestPath(g, s, d).Found? && |ShortestPath(g, s, d).path| == Distance(g, s, d).value + 1
  {
    if s != d {
      LoopsAgree(g, d, [(s, 0)], [(s, [])], [s]);
    }
  }

  /** Queue labels never decrease and span at most one level. */
  ghost predicate Ordered<V>(queue: seq<(V, nat)>) {
    && (forall i, j :: 0 <= i < j < |queue| ==> queue[i].1 <= queue[j].1)
    && (forall i :: 0 <= i < |queue| ==> queue[i].1 <= queue[0].1 + 1)
  }

  /** No queued vertex can be reached in fewer edges than its label. */
  ghost predicate NoShortcut<V(!new)>(g: Graph<V>, s: V, queue: seq<(V, nat)>) {
    forall i, m: nat :: 0 <= i < |queue| && m < queue[i].1 ==> !Within(g, s, queue[i].0, m)
  }

  /** A processed vertex (visited, no longer queued) has no edge to `d`
      and only visited successors. */
  ghost predicate ProcessedClosed<V(!new)>(g: Graph<V>, d: V, queue: seq<(V, nat)>, visited: seq<V>)
    requires forall x :: x in visited ==> x in g.adj
  {
    forall x :: x in visited && x !in Heads(queue) ==>
      d !in g.adj[x] && forall y :: y in g.adj[x] ==> y in visited
  }

  /** Everything strictly closer than the head of the queue is processed. */
  ghost predicate CloserProcessed<V(!new)>(g: Graph<V>, s: V, queue: seq<(V, nat)>, visited: seq<V>) {
    queue != [] ==> forall x, m: nat :: m < queue[0].1 && Within(g, s, x, m) ==>
      x in visited && x !in Heads(queue)
  }

  /** The bookkeeping half of the breadth-first invariant. */
  ghost predicate BfsShape<V(!new)>(g: Graph<V>, s: V, d: V, queue: seq<(V, nat)>, visited: seq<V>) {
    && LoopWf(g, queue, visited)
    && s != d && s in visited && d !in visited
    && NoDup(Heads(queue))
  }

  /** The distance half: labels are levels, and everything closer than the
      head of the queue has been processed. */
  ghost predicate BfsLevels<V(!new)>(g: Graph<V>, s: V, d: V, queue: seq<(V, nat)>, visited: seq<V>)
    requires forall x :: x in visited ==> x in g.adj
  {
    && Ordered(queue)
    && NoShortcut(g, s, queue)
    && ProcessedClosed(g, d, queue, visited)
    && CloserProcessed(g, s, queue, visited)
  }

  /** The breadth-first invariant of `distance` from `s` to `d`. */
  ghost predicate BfsInv<V(!new)>(g: Graph<V>, s: V, d: V, queue: seq<(V, nat)>, visited: seq<V>) {
    BfsShape(g, s, d, queue, visited) && BfsLevels(g, s, d, queue, visited)
  }

  lemma BfsInvStart<V(!new)>(g: Graph<V>, s: V, d: V)
    requires Valid(g) && Closed(g) && s in g.adj && s != d
    ensures BfsInv(g, s, d, [(s, 0)], [s])
  {
    assert Heads([(s, 0)]) == [s];
  }

  /** A vertex at most one edge past the processed vertices has been visited. */
  lemma PastProcessed<V(!new)>(g: Graph<V>, s: V, d: V, queue: seq<(V, nat)>, visited: seq<V>, x: V, m: nat)
    requires forall y :: y in visited ==> y in g.adj
    requires s in visited && queue != []
    requires ProcessedClosed(g, d, queue, visited) && CloserProcessed(g, s, queue, visited)
    requires Within(g, s, x, m) && m <= queue[0].1
    ensures x in visited
  {
    if x != s {
      WithinLastEdge(g, s, x, m);
      var y :| Within(g, s, y, m - 1) && y in g.adj && x in g.adj[y];
    }
  }

  lemma HeadsPush<V, X>(queue: seq<(V, X)>, xs: seq<V>, t: X)
    requires queue != []
    ensures Heads(queue[1..] + Tagged(xs, t)) == Heads(queue)[1..] + xs
  {
  }

  lemma HeadsPushNoDup<V>(heads: seq<V>, xs: seq<V>, visited: seq<V>)
    requires heads != [] && NoDup(heads) && NoDup(xs)
    requires forall x :: x in heads ==> x in visited
    requires forall x :: x in xs ==> x !in visited
    ensures NoDup(heads[1..] + xs)
  {
    var hn := heads[1..] + xs;
    forall i, j | 0 <= i < j < |hn| ensures hn[i] != hn[j] {
      if j < |heads| - 1 {
        assert hn[i] == heads[i + 1] && hn[j] == heads[j + 1];
      } else if i < |heads| - 1 {
        assert hn[i] in heads && hn[j] in xs;
      }
    }
  }

  lemma PushOrdered<V>(queue: seq<(V, nat)>, xs: seq<V>)
    requires queue != [] && Ordered(queue)
    ensures var next := queue[1..] + Tagged(xs, queue[0].1 + 1);
      && Ordered(next)
      && forall i :: 0 <= i < |next| ==> queue[0].1 <= next[i].1 <= queue[0].1 + 1
  {
    var f := queue[0].1;
    var next := queue[1..] + Tagged(xs, f + 1);
    forall i | 0 <= i < |next| ensures f <= next[i].1 <= f + 1 {
      if i < |queue| - 1 { assert next[i] == queue[i + 1]; }
    }
    forall i, j | 0 <= i < j < |next| ensures next[i].1 <= next[j].1 {
      if j < |queue| - 1 {
        assert next[i] == queue[i + 1] && next[j] == queue[j + 1];
      }
    }
  }

  lemma PushNoShortcut<V(!new)>(g: Graph<V>, s: V, d: V, queue: seq<(V, nat)>, visited: seq<V>, newer: seq<V>)
    requires forall y :: y in visited ==> y in g.adj
    requires s in visited && queue != []
    requires NoShortcut(g, s, queue)
    requires ProcessedClosed(g, d, queue, visited) && CloserProcessed(g, s, queue, visited)
    requires forall x :: x in newer ==> x !in visited
    ensures NoShortcut(g, s, queue[1..] + Tagged(newer, queue[0].1 + 1))
  {
    var next := queue[1..] + Tagged(newer, queue[0].1 + 1);
    forall i, m: nat | 0 <= i < |next| && m < next[i].1 ensures !Within(g, s, next[i].0, m) {
      if i < |queue| - 1 {
        assert next[i] == queue[i + 1];
      } else {
        assert next[i].0 in newer;
        if Within(g, s, next[i].0, m) {
          PastProcessed(g, s, d, queue, visited, next[i].0, m);
        }
      }
    }
  }

  lemma PushProcessedClosed<V(!new)>(g: Graph<V>, d: V, queue: seq<(V, nat)>, visited: seq<V>, newer: seq<V>)
    requires forall y :: y in visited ==> y in g.adj
    requires queue != [] && queue[0].0 in g.adj && d !in g.adj[queue[0].0]
    requires ProcessedClosed(g, d, queue, visited)
    requires forall x :: x in newer ==> x in g.adj && x !in visited
    requires forall y :: y in g.adj[queue[0].0] ==> y in visited || y in newer
    ensures ProcessedClosed(g, d, queue[1..] + Tagged(newer, queue[0].1 + 1), visited + newer)
  {
    var node := queue[0].0;
    var next := queue[1..] + Tagged(newer, queue[0].1 + 1);
    var vis := visited + newer;
    var heads := Heads(queue);
    HeadsPush(queue, newer, queue[0].1 + 1);
    forall x | x in vis && x !in Heads(next)
      ensures d !in g.adj[x] && forall y :: y in g.adj[x] ==> y in vis
    {
      assert x in visited;
      if x != node {
        assert x !in heads;
      }
    }
  }

  lemma PushCloserProcessed<V(!new)>(g: Graph<V>, s: V, d: V, queue: seq<(V, nat)>, visited: seq<V>, newer: seq<V>)
    requires forall y :: y in visited ==> y in g.adj
    requires s in visited && queue != []
    requires ProcessedClosed(g, d, queue, visited) && CloserProcessed(g, s, queue, visited)
    requires forall x :: x in newer ==> x !in visited
    requires var next := queue[1..] + Tagged(newer, queue[0].1 + 1);
      && Ordered(next) && NoShortcut(g, s, next)
      && forall i :: 0 <= i < |next| ==> queue[0].1 <= next[i].1 <= queue[0].1 + 1
    ensures CloserProcessed(g, s, queue[1..] + Tagged(newer, queue[0].1 + 1), visited + newer)
  {
    var f := queue[0].1;
    var next := queue[1..] + Tagged(newer, f + 1);
    var heads := Heads(queue);
    HeadsPush(queue, newer, f + 1);
    if next != [] {
      forall x, m: nat | m < next[0].1 && Within(g, s, x, m) ensures x in visited + newer && x !in Heads(next) {
        if m < f {
          assert x in visited && x !in heads;
        } else {
          PastProcessed(g, s, d, queue, visited, x, m);
        }
      }
    }
  }

  lemma ShapePush<V(!new)>(g: Graph<V>, s: V, d: V, queue: seq<(V, nat)>, visited: seq<V>, newer: seq<V>)
    requires BfsShape(g, s, d, queue, visited) && queue != [] && d !in g.adj[queue[0].0]
    requires NoDup(newer) && NoDup(visited + newer)
    requires forall x :: x in newer ==> x in g.adj[queue[0].0] && x !in visited
    ensures BfsShape(g, s, d, queue[1..] + Tagged(newer, queue[0].1 + 1), visited + newer)
  {
    var f := queue[0].1;
    var next := queue[1..] + Tagged(newer, f + 1);
    assert forall x :: x in Heads(queue) ==> x in visited;
    HeadsPush(queue, newer, f + 1);
    HeadsPushNoDup(Heads(queue), newer, visited);
    assert forall i :: 0 <= i < |next| ==> next[i].0 in visited + newer by {
      forall i | 0 <= i < |next| ensures next[i].0 in visited + newer {
        if i < |queue| - 1 { assert next[i] == queue[i + 1]; }
      }
    }
  }

  lemma LevelsPush<V(!new)>(g: Graph<V>, s: V, d: V, queue: seq<(V, nat)>, visited: seq<V>, newer: seq<V>)
    requires forall x :: x in visited ==> x in g.adj
    requires s in visited && queue != [] && queue[0].0 in g.adj && d !in g.adj[queue[0].0]
    requires BfsLevels(g, s, d, queue, visited)
    requires forall x :: x in newer ==> x in g.adj && x !in visited
    requires forall y :: y in g.adj[queue[0].0] ==> y in visited || y in newer
    ensures BfsLevels(g, s, d, queue[1..] + Tagged(newer, queue[0].1 + 1), visited + newer)
  {
    PushOrdered(queue, newer);
    PushNoShortcut(g, s, d, queue, visited, newer);
    PushProcessedClosed(g, d, queue, visited, newer);
    PushCloserProcessed(g, s, d, queue, visited, newer);
  }

  lemma BfsInvAdvance<V(!new)>(g: Graph<V>, s: V, d: V, queue: seq<(V, nat)>, visited: seq<V>)
    requires BfsInv(g, s, d, queue, visited) && queue != [] && d !in g.adj[queue[0].0]
    ensures var (next, vis) := Advance(g, queue, visited, queue[0].1 + 1);
      BfsInv(g, s, d, next, vis)
  {
    var newer := Unseen(g.adj[queue[0].0], visited);
    var r := Advance(g, queue, visited, queue[0].1 + 1);
    assert NoDup(r.1);
    ShapePush(g, s, d, queue, visited, newer);
    LevelsPush(g, s, d, queue, visited, newer);
  }

  /** When the queue runs dry the visited vertices have no edge leaving
      them, so `d`, never visited, is out of reach. */
  lemma ExhaustedUnreachable<V(!new)>(g: Graph<V>, s: V, d: V, visited: seq<V>)
    requires BfsInv(g, s, d, [], visited)
    ensures !Reachable(g, s, d)
  {
    assert Heads<V, nat>([]) == [];
    if Reachable(g, s, d) {
      ClosedSetHoldsReachable(g, Elems(visited), s, d);
    }
  }

  /** When the head of the queue has an edge to `d`, no walk reaches `d`
      in as few edges as the head's label. */
  lemma HitIsShortest<V(!new)>(g: Graph<V>, s: V, d: V, queue: seq<(V, nat)>, visited: seq<V>)
    requires BfsInv(g, s, d, queue, visited) && queue != [] && d in g.adj[queue[0].0]
    ensures forall m: nat :: m < queue[0].1 + 1 ==> !Within(g, s, d, m)
  {
    forall m: nat | m < queue[0].1 + 1 ensures !Within(g, s, d, m) {
      if Within(g, s, d, m) {
        PastProcessed(g, s, d, queue, visited, d, m);
      }
    }
  }

  /** What the loop of `distance` returns under the invariant: `None` only
      when `d` is unreachable, and a distance no walk undercuts. */
  lemma {:induction false} DistLoopExact<V(!new)>(g: Graph<V>, s: V, d: V, queue: seq<(V, nat)>, visited: seq<V>)
    requires BfsInv(g, s, d, queue, visited)
    ensures DistLoop(g, d, queue, visited).None? ==> !Reachable(g, s, d)
    ensures DistLoop(g, d, queue, visited).Some? ==>
      forall m: nat :: m < DistLoop(g, d, queue, visited).value ==> !Within(g, s, d, m)
    decreases |g.adj.Keys - Elems(visited)|, |queue|
  {
    if queue == [] {
      ExhaustedUnreachable(g, s, d, visited);
    } else if d in g.adj[queue[0].0] {
      HitIsShortest(g, s, d, queue, visited);
    } else {
      BfsInvAdvance(g, s, d, queue, visited);
      var (next, vis) := Advance(g, queue, visited, queue[0].1 + 1);
      DistLoopExact(g, s, d, next, vis);
    }
  }

  /** `distance(s, d)` is `None` exactly when no walk leads from `s` to
      `d`; otherwise some walk has that many edges and none has fewer. */
  lemma DistanceIsShortest<V(!new)>(g: Graph<V>, s: V, d: V)
    requires Valid(g) && Closed(g) && (s == d || s in g.adj)
    ensures Distance(g, s, d).None? <==> !Reachable(g, s, d)
    ensures Distance(g, s, d).Some? ==>
      exists p :: IsPath(g, p) && p[0] == s && p[|p| - 1] == d && |p| == Distance(g, s, d).value + 1
    ensures Distance(g, s, d).Some? ==>
      forall p :: IsPath(g, p) && p[0] == s && p[|p| - 1] == d ==> |p| >= Distance(g, s, d).value + 1
  {
    if s == d {
      assert IsPath(g, [s]);
    } else {
      BfsInvStart(g, s, d);
      DistLoopExact(g, s, d, [(s, 0)], [s]);
      DistanceMatchesShortestPath(g, s, d);
      var r := Distance(g, s, d);
      if r.Some? {
        var p := ShortestPath(g, s, d).path;
        assert IsPath(g, p) && p[0] == s && p[|p| - 1] == d;
        forall q | IsPath(g, q) && q[0] == s && q[|q| - 1] == d ensures |q| >= r.value + 1 {
          if |q| < r.value + 1 {
            assert Within(g, s, d, |q| - 1);
          }
        }
      }
    }
  }

  /** `shortest_path(s, d)` returns a walk from `s` to `d` exactly when one
      exists, and no walk from `s` to `d` has fewer vertices. */
  lemma ShortestPathIsShortest<V(!new)>(g: Graph<V>, s: V, d: V)
    requires Valid(g) && Closed(g) && s in g.adj && s != d
    ensures ShortestPath(g, s, d).NoRoute? <==> !Reachable(g, s, d)
    ensures ShortestPath(g, s, d).Found? ==>
      forall q :: IsPath(g, q) && q[0] == s && q[|q| - 1] == d ==> |ShortestPath(g, s, d).path| <= |q|
  {
    DistanceMatchesShortestPath(g, s, d);
    DistanceIsShortest(g, s, d);
  }
}
