/** The degree statistics of `MyGraph`: `all_degrees`, `highest_degrees`
    and `prob_degree`. */
module Degrees {
  import opened Wrappers
  import opened Seqs
  import opened Graphs

  /** The modes that seed every count with the out-degree. */
  predicate CountsOut(degType: string) {
    degType == "out" || degType == "inout"
  }

  /** The modes that run the loop over the edges. */
  predicate CountsIn(degType: string) {
    degType == "in" || degType == "inout"
  }

  /** Whether the edge loop counts an occurrence of `u -> x`: always in
      mode `"in"`, otherwise only when `x` has no edge back to `u`. */
  predicate Counted<V(==)>(g: Graph<V>, degType: string, u: V, x: V)
    requires x in g.adj
  {
    degType == "in" || u !in g.adj[x]
  }

  /** The count every vertex starts from. */
  function Seed<V>(g: Graph<V>, degType: string, v: V): nat
    requires v in g.adj
  {
    if CountsOut(degType) then |g.adj[v]| else 0
  }

  /** Every edge occurrence of `es` ends at a vertex. */
  ghost predicate Lands<V(!new)>(g: Graph<V>, es: seq<(V, V)>) {
    forall e :: e in es ==> e.1 in g.adj
  }

  /** The nested loop of `all_degrees` over the edge occurrences `es`,
      bumping the destination whenever the occurrence is counted. */
  function Tally<V(!new)>(g: Graph<V>, degType: string, degs: map<V, nat>, es: seq<(V, V)>): (r: map<V, nat>)
    requires Lands(g, es) && g.adj.Keys <= degs.Keys
    ensures r.Keys == degs.Keys
    decreases |es|
  {
    if es == [] then degs
    else
      assert Lands(g, es[1..]) by {
        forall e | e in es[1..] ensures e.1 in g.adj { assert e in es; }
      }
      Tally(g, degType, Bump(g, degType, degs, es[0]), es[1..])
  }

  /** One pass of the inner loop body: count the occurrence `e` at its
      destination if the mode counts it. */
  function Bump<V(==)>(g: Graph<V>, degType: string, degs: map<V, nat>, e: (V, V)): (r: map<V, nat>)
    requires e.1 in g.adj && e.1 in degs
    ensures r.Keys == degs.Keys
    ensures forall x :: x in degs ==> r[x] == degs[x] + (if x == e.1 && Counted(g, degType, e.0, x) then 1 else 0)
  {
    if Counted(g, degType, e.0, e.1) then degs[e.1 := degs[e.1] + 1] else degs
  }

  /** The counts `all_degrees` ends with, as a map. */
  function DegreeMap<V(==,!new)>(g: Graph<V>, degType: string): (m: map<V, nat>)
    requires Valid(g) && (CountsIn(degType) ==> Closed(g))
    ensures m.Keys == g.adj.Keys
  {
    var seeds := map v | v in g.adj :: Seed(g, degType, v);
    if CountsIn(degType) then
      var es := Edges(g);
      assert Lands(g, es) by {
        forall e | e in es ensures e.1 in g.adj {
          EdgeMultiplicity(g, e.0, e.1);
        }
      }
      Tally(g, degType, seeds, es)
    else seeds
  }

  /** `all_degrees(deg_type)`: the dictionary from each vertex, in key
      order, to its degree of the given kind. */
  function AllDegrees<V(==,!new)>(g: Graph<V>, degType: string := "inout"): (r: seq<(V, int)>)
    requires Valid(g) && (CountsIn(degType) ==> Closed(g))
    ensures Heads(r) == g.keys
    ensures forall i :: 0 <= i < |r| ==> r[i].1 >= 0
  {
    var m := DegreeMap(g, degType);
    seq(|g.keys|, i requires 0 <= i < |g.keys| => (g.keys[i], m[g.keys[i]] as int))
  }

  /** Reference count, source vertex by source vertex: how many times each
      vertex of `ks` lists `x`, taking only the sources whose edge to `x`
      is counted. */
  function IncomingFrom<V(==)>(g: Graph<V>, degType: string, ks: seq<V>, x: V): nat
    requires x in g.adj && forall k :: k in ks ==> k in g.adj
  {
    if ks == [] then 0
    else
      (if Counted(g, degType, ks[0], x) then Count(g.adj[ks[0]], x) else 0)
      + IncomingFrom(g, degType, ks[1..], x)
  }

  lemma {:induction false} TallyAppend<V(!new)>(g: Graph<V>, degType: string, degs: map<V, nat>, a: seq<(V, V)>, b: seq<(V, V)>)
    requires Lands(g, a) && Lands(g, b) && g.adj.Keys <= degs.Keys
    ensures Lands(g, a + b)
    ensures Tally(g, degType, degs, a + b) == Tally(g, degType, Tally(g, degType, degs, a), b)
    decreases |a|
  {
    if a != [] {
      assert (a + b)[1..] == a[1..] + b;
      var degs' := Bump(g, degType, degs, a[0]);
      assert Lands(g, a[1..]) by {
        forall e | e in a[1..] ensures e.1 in g.adj { assert e in a; }
      }
      TallyAppend(g, degType, degs', a[1..], b);
    } else {
      assert a + b == b;
    }
  }

  lemma {:induction false} TallyEdgesOf<V(!new)>(g: Graph<V>, degType: string, degs: map<V, nat>, u: V, ds: seq<V>)
    requires (forall d :: d in ds ==> d in g.adj) && g.adj.Keys <= degs.Keys
    ensures Lands(g, EdgesOf(u, ds))
    ensures forall x :: x in g.adj ==>
      Tally(g, degType, degs, EdgesOf(u, ds))[x] == degs[x] + (if Counted(g, degType, u, x) then Count(ds, x) else 0)
    decreases |ds|
  {
    EdgesFromLengthOf(u, ds);
    if ds != [] {
      var x := ds[0];
      var degs' := Bump(g, degType, degs, (u, x));
      TallyEdgesOf(g, degType, degs', u, ds[1..]);
      assert EdgesOf(u, ds) == [(u, x)] + EdgesOf(u, ds[1..]);
    }
  }

  /** Walking the edges of `ks` adds to each vertex exactly its reference count. */
  lemma {:induction false} TallyEdgesFrom<V(!new)>(g: Graph<V>, degType: string, degs: map<V, nat>, ks: seq<V>)
    requires Closed(g) && forall k :: k in ks ==> k in g.adj
    requires g.adj.Keys <= degs.Keys
    ensures Lands(g, EdgesFrom(g, ks))
    ensures forall x :: x in g.adj ==>
      Tally(g, degType, degs, EdgesFrom(g, ks))[x] == degs[x] + IncomingFrom(g, degType, ks, x)
    decreases |ks|
  {
    if ks != [] {
      var head := EdgesOf(ks[0], g.adj[ks[0]]);
      var tail := EdgesFrom(g, ks[1..]);
      TallyEdgesOf(g, degType, degs, ks[0], g.adj[ks[0]]);
      var mid := Tally(g, degType, degs, head);
      TallyEdgesFrom(g, degType, mid, ks[1..]);
      TallyAppend(g, degType, degs, head, tail);
    }
  }

  /** Every entry of `all_degrees(deg_type)`: the seed (the out-degree in
      modes `"out"` and `"inout"`, else 0) plus, in modes `"in"` and
      `"inout"`, the reference count of incoming edge occurrences. */
  lemma AllDegreesValues<V(!new)>(g: Graph<V>, degType: string)
    requires Valid(g) && (CountsIn(degType) ==> Closed(g))
    ensures forall i :: 0 <= i < |g.keys| ==>
      AllDegrees(g, degType)[i].1 ==
        (if CountsOut(degType) then |g.adj[g.keys[i]]| else 0)
        + (if CountsIn(degType) then IncomingFrom(g, degType, g.keys, g.keys[i]) else 0)
  {
    if CountsIn(degType) {
      var seeds := map v | v in g.adj :: Seed(g, degType, v);
      TallyEdgesFrom(g, degType, seeds, g.keys);
    }
  }

  lemma {:induction false} NoDupCount<T>(s: seq<T>, x: T)
    requires NoDup(s)
    ensures Count(s, x) <= 1
  {
    if s != [] {
      assert NoDup(s[1..]) by {
        forall i, j | 0 <= i < j < |s[1..]| ensures s[1..][i] != s[1..][j] {
          assert s[1..][i] == s[i + 1] && s[1..][j] == s[j + 1];
        }
      }
      NoDupCount(s[1..], x);
      if s[0] == x {
        CountPositive(s[1..], x);
      }
    }
  }

  /** In mode `"in"` the reference count is at least the number of
      distinct predecessors, with equality when no adjacency list
      repeats a destination. */
  lemma {:induction false} InCountVersusPredecessors<V(!new)>(g: Graph<V>, ks: seq<V>, x: V)
    requires x in g.adj && forall k :: k in ks ==> k in g.adj
    ensures IncomingFrom(g, "in", ks, x) >= |PredecessorsIn(g, ks, x)|
    ensures (forall u :: u in g.adj ==> NoDup(g.adj[u])) ==>
      IncomingFrom(g, "in", ks, x) == |PredecessorsIn(g, ks, x)|
  {
    if ks != [] {
      InCountVersusPredecessors(g, ks[1..], x);
      CountPositive(g.adj[ks[0]], x);
      if forall u :: u in g.adj ==> NoDup(g.adj[u]) {
        NoDupCount(g.adj[ks[0]], x);
      }
    }
  }

  /** `all_degrees("out")` is `out_degree`; `all_degrees("in")` counts every
      edge occurrence, so it is at least `in_degree` (which counts distinct
      sources) and equal to it when no edge is repeated; any other mode
      gives 0 everywhere. */
  lemma AllDegreesModes<V(!new)>(g: Graph<V>, degType: string)
    requires Valid(g) && (CountsIn(degType) ==> Closed(g))
    ensures degType == "out" ==>
      forall i :: 0 <= i < |g.keys| ==> AllDegrees(g, degType)[i].1 == OutDegree(g, g.keys[i])
    ensures degType == "in" ==>
      forall i :: 0 <= i < |g.keys| ==> AllDegrees(g, degType)[i].1 >= InDegree(g, g.keys[i])
    ensures degType == "in" && (forall u :: u in g.adj ==> NoDup(g.adj[u])) ==>
      forall i :: 0 <= i < |g.keys| ==> AllDegrees(g, degType)[i].1 == InDegree(g, g.keys[i])
    ensures !CountsIn(degType) && !CountsOut(degType) ==>
      forall i :: 0 <= i < |g.keys| ==> AllDegrees(g, degType)[i].1 == 0
  {
    AllDegreesValues(g, degType);
    if degType == "in" {
      forall i | 0 <= i < |g.keys|
        ensures AllDegrees(g, degType)[i].1 >= InDegree(g, g.keys[i])
        ensures (forall u :: u in g.adj ==> NoDup(g.adj[u])) ==> AllDegrees(g, degType)[i].1 == InDegree(g, g.keys[i])
      {
        InCountVersusPredecessors(g, g.keys, g.keys[i]);
      }
    }
  }

  /** With no two-way pair of vertices, the `"inout"` rule never skips an
      edge: the reference count is the `"in"` one. */
  lemma {:induction false} InoutWithoutMutualPairs<V(!new)>(g: Graph<V>, ks: seq<V>, x: V)
    requires x in g.adj && forall k :: k in ks ==> k in g.adj
    requires forall u :: u in ks && x in g.adj[u] ==> u !in g.adj[x]
    ensures IncomingFrom(g, "inout", ks, x) == IncomingFrom(g, "in", ks, x)
  {
    if ks != [] {
      InoutWithoutMutualPairs(g, ks[1..], x);
      CountPositive(g.adj[ks[0]], x);
    }
  }

  /** On a graph with no repeated edge and no two-way pair,
      `all_degrees("inout")` is `degree` at every vertex. */
  lemma InoutIsDegreeWithoutMutualPairs<V(!new)>(g: Graph<V>)
    requires Valid(g) && Closed(g)
    requires forall u :: u in g.adj ==> NoDup(g.adj[u])
    requires forall u, x :: u in g.adj && x in g.adj[u] ==> u !in g.adj[x]
    ensures forall i :: 0 <= i < |g.keys| ==> AllDegrees(g, "inout")[i].1 == Degree(g, g.keys[i])
  {
    AllDegreesValues(g, "inout");
    forall i | 0 <= i < |g.keys| ensures AllDegrees(g, "inout")[i].1 == Degree(g, g.keys[i]) {
      var v := g.keys[i];
      InoutWithoutMutualPairs(g, g.keys, v);
      InCountVersusPredecessors(g, g.keys, v);
      assert IncomingFrom(g, "in", g.keys, v) == |Predecessors(g, v)|;
      assert Degree(g, v) == |Predecessors(g, v)| + |g.adj[v]|;
    }
  }

  // ---------------------------------------------------------------------
  // highest_degrees: Python's stable `sorted(..., reverse = True)`

  /** Degrees never increase along `s`. */
  predicate SortedDesc<V>(s: seq<(V, int)>) {
    forall i, j :: 0 <= i < j < |s| ==> s[i].1 >= s[j].1
  }

  /** The entries of `s` with degree `k`, in order. */
  function WithDegree<V(!new)>(s: seq<(V, int)>, k: int): (r: seq<(V, int)>)
    ensures forall e :: e in r <==> e in s && e.1 == k
  {
    if s == [] then []
    else (if s[0].1 == k then [s[0]] else []) + WithDegree(s[1..], k)
  }

  /** Put `x` ahead of the first entry of `t` whose degree is not larger. */
  function Insert<V(!new)>(x: (V, int), t: seq<(V, int)>): (r: seq<(V, int)>)
    ensures |r| == |t| + 1
    ensures forall e :: e in r <==> e == x || e in t
  {
    if t == [] || t[0].1 <= x.1 then [x] + t else [t[0]] + Insert(x, t[1..])
  }

  /** Stable sort by non-increasing degree: the list `sorted(items, key =
      degree, reverse = True)` builds. */
  function SortByDegree<V(!new)>(s: seq<(V, int)>): (r: seq<(V, int)>)
    ensures |r| == |s|
  {
    if s == [] then [] else Insert(s[0], SortByDegree(s[1..]))
  }

  /** A head no smaller than anything after it keeps a sorted list sorted. */
  lemma ConsSorted<V(!new)>(h: (V, int), rest: seq<(V, int)>)
    requires SortedDesc(rest) && forall e :: e in rest ==> e.1 <= h.1
    ensures SortedDesc([h] + rest)
  {
    var r := [h] + rest;
    forall i, j | 0 <= i < j < |r| ensures r[i].1 >= r[j].1 {
      assert r[j] == rest[j - 1];
      if i > 0 { assert r[i] == rest[i - 1]; }
    }
  }

  lemma {:induction false} InsertSorted<V(!new)>(x: (V, int), t: seq<(V, int)>)
    requires SortedDesc(t)
    ensures SortedDesc(Insert(x, t))
  {
    if t == [] || t[0].1 <= x.1 {
      forall e | e in t ensures e.1 <= x.1 {
        var m :| 0 <= m < |t| && t[m] == e;
      }
      ConsSorted(x, t);
    } else {
      assert SortedDesc(t[1..]) by {
        forall i, j | 0 <= i < j < |t| - 1 ensures t[1..][i].1 >= t[1..][j].1 {
          assert t[1..][i] == t[i + 1] && t[1..][j] == t[j + 1];
        }
      }
      InsertSorted(x, t[1..]);
      forall e | e in Insert(x, t[1..]) ensures e.1 <= t[0].1 {
        if e != x {
          var m :| 0 <= m < |t[1..]| && t[1..][m] == e;
          assert t[m + 1] == e;
        }
      }
      ConsSorted(t[0], Insert(x, t[1..]));
    }
  }

  lemma {:induction false} InsertPermutes<V(!new)>(x: (V, int), t: seq<(V, int)>)
    ensures multiset(Insert(x, t)) == multiset(t) + multiset{x}
  {
    if !(t == [] || t[0].1 <= x.1) {
      InsertPermutes(x, t[1..]);
      assert Insert(x, t) == [t[0]] + Insert(x, t[1..]);
      assert t == [t[0]] + t[1..];
    }
  }

  lemma {:induction false} InsertGroups<V(!new)>(x: (V, int), t: seq<(V, int)>, k: int)
    ensures WithDegree(Insert(x, t), k) == (if x.1 == k then [x] else []) + WithDegree(t, k)
  {
    var r := Insert(x, t);
    if t == [] || t[0].1 <= x.1 {
      assert r[1..] == t;
      WithDegreeCons(r, k);
    } else {
      InsertGroups(x, t[1..], k);
      assert r[1..] == Insert(x, t[1..]);
      WithDegreeCons(r, k);
      WithDegreeCons(t, k);
    }
  }

  lemma {:induction false} SortByDegreeSorted<V(!new)>(s: seq<(V, int)>)
    ensures SortedDesc(SortByDegree(s))
  {
    if s != [] {
      SortByDegreeSorted(s[1..]);
      InsertSorted(s[0], SortByDegree(s[1..]));
    }
  }

  lemma {:induction false} SortByDegreePermutes<V(!new)>(s: seq<(V, int)>)
    ensures multiset(SortByDegree(s)) == multiset(s)
  {
    if s != [] {
      SortByDegreePermutes(s[1..]);
      InsertPermutes(s[0], SortByDegree(s[1..]));
      assert s == [s[0]] + s[1..];
    }
  }

  lemma {:induction false} SortByDegreeGroups<V(!new)>(s: seq<(V, int)>, k: int)
    ensures WithDegree(SortByDegree(s), k) == WithDegree(s, k)
  {
    if s != [] {
      SortByDegreeGroups(s[1..], k);
      InsertGroups(s[0], SortByDegree(s[1..]), k);
      WithDegreeCons(s, k);
    }
  }

  /** The sort orders by non-increasing degree, permutes its input and
      keeps each degree's entries in their original order. */
  lemma SortByDegreeFacts<V(!new)>(s: seq<(V, int)>)
    ensures SortedDesc(SortByDegree(s))
    ensures multiset(SortByDegree(s)) == multiset(s)
    ensures forall k :: WithDegree(SortByDegree(s), k) == WithDegree(s, k)
  {
    SortByDegreeSorted(s);
    SortByDegreePermutes(s);
    forall k ensures WithDegree(SortByDegree(s), k) == WithDegree(s, k) {
      SortByDegreeGroups(s, k);
    }
  }

  lemma SortedTail<V>(a: seq<(V, int)>)
    requires a != [] && SortedDesc(a)
    ensures SortedDesc(a[1..])
  {
    forall i, j | 0 <= i < j < |a| - 1 ensures a[1..][i].1 >= a[1..][j].1 {
      assert a[1..][i] == a[i + 1] && a[1..][j] == a[j + 1];
    }
  }

  /** Two sorted lists with the same groups start with the same entry. */
  lemma SameGroupsSameHead<V(!new)>(a: seq<(V, int)>, b: seq<(V, int)>)
    requires a != [] && b != [] && SortedDesc(a) && SortedDesc(b)
    requires WithDegree(a, a[0].1) == WithDegree(b, a[0].1)
    requires WithDegree(a, b[0].1) == WithDegree(b, b[0].1)
    ensures a[0] == b[0]
  {
    var k := a[0].1;
    assert a[0] in WithDegree(a, k);
    var i :| 0 <= i < |b| && b[i] == a[0];
    assert b[0] in WithDegree(b, b[0].1);
    var j :| 0 <= j < |a| && a[j] == b[0];
    assert b[0].1 == k;
    WithDegreeCons(a, k);
    WithDegreeCons(b, k);
    var w := WithDegree(a, k);
    assert w[0] == a[0];
    assert w[0] == b[0];
  }

  /** A non-empty list has a non-empty group. */
  lemma HeadInOwnGroup<V(!new)>(a: seq<(V, int)>)
    requires a != []
    ensures WithDegree(a, a[0].1) != []
  {
    assert a[0] in WithDegree(a, a[0].1);
  }

  /** One group of a list with a given head, in terms of its tail. */
  lemma WithDegreeCons<V(!new)>(a: seq<(V, int)>, j: int)
    requires a != []
    ensures a[0].1 == j ==> WithDegree(a, j) == [a[0]] + WithDegree(a[1..], j)
    ensures a[0].1 != j ==> WithDegree(a, j) == WithDegree(a[1..], j)
  {
  }

  /** Removing the same head from two lists with the same groups leaves
      lists with the same groups. */
  lemma SameGroupsTails<V(!new)>(a: seq<(V, int)>, b: seq<(V, int)>)
    requires a != [] && b != [] && a[0] == b[0]
    requires forall k :: WithDegree(a, k) == WithDegree(b, k)
    ensures forall k :: WithDegree(a[1..], k) == WithDegree(b[1..], k)
  {
    forall j ensures WithDegree(a[1..], j) == WithDegree(b[1..], j) {
      var wa, wb := WithDegree(a[1..], j), WithDegree(b[1..], j);
      var w := WithDegree(a, j);
      assert w == WithDegree(b, j);
      WithDegreeCons(a, j);
      WithDegreeCons(b, j);
      if j == a[0].1 {
        assert wa == w[1..] && wb == w[1..];
      }
    }
  }

  lemma {:induction false} SortedSameGroupsEqual<V(!new)>(a: seq<(V, int)>, b: seq<(V, int)>)
    requires SortedDesc(a) && SortedDesc(b)
    requires forall k :: WithDegree(a, k) == WithDegree(b, k)
    ensures a == b
    decreases |a| + |b|
  {
    if a == [] && b != [] {
      HeadInOwnGroup(b);
    } else if a != [] && b == [] {
      HeadInOwnGroup(a);
    } else if a != [] && b != [] {
      assert WithDegree(a, a[0].1) == WithDegree(b, a[0].1);
      assert WithDegree(a, b[0].1) == WithDegree(b, b[0].1);
      SameGroupsSameHead(a, b);
      SameGroupsTails(a, b);
      SortedTail(a);
      SortedTail(b);
      SortedSameGroupsEqual(a[1..], b[1..]);
      assert a == [a[0]] + a[1..] && b == [b[0]] + b[1..];
    }
  }

  /** The sort is Python's stable descending sort: its result is the only
      degree-non-increasing list that keeps the entries of each degree in
      their original order. */
  lemma StableSortIsUnique<V(!new)>(s: seq<(V, int)>, t: seq<(V, int)>)
    requires SortedDesc(t) && forall k :: WithDegree(t, k) == WithDegree(s, k)
    ensures t == SortByDegree(s)
  {
    SortByDegreeFacts(s);
    SortedSameGroupsEqual(t, SortByDegree(s));
  }

  /** The stop index of Python's slice `[:top]` on a list of length `n`. */
  function SliceStop(n: nat, top: int): (r: nat)
    ensures r <= n
  {
    if top >= 0 then (if top <= n then top else n)
    else if n + top >= 0 then n + top else 0
  }

  /** The entries `highest_degrees` keeps: the first `top` of the sorted
      items, under the slicing rules of `[:top]` (a negative `top` drops
      that many from the end). */
  function TopRanked<V(!new)>(items: seq<(V, int)>, top: int): (r: seq<(V, int)>)
    ensures top >= 0 ==> |r| == if top <= |items| then top else |items|
    ensures top < 0 ==> |r| == if |items| + top >= 0 then |items| + top else 0
  {
    SortByDegree(items)[..SliceStop(|items|, top)]
  }

  /** The kept entries come from the items, by non-increasing degree, and
      entries of equal degree keep their dictionary order. */
  lemma TopRankedOrdered<V(!new)>(items: seq<(V, int)>, top: int)
    ensures multiset(TopRanked(items, top)) <= multiset(items)
    ensures SortedDesc(TopRanked(items, top))
    ensures forall k :: WithDegree(TopRanked(items, top), k) <= WithDegree(items, k)
  {
    var sorted := SortByDegree(items);
    SortByDegreeFacts(items);
    var stop := SliceStop(|items|, top);
    var r := sorted[..stop];
    var rest := sorted[stop..];
    assert sorted == r + rest;
    forall k ensures WithDegree(r, k) <= WithDegree(items, k) {
      WithDegreeAppend(r, rest, k);
    }
  }

  /** No entry left out has a higher degree than any entry kept. */
  lemma TopRankedExcludedNoHigher<V(!new)>(items: seq<(V, int)>, top: int)
    ensures forall e, j :: e in multiset(items) - multiset(TopRanked(items, top)) && 0 <= j < |TopRanked(items, top)| ==>
      e.1 <= TopRanked(items, top)[j].1
  {
    var sorted := SortByDegree(items);
    SortByDegreeSorted(items);
    SortByDegreePermutes(items);
    var stop := SliceStop(|items|, top);
    var r := sorted[..stop];
    var rest := sorted[stop..];
    assert sorted == r + rest;
    assert multiset(items) == multiset(r) + multiset(rest);
    SortedSplit(sorted, stop);
    forall e, j | e in multiset(items) - multiset(r) && 0 <= j < |r| ensures e.1 <= r[j].1 {
      assert e in multiset(rest);
      assert r[j] == sorted[j];
    }
  }

  /** In a sorted list, everything from `stop` on is no higher than
      anything before it. */
  lemma SortedSplit<V>(sorted: seq<(V, int)>, stop: nat)
    requires SortedDesc(sorted) && stop <= |sorted|
    ensures forall e, j :: e in sorted[stop..] && 0 <= j < stop ==> e.1 <= sorted[j].1
  {
    forall e, j | e in sorted[stop..] && 0 <= j < stop ensures e.1 <= sorted[j].1 {
      var i :| 0 <= i < |sorted[stop..]| && sorted[stop..][i] == e;
      assert sorted[stop + i] == e;
    }
  }

  lemma {:induction false} WithDegreeAppend<V(!new)>(a: seq<(V, int)>, b: seq<(V, int)>, k: int)
    ensures WithDegree(a + b, k) == WithDegree(a, k) + WithDegree(b, k)
  {
    if a == [] {
      assert a + b == b;
    } else {
      assert (a + b)[1..] == a[1..] + b;
      WithDegreeAppend(a[1..], b, k);
    }
  }

  /** The dictionary `highest_degrees` ranks: the one passed in, or
      `all_degrees(deg_type)` when none is. */
  function RankedItems<V(==,!new)>(g: Graph<V>, allDeg: Option<seq<(V, int)>>, degType: string): seq<(V, int)>
    requires allDeg.None? ==> Valid(g) && (CountsIn(degType) ==> Closed(g))
  {
    if allDeg.None? then AllDegrees(g, degType) else allDeg.value
  }

  /** `highest_degrees(all_deg, deg_type, top)`: the vertices of the `top`
      entries of highest degree, ties in dictionary order. */
  function HighestDegrees<V(==,!new)>(g: Graph<V>, allDeg: Option<seq<(V, int)>> := None,
                                      degType: string := "inout", top: int := 10): (r: seq<V>)
    requires allDeg.None? ==> Valid(g) && (CountsIn(degType) ==> Closed(g))
    ensures top >= 0 ==> |r| <= top
    ensures |r| <= |RankedItems(g, allDeg, degType)|
    ensures forall v :: v in r ==> v in Heads(RankedItems(g, allDeg, degType))
    ensures allDeg.None? ==> forall v :: v in r ==> v in g.adj
  {
    var items := RankedItems(g, allDeg, degType);
    var ranked := TopRanked(items, top);
    TopRankedOrdered(items, top);
    forall v | v in Heads(ranked) ensures v in Heads(items) {
      var i :| 0 <= i < |ranked| && Heads(ranked)[i] == v;
      assert ranked[i] in multiset(items);
      var j :| 0 <= j < |items| && items[j] == ranked[i];
      assert Heads(items)[j] == v;
    }
    Heads(ranked)
  }

  // ---------------------------------------------------------------------
  // prob_degree

  /** Every vertex with its degree. */
  function DegreeTable<V(==,!new)>(g: Graph<V>): (m: map<V, nat>)
    requires Valid(g)
    ensures m.Keys == g.adj.Keys
    ensures forall v :: v in m ==> m[v] == Degree(g, v)
  {
    map v | v in g.adj :: Degree(g, v)
  }

  /** The values `deg` gives the entries of `ks`, in order: the list
      `[self.degree(i) for i in ks]`. */
  function Lookup<V>(ks: seq<V>, deg: map<V, nat>): (r: seq<nat>)
    requires forall k :: k in ks ==> k in deg
    ensures |r| == |ks| && forall i :: 0 <= i < |ks| ==> r[i] == deg[ks[i]]
  {
    if ks == [] then [] else [deg[ks[0]]] + Lookup(ks[1..], deg)
  }

  /** `prob_degree`: each degree that occurs mapped to how often it occurs. */
  function ProbDegree<V(==,!new)>(g: Graph<V>): (r: map<nat, nat>)
    requires Valid(g)
    ensures forall k :: k in r <==> exists v :: v in g.adj && Degree(g, v) == k
    ensures forall k :: k in r ==> r[k] >= 1
  {
    var deg := DegreeTable(g);
    var ds := Lookup(Nodes(g), deg);
    forall k | k in Elems(ds) ensures Count(ds, k) >= 1 && exists v :: v in g.adj && Degree(g, v) == k {
      CountPositive(ds, k);
      var i :| 0 <= i < |ds| && ds[i] == k;
      assert g.keys[i] in g.adj && Degree(g, g.keys[i]) == k;
    }
    forall k | exists v :: v in g.adj && Degree(g, v) == k ensures k in Elems(ds) {
      var v :| v in g.adj && Degree(g, v) == k;
      var i :| 0 <= i < |g.keys| && g.keys[i] == v;
      assert ds[i] == k;
    }
    map k | k in Elems(ds) :: Count(ds, k)
  }

  /** The entries of `ks` that `deg` maps to `k`. */
  function LevelSet<V>(ks: seq<V>, deg: map<V, nat>, k: nat): set<V>
    requires forall x :: x in ks ==> x in deg
  {
    set v | v in ks && deg[v] == k
  }

  /** The vertices of `ks` with value `k`: the head counts once, if at all. */
  lemma LevelSetCons<V(!new)>(ks: seq<V>, deg: map<V, nat>, k: nat)
    requires ks != [] && NoDup(ks) && forall x :: x in ks ==> x in deg
    ensures |LevelSet(ks, deg, k)| == |LevelSet(ks[1..], deg, k)| + (if deg[ks[0]] == k then 1 else 0)
  {
    NoDupTail(ks);
    var tail := LevelSet(ks[1..], deg, k);
    var all := LevelSet(ks, deg, k);
    var here := if deg[ks[0]] == k then {ks[0]} else {};
    assert all == tail + here by {
      forall v ensures v in all <==> v in tail + here {
        assert v in ks <==> v == ks[0] || v in ks[1..];
      }
    }
    assert tail * here == {};
  }

  lemma {:induction false} CountLookup<V(!new)>(ks: seq<V>, deg: map<V, nat>, k: nat)
    requires NoDup(ks) && forall x :: x in ks ==> x in deg
    ensures Count(Lookup(ks, deg), k) == |LevelSet(ks, deg, k)|
  {
    if ks == [] {
      assert LevelSet(ks, deg, k) == {};
    } else {
      NoDupTail(ks);
      CountLookup(ks[1..], deg, k);
      LevelSetCons(ks, deg, k);
      assert Lookup(ks, deg)[1..] == Lookup(ks[1..], deg);
    }
  }

  lemma SameLevelSet<V(!new)>(g: Graph<V>, k: nat)
    requires Valid(g)
    ensures LevelSet(g.keys, DegreeTable(g), k) == (set v | v in g.adj && Degree(g, v) == k)
  {
    var deg := DegreeTable(g);
    forall v ensures (v in g.keys && deg[v] == k) <==> (v in g.adj && Degree(g, v) == k) {
      if v in g.adj {
        assert deg[v] == Degree(g, v);
      }
    }
  }

  /** Each frequency `prob_degree` reports is the number of vertices with that degree. */
  lemma ProbDegreeCounts<V(!new)>(g: Graph<V>)
    requires Valid(g)
    ensures forall k :: k in ProbDegree(g) ==> ProbDegree(g)[k] == |set v | v in g.adj && Degree(g, v) == k|
  {
    var deg := DegreeTable(g);
    var ds := Lookup(Nodes(g), deg);
    forall k | k in ProbDegree(g) ensures ProbDegree(g)[k] == |set v | v in g.adj && Degree(g, v) == k| {
      assert ProbDegree(g)[k] == Count(ds, k);
      CountLookup(g.keys, deg, k);
      SameLevelSet(g, k);
    }
  }
}
