/** The `MyGraph` class: a directed multigraph stored as a dictionary from
    each vertex to the ordered list of its destinations. */
module Graphs {
  import opened Seqs

  /** The dictionary behind a `MyGraph`: `keys` is its key (insertion)
      order and `adj` maps every key to its adjacency list, repeated
      destinations included. */
  datatype Graph<V> = Graph(keys: seq<V>, adj: map<V, seq<V>>)

  /** What every Python dictionary satisfies: keys are distinct and are
      exactly the domain of `adj`. */
  predicate Valid<V(==,!new)>(g: Graph<V>) {
    NoDup(g.keys) && (forall v :: v in g.keys ==> v in g.adj) && (forall v :: v in g.adj ==> v in g.keys)
  }

  /** Every destination is itself a vertex. `add_edge` keeps this; the
      constructor does not check it; degrees and traversals rely on it. */
  predicate Closed<V(==,!new)>(g: Graph<V>) {
    forall u, y :: u in g.adj && y in g.adj[u] ==> y in g.adj
  }

  /** `MyGraph(g)`: wraps the given dictionary as it is, without checking
      that destinations are vertices. `Create()` is `MyGraph()`, whose
      default is the empty dictionary. */
  function Create<V(==,!new)>(entries: seq<(V, seq<V>)> := []): (g: Graph<V>)
    requires NoDup(Heads(entries))
    ensures Valid(g)
    ensures g.keys == Heads(entries)
    ensures forall i :: 0 <= i < |entries| ==> g.adj[entries[i].0] == entries[i].1
    decreases |entries|
  {
    if entries == [] then Graph([], map[])
    else
      var init := entries[..|entries| - 1];
      var last := entries[|entries| - 1];
      assert Heads(entries) == Heads(init) + [last.0];
      assert last.0 !in Heads(init) by {
        forall i | 0 <= i < |init| ensures Heads(init)[i] != last.0 {
          assert Heads(entries)[i] != Heads(entries)[|entries| - 1];
        }
      }
      assert NoDup(Heads(init)) by {
        forall i, j | 0 <= i < j < |init| ensures Heads(init)[i] != Heads(init)[j] {
          assert Heads(entries)[i] != Heads(entries)[j];
        }
      }
      var g0 := Create(init);
      var g := Graph(g0.keys + [last.0], g0.adj[last.0 := last.1]);
      assert NoDup(g.keys) by {
        forall i, j | 0 <= i < j < |g.keys| ensures g.keys[i] != g.keys[j] {
          if j == |g0.keys| { assert g.keys[i] in g0.keys; }
        }
      }
      assert forall i :: 0 <= i < |entries| ==> g.adj[entries[i].0] == entries[i].1 by {
        forall i | 0 <= i < |entries| ensures g.adj[entries[i].0] == entries[i].1 {
          if i < |init| {
            assert entries[i].0 == Heads(init)[i] && entries[i] == init[i];
          }
        }
      }
      g
  }

  /** The wrapped dictionary is closed exactly when every listed
      destination is one of its keys. */
  lemma CreateClosedIff<V(!new)>(entries: seq<(V, seq<V>)>)
    requires NoDup(Heads(entries))
    ensures Closed(Create(entries)) <==>
      forall i, j :: 0 <= i < |entries| && 0 <= j < |entries[i].1| ==> entries[i].1[j] in Heads(entries)
  {
    var g := Create(entries);
    var ks := Heads(entries);
    if Closed(g) {
      forall i, j | 0 <= i < |entries| && 0 <= j < |entries[i].1|
        ensures entries[i].1[j] in ks
      {
        assert ks[i] in g.adj;
        assert entries[i].1[j] in g.adj[entries[i].0];
      }
    }
    if forall i, j :: 0 <= i < |entries| && 0 <= j < |entries[i].1| ==> entries[i].1[j] in ks {
      forall u, y | u in g.adj && y in g.adj[u] ensures y in g.adj {
        var i :| 0 <= i < |ks| && ks[i] == u;
        var j :| 0 <= j < |entries[i].1| && entries[i].1[j] == y;
      }
    }
  }

  /** `get_nodes`: the vertices in insertion order. */
  function Nodes<V(==,!new)>(g: Graph<V>): (r: seq<V>)
    requires Valid(g)
    ensures NoDup(r)
    ensures forall v :: v in r <==> v in g.adj
  {
    g.keys
  }

  /** `get_nodes` lists the vertices in insertion order: the wrapped
      dictionary's keys first, then each vertex that `add_vertex` or
      `add_edge` introduces, at the end. */
  lemma NodesInsertionOrder<V(!new)>(entries: seq<(V, seq<V>)>, g: Graph<V>, v: V, o: V, d: V)
    requires NoDup(Heads(entries)) && Valid(g)
    ensures Nodes(Create(entries)) == Heads(entries)
    ensures Nodes(AddVertex(g, v)) == Nodes(g) + (if v in g.adj then [] else [v])
    ensures Nodes(AddEdge(g, o, d)) == Nodes(g) + (if o in g.adj then [] else [o])
                                                + (if d in g.adj || d == o then [] else [d])
  {
  }

  /** One `(o, d)` pair for every entry `d` of `ds`, in order. */
  function EdgesOf<V>(o: V, ds: seq<V>): seq<(V, V)>
  {
    if ds == [] then [] else [(o, ds[0])] + EdgesOf(o, ds[1..])
  }

  /** The pairs produced by the nested loop of `get_edges` over the keys `ks`. */
  function EdgesFrom<V(==,!new)>(g: Graph<V>, ks: seq<V>): seq<(V, V)>
    requires forall k :: k in ks ==> k in g.adj
  {
    if ks == [] then [] else EdgesOf(ks[0], g.adj[ks[0]]) + EdgesFrom(g, ks[1..])
  }

  /** `get_edges`: every `(origin, destination)` pair, key order first, then list order. */
  function Edges<V(==,!new)>(g: Graph<V>): seq<(V, V)>
    requires Valid(g)
  {
    EdgesFrom(g, g.keys)
  }

  /** Sum of the adjacency-list lengths of the keys `ks`. */
  function OutDegreeSum<V(==,!new)>(g: Graph<V>, ks: seq<V>): nat
    requires forall k :: k in ks ==> k in g.adj
  {
    if ks == [] then 0 else |g.adj[ks[0]]| + OutDegreeSum(g, ks[1..])
  }

  /** `size`: the number of vertices and the number of edges. */
  function Size<V(==,!new)>(g: Graph<V>): (r: (nat, nat))
    requires Valid(g)
  {
    (|Nodes(g)|, |Edges(g)|)
  }

  lemma {:induction false} CountEdgesOf<V(!new)>(o: V, ds: seq<V>, e: (V, V))
    ensures Count(EdgesOf(o, ds), e) == if e.0 == o then Count(ds, e.1) else 0
  {
    if ds != [] {
      CountEdgesOf(o, ds[1..], e);
    }
  }

  lemma {:induction false} CountEdgesFrom<V(!new)>(g: Graph<V>, ks: seq<V>, o: V, d: V)
    requires forall k :: k in ks ==> k in g.adj
    requires NoDup(ks)
    ensures Count(EdgesFrom(g, ks), (o, d)) == if o in ks then Count(g.adj[o], d) else 0
  {
    if ks != [] {
      assert NoDup(ks[1..]) by {
        forall i, j | 0 <= i < j < |ks[1..]| ensures ks[1..][i] != ks[1..][j] {
          assert ks[1..][i] == ks[i + 1] && ks[1..][j] == ks[j + 1];
        }
      }
      CountAppend(EdgesOf(ks[0], g.adj[ks[0]]), EdgesFrom(g, ks[1..]), (o, d));
      CountEdgesOf(ks[0], g.adj[ks[0]], (o, d));
      CountEdgesFrom(g, ks[1..], o, d);
      assert o == ks[0] ==> o !in ks[1..];
    }
  }

  /** `get_edges` lists each edge as often as its destination is repeated
      in the origin's list, and lists nothing else. */
  lemma EdgeMultiplicity<V(!new)>(g: Graph<V>, o: V, d: V)
    requires Valid(g)
    ensures Count(Edges(g), (o, d)) == if o in g.adj then Count(g.adj[o], d) else 0
    ensures (o, d) in Edges(g) <==> o in g.adj && d in g.adj[o]
  {
    CountEdgesFrom(g, g.keys, o, d);
    CountPositive(Edges(g), (o, d));
    if o in g.adj {
      CountPositive(g.adj[o], d);
    }
  }

  /** The pairs of `es` whose origin is `o`, in their order in `es`. */
  function WithOrigin<V(==)>(es: seq<(V, V)>, o: V): seq<(V, V)>
  {
    if es == [] then [] else (if es[0].0 == o then [es[0]] else []) + WithOrigin(es[1..], o)
  }

  /** Every origin of `es` is among `ks`, and origins never go back in the
      order of `ks`: the pairs come in blocks, one block per key. */
  predicate OriginsInOrder<V(==)>(es: seq<(V, V)>, ks: seq<V>) {
    && (forall i :: 0 <= i < |es| ==> es[i].0 in ks)
    && (forall i, j :: 0 <= i < j < |es| ==> IndexOf(ks, es[i].0) <= IndexOf(ks, es[j].0))
  }

  /** `get_edges` walks the keys in insertion order and, within one key,
      its list in order: its origins follow the key order, and the pairs
      of any one origin `o` are exactly `o`'s list, in order. */
  lemma EdgesOrder<V(!new)>(g: Graph<V>)
    requires Valid(g)
    ensures OriginsInOrder(Edges(g), g.keys)
    ensures forall o :: o in g.adj ==> WithOrigin(Edges(g), o) == EdgesOf(o, g.adj[o])
  {
    EdgesFromOrigins(g, g.keys);
    forall o | o in g.adj ensures WithOrigin(Edges(g), o) == EdgesOf(o, g.adj[o]) {
      WithOriginEdgesFrom(g, g.keys, o);
    }
  }

  lemma {:induction false} EdgesOfAt<V>(o: V, ds: seq<V>)
    ensures |EdgesOf(o, ds)| == |ds|
    ensures forall i :: 0 <= i < |ds| ==> EdgesOf(o, ds)[i] == (o, ds[i])
  {
    if ds != [] {
      EdgesOfAt(o, ds[1..]);
    }
  }

  lemma {:induction false} WithOriginAppend<V>(a: seq<(V, V)>, b: seq<(V, V)>, o: V)
    ensures WithOrigin(a + b, o) == WithOrigin(a, o) + WithOrigin(b, o)
  {
    if a == [] {
      assert a + b == b;
    } else {
      var h := if a[0].0 == o then [a[0]] else [];
      assert (a + b)[0] == a[0] && (a + b)[1..] == a[1..] + b;
      assert WithOrigin(a + b, o) == h + WithOrigin(a[1..] + b, o);
      WithOriginAppend(a[1..], b, o);
      assert WithOrigin(a, o) == h + WithOrigin(a[1..], o);
    }
  }

  lemma {:induction false} WithOriginEdgesOf<V>(u: V, ds: seq<V>, o: V)
    ensures WithOrigin(EdgesOf(u, ds), o) == if u == o then EdgesOf(u, ds) else []
  {
    if ds != [] {
      var es := EdgesOf(u, ds);
      assert es[0] == (u, ds[0]) && es[1..] == EdgesOf(u, ds[1..]);
      WithOriginEdgesOf(u, ds[1..], o);
    }
  }

  lemma {:induction false} WithOriginEdgesFrom<V(!new)>(g: Graph<V>, ks: seq<V>, o: V)
    requires forall k :: k in ks ==> k in g.adj
    requires NoDup(ks)
    ensures WithOrigin(EdgesFrom(g, ks), o) == if o in ks then EdgesOf(o, g.adj[o]) else []
  {
    if ks != [] {
      NoDupTail(ks);
      WithOriginAppend(EdgesOf(ks[0], g.adj[ks[0]]), EdgesFrom(g, ks[1..]), o);
      WithOriginEdgesOf(ks[0], g.adj[ks[0]], o);
      WithOriginEdgesFrom(g, ks[1..], o);
      if o == ks[0] {
        assert EdgesOf(o, g.adj[o]) + [] == EdgesOf(o, g.adj[o]);
      }
    }
  }

  lemma {:induction false} EdgesFromOrigins<V(!new)>(g: Graph<V>, ks: seq<V>)
    requires forall k :: k in ks ==> k in g.adj
    requires NoDup(ks)
    ensures OriginsInOrder(EdgesFrom(g, ks), ks)
  {
    if ks != [] {
      NoDupTail(ks);
      var a := EdgesOf(ks[0], g.adj[ks[0]]);
      var b := EdgesFrom(g, ks[1..]);
      var e := a + b;
      EdgesOfAt(ks[0], g.adj[ks[0]]);
      EdgesFromOrigins(g, ks[1..]);
      forall i | 0 <= i < |e| ensures e[i].0 in ks {
        if i >= |a| {
          assert e[i] == b[i - |a|];
        }
      }
      forall i, j | 0 <= i < j < |e| ensures IndexOf(ks, e[i].0) <= IndexOf(ks, e[j].0) {
        if i >= |a| {
          var x, y := b[i - |a|].0, b[j - |a|].0;
          assert e[i].0 == x && e[j].0 == y;
          assert x != ks[0] && y != ks[0];
          assert IndexOf(ks[1..], x) <= IndexOf(ks[1..], y);
        } else {
          assert e[i].0 == ks[0];
        }
      }
    }
  }

  lemma {:induction false} EdgesFromLength<V(!new)>(g: Graph<V>, ks: seq<V>)
    requires forall k :: k in ks ==> k in g.adj
    ensures |EdgesFrom(g, ks)| == OutDegreeSum(g, ks)
  {
    if ks != [] {
      EdgesFromLengthOf(ks[0], g.adj[ks[0]]);
      EdgesFromLength(g, ks[1..]);
    }
  }

  lemma {:induction false} EdgesFromLengthOf<V(!new)>(o: V, ds: seq<V>)
    ensures |EdgesOf(o, ds)| == |ds|
  {
    if ds != [] {
      EdgesFromLengthOf(o, ds[1..]);
    }
  }

  /** `size()` is the number of distinct vertices and the sum of all
      adjacency-list lengths, repeated edges included. */
  lemma SizeCounts<V(!new)>(g: Graph<V>)
    requires Valid(g)
    ensures Size(g).0 == |g.adj.Keys|
    ensures Size(g).1 == OutDegreeSum(g, g.keys)
  {
    NoDupCard(g.keys);
    assert Elems(g.keys) == g.adj.Keys;
    EdgesFromLength(g, g.keys);
  }

  /** `add_vertex`: adds `v` with an empty list unless it is already a key. */
  function AddVertex<V(==,!new)>(g: Graph<V>, v: V): (r: Graph<V>)
    requires Valid(g)
    ensures Valid(r) && v in r.adj
    ensures v in g.adj ==> r == g
    ensures v !in g.adj ==> r.keys == g.keys + [v] && r.adj[v] == []
    ensures forall u :: u in g.adj ==> u in r.adj && r.adj[u] == g.adj[u]
    ensures forall u :: u in r.adj ==> u in g.adj || u == v
    ensures Closed(g) ==> Closed(r)
  {
    if v in g.keys then g else Graph(g.keys + [v], g.adj[v := []])
  }

  /** Adding a vertex a second time changes nothing. */
  lemma AddVertexIdempotent<V(!new)>(g: Graph<V>, v: V)
    requires Valid(g)
    ensures AddVertex(AddVertex(g, v), v) == AddVertex(g, v)
    ensures Size(AddVertex(g, v)).0 == Size(g).0 + (if v in g.adj then 0 else 1)
  {
  }

  /** `add_edge`: adds the missing endpoints as vertices (origin first),
      then appends `d` to the list of `o`. */
  function AddEdge<V(==,!new)>(g: Graph<V>, o: V, d: V): (r: Graph<V>)
    requires Valid(g)
    ensures Valid(r) && o in r.adj && d in r.adj
    ensures r.keys == g.keys + (if o in g.adj then [] else [o])
                             + (if d in g.adj || d == o then [] else [d])
    ensures r.adj[o] == (if o in g.adj then g.adj[o] else []) + [d]
    ensures forall u :: u in r.adj && u != o ==> r.adj[u] == if u in g.adj then g.adj[u] else []
    ensures Closed(g) ==> Closed(r)
  {
    var nodes := g.keys;
    var g1 := if o !in nodes then AddVertex(g, o) else g;
    var g2 := if d !in nodes then AddVertex(g1, d) else g1;
    assert g1.keys == g.keys + (if o in g.adj then [] else [o]);
    assert g2.keys == g1.keys + (if d in g.adj || d == o then [] else [d]);
    AppendEdge(g2, o, d)
  }

  /** The last step of `add_edge`, once both ends are vertices: `d` goes
      at the end of the list of `o`. */
  function AppendEdge<V(==,!new)>(g: Graph<V>, o: V, d: V): (r: Graph<V>)
    requires Valid(g) && o in g.adj && d in g.adj
    ensures Valid(r) && r.keys == g.keys && r.adj.Keys == g.adj.Keys
    ensures r.adj[o] == g.adj[o] + [d]
    ensures forall u :: u in g.adj && u != o ==> r.adj[u] == g.adj[u]
    ensures Closed(g) ==> Closed(r)
  {
    Graph(g.keys, g.adj[o := g.adj[o] + [d]])
  }

  /** `get_successors`: a copy of the adjacency list of `v`, which lists,
      in order, the destinations of the `get_edges` pairs leaving `v`. */
  function Successors<V(==,!new)>(g: Graph<V>, v: V): (r: seq<V>)
    requires Valid(g) && v in g.adj
    ensures forall x :: Count(r, x) == Count(Edges(g), (v, x))
    ensures EdgesOf(v, r) == WithOrigin(Edges(g), v)
  {
    forall x ensures Count(g.adj[v], x) == Count(Edges(g), (v, x)) {
      EdgeMultiplicity(g, v, x);
    }
    EdgesOrder(g);
    g.adj[v]
  }

  /** The keys among `ks` whose list contains `v`, in order. */
  function PredecessorsIn<V(==,!new)>(g: Graph<V>, ks: seq<V>, v: V): (r: seq<V>)
    requires forall k :: k in ks ==> k in g.adj
    ensures IsSubseq(r, ks)
    ensures forall u :: u in r <==> u in ks && v in g.adj[u]
  {
    if ks == [] then []
    else if v in g.adj[ks[0]] then [ks[0]] + PredecessorsIn(g, ks[1..], v)
    else PredecessorsIn(g, ks[1..], v)
  }

  /** `get_predecessors`: the vertices with an edge into `v`, each once,
      in insertion order. `v` need not be a vertex. */
  function Predecessors<V(==,!new)>(g: Graph<V>, v: V): (r: seq<V>)
    requires Valid(g)
    ensures IsSubseq(r, g.keys) && NoDup(r)
    ensures forall u :: u in r <==> u in g.adj && v in g.adj[u]
  {
    var r := PredecessorsIn(g, g.keys, v);
    SubseqNoDup(r, g.keys);
    r
  }

  /** `get_adjacents`: the predecessors, then every successor not already listed. */
  function Adjacents<V(==,!new)>(g: Graph<V>, v: V): (r: seq<V>)
    requires Valid(g) && v in g.adj
    ensures Predecessors(g, v) <= r
    ensures NoDup(r)
    ensures forall u :: u in r <==> (u in g.adj && v in g.adj[u]) || u in g.adj[v]
    ensures FirstSeenOrder(r[|Predecessors(g, v)|..], g.adj[v])
  {
    var pred := Predecessors(g, v);
    var extra := Unseen(Successors(g, v), pred);
    UnseenFirstOrder(g.adj[v], pred);
    assert (pred + extra)[|pred|..] == extra;
    assert NoDup(pred + extra) by {
      forall i, j | 0 <= i < j < |pred + extra| ensures (pred + extra)[i] != (pred + extra)[j] {
        if j >= |pred| && i < |pred| {
          assert (pred + extra)[j] in extra;
        }
      }
    }
    pred + extra
  }

  /** `out_degree`: the length of the list of `v`, which is the number of
      pairs of `get_edges` whose origin is `v`. */
  function OutDegree<V(==,!new)>(g: Graph<V>, v: V): (r: nat)
    requires Valid(g) && v in g.adj
    ensures r == Count(Heads(Edges(g)), v)
  {
    CountHeadsEdgesFrom(g, g.keys, v);
    |g.adj[v]|
  }

  lemma {:induction false} CountHeadsEdgesOf<V(!new)>(o: V, ds: seq<V>, v: V)
    ensures Count(Heads(EdgesOf(o, ds)), v) == if o == v then |ds| else 0
  {
    if ds != [] {
      var rest := EdgesOf(o, ds[1..]);
      assert Heads(EdgesOf(o, ds))[1..] == Heads(rest);
      CountHeadsEdgesOf(o, ds[1..], v);
    }
  }

  lemma {:induction false} CountHeadsEdgesFrom<V(!new)>(g: Graph<V>, ks: seq<V>, v: V)
    requires forall k :: k in ks ==> k in g.adj
    requires NoDup(ks)
    ensures Count(Heads(EdgesFrom(g, ks)), v) == if v in ks then |g.adj[v]| else 0
  {
    if ks != [] {
      NoDupTail(ks);
      var first := EdgesOf(ks[0], g.adj[ks[0]]);
      HeadsAppend(first, EdgesFrom(g, ks[1..]));
      CountAppend(Heads(first), Heads(EdgesFrom(g, ks[1..])), v);
      CountHeadsEdgesOf(ks[0], g.adj[ks[0]], v);
      CountHeadsEdgesFrom(g, ks[1..], v);
    }
  }

  /** `in_degree`: the length of the list of dictionary items whose
      adjacency list contains `v`, i.e. the number of distinct source
      vertices, not the number of incoming edges. */
  function InDegree<V(==,!new)>(g: Graph<V>, v: V): (r: nat)
    requires Valid(g)
    ensures r == |set u | u in g.adj && v in g.adj[u]|
  {
    var pred := Predecessors(g, v);
    NoDupCard(pred);
    assert Elems(pred) == set u | u in g.adj && v in g.adj[u];
    |pred|
  }

  /** `degree`: in-degree plus out-degree. */
  function Degree<V(==,!new)>(g: Graph<V>, v: V): (r: nat)
    requires Valid(g) && v in g.adj
    ensures r == |set u | u in g.adj && v in g.adj[u]| + |g.adj[v]|
    ensures r == |Predecessors(g, v)| + |Successors(g, v)|
  {
    InDegree(g, v) + OutDegree(g, v)
  }

  /** Each `add_edge(o, d)` makes `o` one edge longer, `o` and `d` vertices,
      the whole graph one edge larger, and leaves the other lists alone. */
  lemma AddEdgeGrowsByOne<V(!new)>(g: Graph<V>, o: V, d: V)
    requires Valid(g)
    ensures OutDegree(AddEdge(g, o, d), o) == (if o in g.adj then OutDegree(g, o) else 0) + 1
    ensures Size(AddEdge(g, o, d)).1 == Size(g).1 + 1
    ensures d in Successors(AddEdge(g, o, d), o)
  {
    var r := AddEdge(g, o, d);
    SizeCounts(g);
    SizeCounts(r);
    AddEdgeOutDegreeSum(g, o, d);
  }

  lemma AddEdgeOutDegreeSum<V(!new)>(g: Graph<V>, o: V, d: V)
    requires Valid(g)
    ensures OutDegreeSum(AddEdge(g, o, d), AddEdge(g, o, d).keys) == OutDegreeSum(g, g.keys) + 1
  {
    var g1 := if o !in g.keys then AddVertex(g, o) else g;
    var g2 := if d !in g.keys then AddVertex(g1, d) else g1;
    AddVertexSum(g, o);
    AddVertexSum(g1, d);
    AppendEdgeSum(g2, o, d);
  }

  /** A new vertex brings an empty list: the edge total is unchanged. */
  lemma AddVertexSum<V(!new)>(g: Graph<V>, v: V)
    requires Valid(g)
    ensures OutDegreeSum(AddVertex(g, v), AddVertex(g, v).keys) == OutDegreeSum(g, g.keys)
  {
    if v !in g.adj {
      var r := AddVertex(g, v);
      OutDegreeSumAppend(r, g.keys, [v]);
      OutDegreeSumSame(g, r, g.keys);
      OutDegreeSumEmpty(r, [v]);
    }
  }

  /** Appending one destination adds one to the edge total. */
  lemma AppendEdgeSum<V(!new)>(g: Graph<V>, o: V, d: V)
    requires Valid(g) && o in g.adj && d in g.adj
    ensures OutDegreeSum(AppendEdge(g, o, d), g.keys) == OutDegreeSum(g, g.keys) + 1
  {
    OutDegreeSumBump(g, AppendEdge(g, o, d), g.keys, o);
  }

  lemma {:induction false} OutDegreeSumAppend<V(!new)>(g: Graph<V>, a: seq<V>, b: seq<V>)
    requires forall k :: k in a + b ==> k in g.adj
    ensures OutDegreeSum(g, a + b) == OutDegreeSum(g, a) + OutDegreeSum(g, b)
  {
    if a == [] {
      assert a + b == b;
    } else {
      assert (a + b)[1..] == a[1..] + b;
      OutDegreeSumAppend(g, a[1..], b);
    }
  }

  lemma {:induction false} OutDegreeSumEmpty<V(!new)>(g: Graph<V>, ks: seq<V>)
    requires forall k :: k in ks ==> k in g.adj && g.adj[k] == []
    ensures OutDegreeSum(g, ks) == 0
  {
    if ks != [] {
      OutDegreeSumEmpty(g, ks[1..]);
    }
  }

  lemma {:induction false} OutDegreeSumSame<V(!new)>(g: Graph<V>, h: Graph<V>, ks: seq<V>)
    requires forall k :: k in ks ==> k in g.adj && k in h.adj && g.adj[k] == h.adj[k]
    ensures OutDegreeSum(g, ks) == OutDegreeSum(h, ks)
  {
    if ks != [] {
      OutDegreeSumSame(g, h, ks[1..]);
    }
  }

  lemma {:induction false} OutDegreeSumBump<V(!new)>(g: Graph<V>, h: Graph<V>, ks: seq<V>, o: V)
    requires NoDup(ks) && o in ks
    requires forall k :: k in ks ==> k in g.adj && k in h.adj
    requires forall k :: k in ks && k != o ==> g.adj[k] == h.adj[k]
    requires |h.adj[o]| == |g.adj[o]| + 1
    ensures OutDegreeSum(h, ks) == OutDegreeSum(g, ks) + 1
  {
    assert NoDup(ks[1..]) by {
      forall i, j | 0 <= i < j < |ks[1..]| ensures ks[1..][i] != ks[1..][j] {
        assert ks[1..][i] == ks[i + 1] && ks[1..][j] == ks[j + 1];
      }
    }
    if ks[0] == o {
      assert o !in ks[1..];
      OutDegreeSumSame(g, h, ks[1..]);
    } else {
      OutDegreeSumBump(g, h, ks[1..], o);
    }
  }
}
