# Graphs and dotplots, modelled in Dafny

This project models two files of a bioinformatics teaching repository.

- `Lab11/MyGraph.py` defines `MyGraph`, a directed graph stored as a Python
  dictionary. Each vertex maps to the ordered list of its destinations, and
  repeated destinations are allowed. The model covers:
  - construction, nodes, edges and size;
  - adding vertices and edges;
  - successors, predecessors and adjacent vertices;
  - the degree functions (`in_degree`, `out_degree`, `degree`, `all_degrees`,
    `highest_degrees`, `prob_degree`);
  - the breadth-first and depth-first reachability searches;
  - `distance` and `shortest_path`.
- `Lab6/dotplots.py` builds dotplot matrices of two sequences. The model
  covers the zero matrix, the basic dotplot, the windowed dotplot with a
  stringency threshold, and the measure of the longest diagonal run of ones.

The dictionary is `Graphs.Graph`: its key order plus a map from each key to
its list. `Valid` states what every Python dictionary guarantees. `Closed`
states that every destination is itself a vertex. `add_edge` keeps a graph
closed, but the constructor does not check it.

Methods that change the graph in place become functions that return the new
graph. The traversals and the distance loops become recursive functions over
the loop variables. Each one has a reference meaning to check it against:
- walks and reachability (`Paths.IsPath`, `Paths.Reachable`);
- the count of each edge in `get_edges`;
- the longest run of ones on a diagonal.

Modules:
- `Seqs`: sequence helpers, including Python's `list.count` and the
  "append if not yet present" loop.
- `Wrappers`: `Option`.
- `Graphs`: the dictionary and its basic operations.
- `Paths`: walks and reachability.
- `Degrees`: all degree functions beyond `degree`.
- `Search`: `reachable_bfs` and `reachable_dfs`.
- `Distances`: `distance` and `shortest_path`.
- `Dotplots`: the dotplot functions.

The two in-degree measures of `Lab11/MyGraph.py` differ:
- `in_degree` (line 78) counts the dictionary items whose list contains the
  vertex. That is the number of distinct source vertices (`Graphs.InDegree`).
- `all_degrees("in")` (lines 91-95) counts every occurrence of the vertex in
  the adjacency lists.

`Degrees.InCountVersusPredecessors` relates the two. The occurrence count is
never smaller, and the two agree when no list repeats a destination.

## Model

| member | source | states |
|---|---|---|
| `Graphs.Create` | Lab11/MyGraph.py:6-8 | The graph wraps the given dictionary as it is: keys in the dictionary's key order, and each key's list exactly as given. |
| `Graphs.CreateClosedIff` | Lab11/MyGraph.py:6-8 | The wrapped dictionary is closed exactly when every listed destination is one of its keys. Nothing checks this on construction. |
| `Graphs.Nodes` | Lab11/MyGraph.py:16-18 | `get_nodes` lists every vertex exactly once and nothing else. |
| `Graphs.NodesInsertionOrder` | Lab11/MyGraph.py:16-18 | `get_nodes` lists the vertices in insertion order: the wrapped dictionary's keys as given, then each vertex that `add_vertex` or `add_edge` introduces, appended at the end, origin before destination. |
| `Graphs.EdgesOrder` | Lab11/MyGraph.py:21-27 | The origins in `get_edges` follow the key order, so each vertex's pairs form one block. The pairs of any vertex `o` are `(o, d)` for each `d` of its list, in list order. |
| `Graphs.EdgeMultiplicity` | Lab11/MyGraph.py:21-27 | `get_edges` contains `(o, d)` as often as `d` occurs in the list of `o`, and zero times when `o` is not a vertex. A pair is an edge exactly when `o` is a vertex whose list holds `d`. |
| `Graphs.SizeCounts` | Lab11/MyGraph.py:29-33 | `size` is the number of distinct vertices and the total length of all adjacency lists, repeated edges included. |
| `Graphs.AddVertex` | Lab11/MyGraph.py:36-40 | `add_vertex` leaves an existing vertex alone. Otherwise it appends the vertex with an empty list. Every other list is unchanged and closedness is kept. |
| `Graphs.AddVertexIdempotent` | Lab11/MyGraph.py:36-40 | Adding the same vertex twice is the same as adding it once. The vertex count grows by one exactly when the vertex was new. |
| `Graphs.AddEdge` | Lab11/MyGraph.py:42-49 | `add_edge` adds the missing endpoints, origin first, and appends `d` to the list of `o`. All other lists are unchanged and closedness is kept. |
| `Graphs.AppendEdge` | Lab11/MyGraph.py:49 | The final assignment of `add_edge` only lengthens the list of `o` by `d`. |
| `Graphs.AddEdgeGrowsByOne` | Lab11/MyGraph.py:42-49 | After `add_edge(o, d)`, `out_degree(o)` and the edge count of `size` are each one larger, and `d` is a successor of `o`. |
| `Graphs.Successors` | Lab11/MyGraph.py:54-55 | `get_successors(v)` contains each `x` as often as `get_edges` contains `(v, x)`. In order, it is the destinations of the `get_edges` pairs whose origin is `v`. |
| `Graphs.Predecessors` | Lab11/MyGraph.py:57-62 | `get_predecessors(v)` is the vertices with an edge into `v`, each once, in insertion order. |
| `Graphs.Adjacents` | Lab11/MyGraph.py:64-70 | `get_adjacents(v)` starts with the predecessors and has no repeats. It holds exactly the predecessors and successors of `v`. The successors that follow come in the order of their first occurrence in the list of `v`. |
| `Seqs.UnseenFirstOrder` | Lab11/MyGraph.py:68-69 | The "append if not yet present" loop keeps the new elements in the order of their first occurrence. |
| `Graphs.OutDegree` | Lab11/MyGraph.py:74-75 | `out_degree(v)` is the number of pairs in `get_edges` whose origin is `v`. |
| `Graphs.InDegree` | Lab11/MyGraph.py:77-78 | `in_degree(v)` is the number of distinct vertices whose list contains `v`. |
| `Graphs.Degree` | Lab11/MyGraph.py:80-81 | `degree(v)` is the number of distinct predecessors plus the length of the list of `v`. |
| `Degrees.AllDegrees` | Lab11/MyGraph.py:83-96 | `all_degrees` has one non-negative entry per vertex, in the dictionary's key order. The default mode is `"inout"`. |
| `Degrees.TallyEdgesFrom` | Lab11/MyGraph.py:91-95 | The nested edge loop adds to each vertex the number of counted edge occurrences into it. An occurrence always counts in mode `"in"`. Otherwise it counts only when there is no edge back. |
| `Degrees.AllDegreesValues` | Lab11/MyGraph.py:83-96 | Each entry is the out-degree seed (modes `"out"` and `"inout"`) plus the counted incoming occurrences (modes `"in"` and `"inout"`). |
| `Degrees.AllDegreesModes` | Lab11/MyGraph.py:83-96 | Mode `"out"` gives `out_degree`. Mode `"in"` gives at least `in_degree`, and exactly `in_degree` when no list repeats a destination. Any other string gives zeros. |
| `Degrees.InCountVersusPredecessors` | Lab11/MyGraph.py:91-95 | The `"in"` edge loop counts at least as many as `get_predecessors` finds, and the same number when lists have no repeats. |
| `Degrees.InoutIsDegreeWithoutMutualPairs` | Lab11/MyGraph.py:83-96 | In a graph without repeated or mutual edges, `all_degrees("inout")` equals `degree` for every vertex. |
| `Degrees.SortByDegreeFacts` | Lab11/MyGraph.py:101 | The sort keeps the same entries and orders them by non-increasing degree. Within each degree it keeps the original order, as Python's stable `sorted(..., reverse = True)` does. |
| `Degrees.StableSortIsUnique` | Lab11/MyGraph.py:101 | Any list sorted by non-increasing degree that keeps each degree group in the original order is the sort's result. |
| `Degrees.TopRanked` | Lab11/MyGraph.py:101-102 | The kept prefix has the length Python's `[:top]` gives. A negative `top` drops that many entries from the end. |
| `Degrees.TopRankedOrdered` | Lab11/MyGraph.py:101-102 | The kept entries come from the items and are ordered by non-increasing degree. Each degree group is a prefix of its group in the items. |
| `Degrees.TopRankedExcludedNoHigher` | Lab11/MyGraph.py:101-102 | No entry left out has a higher degree than any entry kept. |
| `Degrees.HighestDegrees` | Lab11/MyGraph.py:98-102 | `highest_degrees` returns at most `top` vertices, all taken from the ranked dictionary. That dictionary is `all_degrees(deg_type)` when none is passed. The defaults are `deg_type = "inout"` and `top = 10`. |
| `Degrees.ProbDegree` | Lab11/MyGraph.py:112-115 | `prob_degree` has a key exactly for each degree that some vertex has, and each count is at least 1. |
| `Degrees.ProbDegreeCounts` | Lab11/MyGraph.py:112-115 | Each degree maps to the number of vertices with that degree. |
| `Search.Step` | Lab11/MyGraph.py:123-128 | One loop iteration records the popped vertex unless it is the start, keeps the other pending vertices, and queues the successors not yet found or pending. When the start vertex is popped again after its first expansion, nothing is queued, unless the start has a self-loop and the `elem != node` test is absent. |
| `Search.StepDiscipline` | Lab11/MyGraph.py:123-141 | `reachable_bfs` appends the new vertices behind the pending ones, a queue. `reachable_dfs` inserts them in front, a stack. In both, the new vertices come in the order of their first occurrence in the popped vertex's list. They are exactly its successors that are neither recorded nor pending, and, with the `elem != node` test, not the popped vertex. |
| `Search.ReachExact` | Lab11/MyGraph.py:120-142 | Either traversal returns exactly the vertices other than the start that are reachable from it. |
| `Search.ReachableBfs` | Lab11/MyGraph.py:120-129 | `reachable_bfs` returns no repeats and never the start vertex. |
| `Search.BfsReachesExactly` | Lab11/MyGraph.py:120-129 | `reachable_bfs(v)` contains `x` exactly when `x != v` and some walk leads from `v` to `x`. |
| `Search.ReachableDfs` | Lab11/MyGraph.py:131-142 | `reachable_dfs` as written returns no repeats and never the start vertex. It is defined only when the start has no edge to itself. |
| `Search.DfsSameSetAsBfs` | Lab11/MyGraph.py:131-142 | Wherever `reachable_dfs` ends, it returns the same set as `reachable_bfs`: the vertices reachable from the start, other than the start. |
| `Search.DfsAsWrittenIsGuarded` | Lab11/MyGraph.py:131-142 | Without a self-loop at the start, the missing `elem != node` test changes nothing, not even the order. |
| `Search.DfsSelfLoopNeverEnds` | Lab11/MyGraph.py:131-142 | On `{1: [1]}`, one iteration of `reachable_dfs(1)` as written returns to its initial state, so the loop never ends. The guarded iteration empties the list. |
| `Search.ReachableDfsGuarded` | Lab11/MyGraph.py:131-142 | The depth-first search with the `elem != node` guard that `reachable_bfs` has returns no repeats and never the start vertex, on every vertex. |
| `Search.GuardedDfsSameSetAsBfs` | Lab11/MyGraph.py:131-142 | The guarded depth-first search returns the same set as `reachable_bfs` on every vertex. |
| `Distances.Advance` | Lab11/MyGraph.py:150-154 | Without the target among the successors, an iteration drops the head and keeps the rest of the queue in order. Behind it, one level further, it queues exactly the successors not yet visited, each once, in the order of their first occurrence, and marks those visited. Either the unvisited set shrinks or the queue does. |
| `Distances.Distance` | Lab11/MyGraph.py:144-155 | `distance(s, s)` is 0. |
| `Distances.DistanceIsShortest` | Lab11/MyGraph.py:144-155 | `distance(s, d)` is `None` exactly when no walk leads from `s` to `d`. Otherwise some walk has that many edges and none has fewer. |
| `Distances.ShortestPath` | Lab11/MyGraph.py:157-168 | `shortest_path` returns 0 exactly when `s == d`. A returned list is a walk from `s` to `d`. |
| `Distances.LoopsAgree` | Lab11/MyGraph.py:146-167 | The loops of `distance` and `shortest_path` move in lockstep. They stop together, and the path has one more vertex than the distance counts. |
| `Distances.DistanceMatchesShortestPath` | Lab11/MyGraph.py:144-168 | `distance` and `shortest_path` are trivial together and `None` together. Otherwise the path has one more vertex than the distance has edges. |
| `Distances.ShortestPathIsShortest` | Lab11/MyGraph.py:157-168 | `shortest_path(s, d)` finds a walk exactly when one exists, and no walk from `s` to `d` is shorter. |
| `Dotplots.CreateMat` | Lab6/dotplots.py:6-12 | `create_mat` gives `nrows` rows of `ncols` zeros. A negative dimension counts as zero, as `range` does. |
| `Dotplots.Dotplot` | Lab6/dotplots.py:15-23 | `dotplot` is a `len(seq1) x len(seq2)` matrix. A cell is 1 exactly where the symbols coincide, and 0 elsewhere. |
| `Dotplots.WindowCell` | Lab6/dotplots.py:31-36 | The innermost loop sets only cell `(i, j)`. It becomes 1 exactly when the window around it has at least `stringency` coinciding pairs. |
| `Dotplots.ExtendedDotplot` | Lab6/dotplots.py:26-37 | `extended_dotplot` fails exactly when the float division `window/2` overflows, which happens for `abs(window) >= 2^1025 - 2^971`. Otherwise every cell is 1 exactly when it lies `int(window/2)` cells inside both borders and its window has at least `stringency` coinciding pairs. |
| `Dotplots.ExtendedCellShape` | Lab6/dotplots.py:28-30 | Cells are 0 or 1, and cells outside the band stay 0. A window of -2 or less leaves every cell 0 wherever `extended_dotplot` returns a matrix. Below `-(2^1025 - 2^971)` it raises instead (see `Dotplots.ExtendedDotplot`). |
| `Dotplots.RoundedHalfIsBlank` | Lab6/dotplots.py:28-30 | Above `abs(window) = 2^53` the float `window/2` may round to a start other than the exact half. Any such start leaves the cell outside the band, as the exact half does, for sequences of length at most `2^53`. |
| `Dotplots.WindowOneIsDotplot` | Lab6/dotplots.py:26-37 | With window 1 and stringency 1 the windowed dotplot equals the basic one. |
| `Dotplots.RectangularInBounds` | Lab6/dotplots.py:63-73 | On a rectangular matrix with a non-negative start, every cell the loop reads exists. The `t`-th cell is `mat[istart + t][jstart + t]`, and the loop stops at the last row or the last column, whichever comes first. |
| `Dotplots.TestDiagonalLength` | Lab6/dotplots.py:59-79 | `test_diagonal_length` as written returns the longest run of ones on the diagonal that is followed by a cell other than 1. |
| `Dotplots.TrailingRunIsDropped` | Lab6/dotplots.py:72-79 | On a diagonal of ones only, the closed-run measure is 0 while the longest run is the whole diagonal. |
| `Dotplots.SingleCellExample` | Lab6/dotplots.py:72-79 | On `[[1]]` from `(0, 0)` the code as written returns 0, but the longest run is 1. |
| `Dotplots.LongestDiagonalRun` | Lab6/dotplots.py:59-79 | The same loop, also recording the run still open at the end, returns the longest run of ones on the diagonal. |

## Left out

- `print_graph`, `print_dotplot` and the `test` functions only print, so they are not modelled.
- `mean_degree` divides to a float and is not modelled. Neither is the clustering code after line 171 of `Lab11/MyGraph.py`, which is unfinished.
- The `deg_type` parameter of `mean_degree` and `prob_degree` is unused by the code, so it is not modelled.
- Python raises `KeyError` or `IndexError` in several cases, and the model makes the absence of each a precondition:
  - a vertex that is not in the dictionary;
  - a destination that is not a key while degrees are counted;
  - an empty matrix, for which `len(mat[0])` fails at line 64 of `Lab6/dotplots.py`;
  - a diagonal cell outside the matrix.

  The source does not handle any of these errors.
- Search.ReachableBfs: like the other traversals (`Search.ReachableDfs`, `Search.ReachableDfsGuarded`, `Distances.Distance`, `Distances.ShortestPath`), it requires the whole graph to be closed. `add_edge` keeps a graph closed. The source needs less: it only looks up vertices it pops, so a dangling destination elsewhere does no harm. On `{1: [2], 2: [], 3: [9]}`, `reachable_bfs(1)` returns `[2]` and `distance(1, 2)` returns 1, but these graphs are outside the model.
- The constructor's default argument `g = {}` is one dictionary shared by every graph built without an argument. `Graphs.Create()` gives a fresh empty graph, so that aliasing is not modelled.
- In-place mutation of `self.graph` is modelled as a function from the old graph to the new one.
- `Graphs.Create` requires the listed keys to be distinct, which every Python dictionary guarantees.
- `highest_degrees` accepts a dictionary as `all_deg`. It is modelled as an optional list of `(vertex, degree)` items in dictionary order. Distinct vertices are not required.
- Degrees.HighestDegrees: its own contract states only the length and where the vertices come from. The ordering promise is stated by `Degrees.TopRanked`, `Degrees.TopRankedOrdered`, `Degrees.TopRankedExcludedNoHigher` and `Degrees.SortByDegreeFacts` about the ranked entries it maps to vertices.
- Degrees.AllDegrees: its own contract states only the keys and the sign of the values. The values are stated by `Degrees.AllDegreesValues` and `Degrees.AllDegreesModes`.
- Distances.Distance: its own contract covers only `s == d`. The rest is stated by `Distances.DistanceIsShortest`.
- Search.ReachableDfs: it requires no edge from the start vertex to itself, because the loop as written never ends there (see Findings).
- `extended_dotplot` takes an integer `window`. A float window, which would give `int(window/2)` a different meaning, is not modelled.
- Dotplots.ExtendedDotplot: the start is the exact half `HalfTowardZero(window)`, not the rounded float `window/2`. The two differ only when `abs(window) > 2^53`. `Dotplots.RoundedHalfIsBlank` shows the matrix is blank either way when the first sequence has at most `2^53` symbols. For longer sequences the rounded start is not modelled.
- Vertices and sequence symbols are any type with equality. Python's hashing and its mixed-type comparisons are not modelled.

## Findings

| source | as written | input that shows it | evidently intended | confidence | as-written member | corrected member |
|---|---|---|---|---|---|---|
| Lab11/MyGraph.py:137-141 | `reachable_dfs` lacks the `elem != node` test that `reachable_bfs` has. A self-loop at the start vertex puts it back on the list forever, because the start is never recorded. | graph `{1: [1]}`, `reachable_dfs(1)` | return `[]`, the same set as `reachable_bfs` | not executed | `Search.DfsSelfLoopNeverEnds` | `Search.GuardedDfsSameSetAsBfs` |
| Lab6/dotplots.py:72-79 | The run length is recorded only when a cell other than 1 is met, so a run that reaches the end of the diagonal is never counted. | `test_diagonal_length([[1]], 0, 0)` returns 0 | return 1, the longest run of matches on the diagonal | not executed | `Dotplots.TestDiagonalLength` | `Dotplots.LongestDiagonalRun` |
