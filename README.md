# pygraph in Dafny

A model of the core of pygraph, a small Python graph library, with proofs
about it. The model covers:

- the two graph classes: the undirected `Graph` and the directed `DiGraph`;
- the attribute store they share (`DataMixin`): one record of attributes per
  vertex and per edge, holding at least `weight` and `label`;
- the operations common to both (`CommonMixin`): `order`, `complete`,
  `inverse`, `reverse` and structural equality;
- the algorithms over graphs:
  - breadth-first and depth-first traversal, route search and all-routes search;
  - the characteristic-based backtracking `isomorphism`;
  - `check_graph_is_connected`;
  - `is_subgraph`.

The classes are Dafny classes whose methods update their tables in place.
Each table is an insertion-ordered dictionary (`Base.Dict`: a key list plus
a map), because the library's results depend on Python's dictionary order
(`nodes()`, `edges()`, the order of the groups in `isomorphism`).
Every mutating method states its new state in terms of the old one. Where
`complete`, `inverse` and `reverse` add entries, the state is stated by its
contents, not by the order of the new list entries and edge keys (see
"Left out"). Every method keeps the class invariant (`Valid`) where the
library does:
- the attribute writers keep it exactly when they write to a stored vertex
  or edge;
- a type error inside `add_edge` leaves an edge listed without its full
  record, as the library does, and the model then does not promise `Valid`.

The algorithms read a graph through a value snapshot, `CommonMixin.View`:
vertices, neighbour lists, edge keys and records. Each algorithm is a method
with the source's loops, proved against a specification:

- reachability by walks and routes (`Walks`);
- a pure definition of the backtracking search (`Isomorphism.Search` / `Try`),
  proved sound and complete;
- strong connectivity (`Connectivity`);
- `Subgraph.Searched`, the pure definition of the outcome of `is_subgraph`.

## The library as written

The model follows the code and not what its documentation intends.
Four behaviours follow from that, each proved:

- **`reverse` on an undirected graph** copies every edge key in turn with
  `add_edge`. An undirected edge is recorded under both orientations, so the
  second key of any non-loop edge raises AdditionError. Only graphs whose
  edges are all self-loops can be reversed (`Undirected.Graph.Reverse`,
  `Undirected.ReverseFailed`).
- **`check_graph_is_connected`** on an undirected graph therefore returns
  True only for a single vertex. It raises AdditionError for every connected
  undirected graph with two or more vertices, and IndexError for the empty
  graph (`Connectivity.UndirectedConnected`). On a directed graph it decides
  strong connectivity (`Connectivity.DirectedConnected`).
- **`is_subgraph`** inherits this. With a pattern of two or more vertices it
  never finds anything: it returns `(False, None)` or raises AdditionError
  (`Subgraph.SearchedLarge`). A found subgraph always has exactly one vertex
  (`Subgraph.SearchedFound`). An empty pattern with a non-empty host raises
  IndexError (`Subgraph.SearchedEmptyPattern`).
- **Stale self-loop records and undirected matching:**
  - `Graph.del_node` skips the vertex's own self-loop when deleting its edges,
    so the `(n, n)` record survives the vertex (`Undirected.DelNodeKeepsInv`).
    The invariant of `Graph` allows such records.
  - The correctness lemmas for `isomorphism` therefore assume that records
    agree with adjacency (`Tidy`).
  - The test in `good()` is sound only for undirected graphs.
    `IsomorphismDirected.DirectedUnsound` gives two directed graphs, a 3-cycle
    and a graph with an edge both ways. `isomorphism` matches them, but they
    are not isomorphic.

## Model

| member | source | states |
|---|---|---|
| DataMixin.Upsert | pygraph/data_mixin.py:78-87 | `table[k][key] = value` creates the record when it is missing, sets the key, and leaves every other record unchanged |
| DataMixin.Field | pygraph/data_mixin.py:20 | `record[key]` gives the stored value exactly when the key exists, and KeyError otherwise |
| DataMixin.MergeStep | pygraph/data_mixin.py:104-110 | writing the attributes one key at a time, in any order, is merging them into the record |
| DataMixin.ValueEqMeans | pygraph/data_mixin.py:181-187 | Python's `!=` on two attribute values: equal exactly when they agree once booleans are read as the integers 0 and 1 (`True == 1`) |
| DataMixin.AttrsEqIsEquality | pygraph/data_mixin.py:177-189 | `attrs_eq` holds exactly when the two records have the same keys and equal values under Python's `==`, i.e. when they agree once booleans are read as integers; it is symmetric and holds for equal records |
| DataMixin.OneEqualsTrue | pygraph/data_mixin.py:177-189 | `{x: 1}` and `{x: True}` are different records that `attrs_eq` accepts |
| DataMixin.AttrStore.constructor | pygraph/data_mixin.py:10-12 | both attribute tables start empty |
| DataMixin.AttrStore.GetNodeAttributes | pygraph/data_mixin.py:120-127 | the vertex's record, or NodeNotFoundError exactly when there is none |
| DataMixin.AttrStore.GetEdgeAttributes | pygraph/data_mixin.py:129-136 | the edge's record, or EdgeNotFoundError exactly when there is none |
| DataMixin.AttrStore.GetNodeWeight | pygraph/data_mixin.py:14-20 | NodeNotFoundError for a vertex without a record; otherwise its `weight`, or KeyError when the record lacks one |
| DataMixin.AttrStore.GetNodeLabel | pygraph/data_mixin.py:22-28 | the same for `label` |
| DataMixin.AttrStore.GetEdgeWeight | pygraph/data_mixin.py:30-36 | EdgeNotFoundError for an edge without a record; otherwise its `weight`, or KeyError |
| DataMixin.AttrStore.GetEdgeLabel | pygraph/data_mixin.py:38-44 | the same for an edge's `label` |
| DataMixin.AttrStore.AddNodeAttribute | pygraph/data_mixin.py:78-87 | the vertex table becomes `Upsert` of the old one; the edge table is unchanged |
| DataMixin.AttrStore.AddEdgeAttribute | pygraph/data_mixin.py:89-102 | the edge table gets the write, repeated on the reversed key for a non-loop edge of an undirected graph; vertex table unchanged |
| DataMixin.AttrStore.SetNodeWeight | pygraph/data_mixin.py:46-52 | writes `weight` into the vertex's record |
| DataMixin.AttrStore.SetNodeLabel | pygraph/data_mixin.py:54-60 | writes `label` into the vertex's record |
| DataMixin.AttrStore.SetEdgeWeight | pygraph/data_mixin.py:62-68 | writes `weight` into the edge's record, mirrored as `add_edge_attribute` mirrors |
| DataMixin.AttrStore.SetEdgeLabel | pygraph/data_mixin.py:70-76 | writes `label` into the edge's record, mirrored |
| DataMixin.AttrStore.AddNodeAttributes | pygraph/data_mixin.py:104-110 | the loop over `attrs` merges all of them into the vertex's record |
| DataMixin.AttrStore.AddEdgeAttributes | pygraph/data_mixin.py:112-118 | the loop merges all of `attrs` into the edge's record, mirrored for an undirected non-loop edge |
| DataMixin.AttrStore.DelNodeAttribute | pygraph/data_mixin.py:138-146 | NodeNotFoundError, then InvalidAttrKeyError, with no change; otherwise exactly the key is removed from the vertex's record |
| DataMixin.AttrStore.DelEdgeAttribute | pygraph/data_mixin.py:148-153 | the same for one edge key; the reversed key keeps its attribute |
| DataMixin.AttrStore.DelNodeData | pygraph/data_mixin.py:155-159 | removes the vertex's record, or raises NodeNotFoundError without change |
| DataMixin.AttrStore.DelEdgeData | pygraph/data_mixin.py:161-170 | removes the edge's record and, for an undirected non-loop edge, the reversed one; EdgeNotFoundError after the first removal when the reversed record is missing |
| CommonMixin.OrderIsVertexCount | pygraph/common_mixin.py:30-50 | `order()` (and `len`) is the number of distinct vertices |
| CommonMixin.CommonEqMeans | pygraph/common_mixin.py:101-127 | the structural comparison holds exactly when the vertex sets and the edge-key sets coincide |
| CommonMixin.NodesEqMeans | pygraph/data_mixin.py:191-195 | `nodes_eq` over vertices that have records in both graphs is the agreement of their records, booleans read as integers |
| CommonMixin.EdgesEqMeans | pygraph/data_mixin.py:197-201 | `edges_eq` likewise for edges |
| CommonMixin.NodeRecordsEq | pygraph/data_mixin.py:191-195 | on equal vertex sets, `nodes_eq` is equality of the vertex tables with booleans read as integers |
| CommonMixin.EdgeRecordsEq | pygraph/data_mixin.py:197-201 | on equal edge sets, `edges_eq` is the same for the edge tables |
| CommonMixin.GraphEqMeans | pygraph/graph.py:112-119 | `==` never raises on well-formed graphs; it holds exactly when the vertices coincide and the vertex and edge records agree with booleans read as integers, whatever the insertion order; equal tables always compare equal |
| CommonMixin.GraphEqSymmetric | pygraph/digraph.py:135-142 | `==` is symmetric |
| Undirected.AddNodeKeepsInv | pygraph/graph.py:34-49 | adding a fresh vertex with an empty list keeps the undirected invariant |
| Undirected.AddEdgeKeepsInv | pygraph/graph.py:73-93 | appending to both lists and writing both records keeps the invariant |
| Undirected.DelEdgeKeepsInv | pygraph/graph.py:102-110 | a stored edge has its records, and deleting it keeps the invariant |
| Undirected.DelNodeKeepsInv | pygraph/graph.py:57-65 | `del_node` keeps the invariant, and the vertex's self-loop record survives it |
| Undirected.AddThenDelEdge | pygraph/graph.py:73-110 | `del_edge` undoes `add_edge` on the lists and on the records |
| Undirected.ReverseFailed | pygraph/common_mixin.py:92-97 | for a graph whose records name vertices and are well typed, the edge loop of `reverse` fails exactly when there is a non-loop edge, and then with AdditionError |
| Undirected.ReverseCopied | pygraph/common_mixin.py:82-99 | when the edge loop gets through, the copy has the same vertices with default records, the same edge records and only the self-loops |
| Undirected.InverseOf | pygraph/common_mixin.py:63-75 | the inverse's records, and hence its lists, join exactly the pairs of distinct vertices the graph does not join |
| Undirected.Graph.constructor | pygraph/graph.py:13-20 | a new graph has empty tables |
| Undirected.Graph.ViewIsWellFormed | pygraph/graph.py:22-32 | the snapshot of a valid graph is well formed and its adjacency symmetric |
| Undirected.Graph.ViewIsCovered | pygraph/graph.py:84-91 | every adjacency has its edge record |
| Undirected.Graph.Neighbors | pygraph/graph.py:28-32 | the vertex's list, or KeyError exactly for a missing vertex |
| Undirected.Graph.AddNode | pygraph/graph.py:34-49 | AdditionError without change for a present vertex; otherwise an empty list and the record `{weight, label}` overlaid with `attrs` |
| Undirected.Graph.AddEdge | pygraph/graph.py:73-93 | KeyError for a missing endpoint, AdditionError when either list already holds the other end; otherwise both lists are extended and both records written |
| Undirected.Graph.DelEdge | pygraph/graph.py:102-110 | records dropped first (EdgeNotFoundError when missing); then KeyError or ValueError from `list.remove` for a stale record; otherwise both lists lose the edge |
| Undirected.Graph.DelNode | pygraph/graph.py:57-65 | KeyError for a missing vertex; otherwise every non-loop edge at the vertex is deleted, then its list and record |
| Undirected.Graph.Complete | pygraph/common_mixin.py:52-61 | afterwards every two distinct vertices are joined and recorded; existing records and self-loops are kept |
| Undirected.Graph.Inverse | pygraph/common_mixin.py:63-75 | a fresh graph on the same vertices, whose records are the originals over defaults, joining exactly the pairs of distinct vertices not joined before |
| Undirected.EdgeWriteKeepsInv | pygraph/data_mixin.py:89-102 | writing one attribute of an edge keeps the undirected invariant exactly when the edge is recorded or is a self-loop |
| Undirected.EdgeMergeKeepsInv | pygraph/data_mixin.py:112-118 | merging attributes into an edge keeps it exactly when the edge is recorded, is a self-loop, or nothing is merged |
| Undirected.NodeWriteKeepsInv | pygraph/data_mixin.py:78-87 | writing one attribute of a vertex keeps it exactly when the vertex is in the graph |
| Undirected.NodeMergeKeepsInv | pygraph/data_mixin.py:104-110 | merging attributes into a vertex keeps it exactly when the vertex is in the graph or nothing is merged |
| Undirected.Graph.AddNodeAttribute | pygraph/data_mixin.py:78-87 | `add_node_attribute` on a graph: the write, nothing else, and the graph stays valid exactly for a present vertex |
| Undirected.Graph.AddNodeAttributes | pygraph/data_mixin.py:104-110 | `add_node_attributes`: the merge, and validity kept exactly for a present vertex or an empty merge |
| Undirected.Graph.AddEdgeAttribute | pygraph/data_mixin.py:89-102 | `add_edge_attribute`: the mirrored write, and validity kept exactly for a recorded edge or a self-loop |
| Undirected.Graph.AddEdgeAttributes | pygraph/data_mixin.py:112-118 | `add_edge_attributes`: the mirrored merge, with the same condition or an empty merge |
| Undirected.Graph.AddRecordEdge | pygraph/graph.py:84-91 | `add_edge` between two unjoined vertices: both lists are appended first; then InvalidWeightError with no record written, or InvalidLabelError with only the weight written, or both full records and a valid graph |
| Undirected.Graph.AddEdgeCopy | pygraph/common_mixin.py:93-97 | one copy step: KeyError for a missing weight or label, then the KeyError and AdditionError checks of `add_edge` without change, then the type errors with the lists already appended and the weight written before a bad label |
| Undirected.Graph.Reverse | pygraph/common_mixin.py:77-99 | a result exists only for a graph whose edges are all self-loops, and is then a copy of it; for a copyable graph, AdditionError exactly when a non-loop edge exists |
| Directed.EdgesAreRecords | pygraph/digraph.py:41-50 | `edges()` lists every edge record exactly once |
| Directed.ViewOfInv | pygraph/digraph.py:23-50 | the snapshot of a directed graph is well formed and its records agree with its successor lists |
| Directed.AddNodeKeepsInv | pygraph/digraph.py:58-74 | adding a vertex keeps the directed invariant |
| Directed.AddEdgeKeepsInv | pygraph/digraph.py:76-99 | appending to the successor and predecessor lists and writing the record keeps the invariant |
| Directed.DelEdgeKeepsInv | pygraph/digraph.py:120-127 | deleting a stored edge keeps the invariant |
| Directed.AddThenDelEdge | pygraph/digraph.py:76-127 | `del_edge` undoes `add_edge` on both tables |
| Directed.DeletedRecords | pygraph/digraph.py:101-118 | the records the two loops of `del_node` delete are exactly those touching the vertex |
| Directed.ComplementLists | pygraph/common_mixin.py:63-75 | complementary records on the same vertices give complementary successor lists |
| Directed.CopyFailsIffUntyped | pygraph/common_mixin.py:86-91 | the edge loop of `reverse` fails exactly when some record lacks, or mistypes, a weight or a label |
| Directed.ReverseState | pygraph/common_mixin.py:86-91 | a completed copy holds every record turned around, and so the successor lists turned around |
| Directed.DiGraph.constructor | pygraph/digraph.py:13-21 | a new directed graph has empty tables |
| Directed.DiGraph.ViewIsWellFormed | pygraph/digraph.py:23-50 | the snapshot is well formed and its records agree with adjacency |
| Directed.DiGraph.Neighbors | pygraph/digraph.py:29-33 | the successor list, or KeyError exactly for a missing vertex |
| Directed.DiGraph.ReverseNeighbors | pygraph/digraph.py:35-39 | KeyError for a missing vertex; otherwise exactly the vertices listing it as successor |
| Directed.DiGraph.AddNode | pygraph/digraph.py:58-74 | AdditionError for a present vertex; otherwise two empty lists and the record |
| Directed.DiGraph.AddEdge | pygraph/digraph.py:76-99 | AdditionError without change for a missing endpoint or a present edge; otherwise both lists are extended and the fresh record written |
| Directed.DiGraph.DelEdge | pygraph/digraph.py:120-127 | KeyError or ValueError from `list.remove`, without change; otherwise both lists lose the pair and its record is dropped |
| Directed.DiGraph.DelNode | pygraph/digraph.py:101-118 | KeyError for a missing vertex; otherwise the vertex, its record and every record touching it are gone |
| Directed.EdgeWriteKeepsInv | pygraph/data_mixin.py:89-102 | writing one attribute of an edge keeps the directed invariant exactly when the edge is recorded |
| Directed.EdgeMergeKeepsInv | pygraph/data_mixin.py:112-118 | merging attributes into an edge keeps it exactly when the edge is recorded or nothing is merged |
| Directed.NodeWriteKeepsInv | pygraph/data_mixin.py:78-87 | writing one attribute of a vertex keeps it exactly when the vertex is in the graph |
| Directed.NodeMergeKeepsInv | pygraph/data_mixin.py:104-110 | merging into a vertex keeps it exactly when the vertex is in the graph or nothing is merged |
| Directed.DiGraph.AddNodeAttribute | pygraph/data_mixin.py:78-87 | the write, nothing else, and validity kept exactly for a present vertex |
| Directed.DiGraph.AddNodeAttributes | pygraph/data_mixin.py:104-110 | the merge, and validity kept exactly for a present vertex or an empty merge |
| Directed.DiGraph.AddEdgeAttribute | pygraph/data_mixin.py:89-102 | the write on one key only, and validity kept exactly for a recorded edge |
| Directed.DiGraph.AddEdgeAttributes | pygraph/data_mixin.py:112-118 | the merge on one key, and validity kept exactly for a recorded edge or an empty merge |
| Directed.DiGraph.AddRecordEdge | pygraph/digraph.py:94-99 | `add_edge` for a new edge: the result is the first copy error or Pass; the successor and predecessor lists are appended in every case; no record after a bad weight, only the weight after a bad label |
| Directed.DiGraph.AddUntypedEdge | pygraph/digraph.py:95-98 | the same steps for a record that fails a setter's type check |
| Directed.DiGraph.AddEdgeCopy | pygraph/common_mixin.py:86-91 | one copy step: KeyError for a missing field, AdditionError without change, then the first type error with the lists appended and, for a bad label, the weight written; otherwise the edge stored with the record |
| Directed.DiGraph.Complete | pygraph/common_mixin.py:52-61 | afterwards every ordered pair of distinct vertices is an edge; existing edges are kept |
| Directed.DiGraph.Inverse | pygraph/common_mixin.py:63-75 | a fresh graph joining exactly the ordered pairs of distinct vertices not joined before |
| Directed.DiGraph.Reverse | pygraph/common_mixin.py:77-99 | fails exactly when a record cannot be copied, with the error of the first such edge in `edges()` order; otherwise every edge turned around with its record |
| Walks.RouteIffReach | pygraph/algorithms/bfs.py:22-43 | a route (a walk repeating no vertex) from `s` to `t` exists exactly when `t` is another vertex reachable from `s` |
| Walks.SetOrder | pygraph/algorithms/bfs.py:17 | iterating a `set` yields its elements once each |
| Walks.ExtendAll | pygraph/algorithms/bfs.py:62-66 | the inner loop appends every extension of the path by a neighbour not on it, and collects those that reach the target |
| Walks.ExtendUntil | pygraph/algorithms/bfs.py:37-41 | the inner loop returns the first extension that reaches the target, or appends all of them |
| Bfs.BreadthFirstBypass | pygraph/algorithms/bfs.py:4-19 | NodeNotFoundError exactly for a missing start; otherwise the start first, then every reachable vertex exactly once |
| Bfs.BreadthFirstSearch | pygraph/algorithms/bfs.py:22-43 | NodeNotFoundError for a missing end; otherwise a shortest route, or None exactly when the target is the start or unreachable |
| Bfs.BreadthFirstPaths | pygraph/algorithms/bfs.py:46-68 | NodeNotFoundError for a missing end; otherwise exactly the routes, each once, in order of non-decreasing length |
| Bfs.ShortestAtHead | pygraph/algorithms/bfs.py:33-41 | a queue kept in layers yields its shortest path first |
| Dfs.DepthFirstBypass | pygraph/algorithms/dfs.py:4-19 | NodeNotFoundError exactly for a missing start; otherwise the start first, then every reachable vertex exactly once |
| Dfs.DepthFirstSearch | pygraph/algorithms/dfs.py:22-42 | NodeNotFoundError for a missing end; otherwise a route, or None exactly when there is none |
| Dfs.DepthFirstPaths | pygraph/algorithms/dfs.py:45-66 | NodeNotFoundError for a missing end; otherwise exactly the routes, each once |
| Characteristics.Members | pygraph/algorithms/isomorphism.py:22-32 | the vertices of one graph that share a characteristic, in vertex order and without repeats |
| Characteristics.GroupedMeaning | pygraph/algorithms/isomorphism.py:18-32 | after both passes there is a group exactly for each characteristic present, holding its vertices from each graph |
| Characteristics.Collect | pygraph/algorithms/isomorphism.py:22-32 | the grouping loop over one graph computes `Collected` |
| Characteristics.BuildGroups | pygraph/algorithms/isomorphism.py:18-32 | the two grouping loops compute `Grouped` |
| Characteristics.CheckBalanced | pygraph/algorithms/isomorphism.py:36-38 | passes exactly when every group has equally many vertices in both graphs |
| Characteristics.GroupBeforeOrder | pygraph/algorithms/isomorphism.py:44-45 | Python's tuple order on `(len(A), A, B)` is a strict total order |
| Characteristics.Sort | pygraph/algorithms/isomorphism.py:45 | `sorted` returns a permutation of its input |
| Characteristics.SortAscending | pygraph/algorithms/isomorphism.py:45 | ... in ascending order |
| Renaming.CharPreserved | pygraph/algorithms/isomorphism.py:24-28 | an isomorphism maps each vertex to one with the same characteristic |
| Renaming.IsomorphicOrder | pygraph/algorithms/isomorphism.py:11-13 | isomorphic graphs have the same order, so the first check never rejects them |
| Renaming.IsomorphicBalanced | pygraph/algorithms/isomorphism.py:36-38 | isomorphic graphs pass the group-size check |
| Isomorphism.Layout | pygraph/algorithms/isomorphism.py:44-45 | the sorted groups list every vertex of the first graph exactly once |
| Isomorphism.SearchSound | pygraph/algorithms/isomorphism.py:64-86 | a successful `rec` extends the partial assignment into one that covers every vertex, is one-to-one and passed `good` at every step |
| Isomorphism.SearchFinds | pygraph/algorithms/isomorphism.py:64-86 | when records agree with adjacency and an isomorphism respecting the groups extends the partial assignment, `rec` succeeds |
| Isomorphism.Matcher.constructor | pygraph/algorithms/isomorphism.py:48-49 | `phi` and `rev` start empty |
| Isomorphism.Matcher.Good | pygraph/algorithms/isomorphism.py:51-62 | `good(x, y)` is `Fits` on the current assignment |
| Isomorphism.Matcher.Rec | pygraph/algorithms/isomorphism.py:64-72 | `rec(k, i)` returns what `Search` says, leaves its assignment on success and restores `phi`/`rev` on failure |
| Isomorphism.Matcher.Place | pygraph/algorithms/isomorphism.py:74-86 | the loop over the candidates is `Try`, with the same restoring |
| Isomorphism.Matcher.Attempt | pygraph/algorithms/isomorphism.py:80-86 | one assignment, `good` and the recursive call, undone on failure |
| Isomorphism.Isomorphism | pygraph/algorithms/isomorphism.py:1-90 | `isomorphism` returns `Outcome`: None (False) on different orders, unbalanced groups or a failed search |
| Isomorphism.OutcomeBijection | pygraph/algorithms/isomorphism.py:88-89 | any returned map is a one-to-one correspondence of the vertices, directed or not |
| Isomorphism.OutcomeSound | pygraph/algorithms/isomorphism.py:88-89 | for undirected graphs with records agreeing with adjacency, a returned map is an isomorphism |
| Isomorphism.OutcomeComplete | pygraph/algorithms/isomorphism.py:1-90 | when records agree with adjacency, isomorphic graphs always get a map |
| Isomorphism.SearchInGroups | pygraph/algorithms/isomorphism.py:74-86 | `rec` only assigns a vertex a candidate from its own group, so every pair it returns lies in one group |
| Isomorphism.OutcomeRespects | pygraph/algorithms/isomorphism.py:18-45 | any returned map sends every vertex to a vertex of the other graph with the same characteristic, directed or not |
| Isomorphism.OutcomeIffIsomorphic | pygraph/algorithms/isomorphism.py:1-90 | for such undirected graphs, a map comes back exactly when the graphs are isomorphic |
| IsomorphismDirected.DirectedUnsound | pygraph/algorithms/isomorphism.py:51-62 | on two well-formed directed graphs, `isomorphism` returns a map that is not an isomorphism, and the graphs are not isomorphic |
| Connectivity.TurnedReach | pygraph/algorithms/check_connectivity.py:16-22 | in the turned graph `s` reaches `v` exactly when `v` reaches `s` in the original |
| Connectivity.ForwardVerdict | pygraph/algorithms/check_connectivity.py:9-13 | the first bypass lists every vertex exactly when the first vertex reaches all of them |
| Connectivity.BackwardVerdict | pygraph/algorithms/check_connectivity.py:16-26 | the second bypass, over the turned graph, lists every vertex exactly when the graph is strongly connected |
| Connectivity.UndirectedVerdict | pygraph/algorithms/check_connectivity.py:9-13 | with symmetric adjacency, the first bypass lists every vertex exactly when the graph is connected; two connected vertices need a non-loop record |
| Connectivity.DirectedConnected | pygraph/algorithms/check_connectivity.py:4-28 | IndexError for no vertex; False when the first bypass misses a vertex; otherwise an error exactly when a record cannot be copied, else True exactly for a strongly connected graph |
| Connectivity.UndirectedConnected | pygraph/algorithms/check_connectivity.py:4-28 | IndexError for no vertex; False for a disconnected graph; True only for a single vertex; AdditionError for a connected copyable graph of two or more vertices |
| Subgraph.CombinationsExact | pygraph/algorithms/check_subgraph.py:13 | `itertools.combinations(nodes, k)` yields exactly the order-preserving selections of `k` vertices |
| Subgraph.PicksFrom | pygraph/algorithms/check_subgraph.py:13 | a selection of distinct vertices repeats nothing and takes only host vertices |
| Subgraph.InduceSettled | pygraph/algorithms/check_subgraph.py:14-23 | the construction lists the selected vertices in order and joins two exactly when the host does, all with default records |
| Subgraph.OfferEdge | pygraph/algorithms/check_subgraph.py:17-23 | `add_edge` only when the record is missing; its KeyError for a neighbour not yet added is swallowed |
| Subgraph.InducedSubgraph | pygraph/algorithms/check_subgraph.py:14-23 | a fresh valid graph whose tables are the induced subgraph `Induce` |
| Subgraph.Attempt | pygraph/algorithms/check_subgraph.py:14-25 | one selection: build, check connectivity, match; the outcome is `Fate` |
| Subgraph.IsSubgraph | pygraph/algorithms/check_subgraph.py:7-26 | the result is `Searched`: the same error, a graph exactly when a selection is found, and then the graph induced by that selection; `(False, None)` when the pattern is not smaller |
| Subgraph.Scan | pygraph/algorithms/check_subgraph.py:13-26 | the loop over the selections ends as the first selection that is not skipped decides |
| Subgraph.SkipMeans | pygraph/algorithms/check_subgraph.py:24 | a selection is skipped exactly when it is non-empty and, if connected, a single vertex `isomorphism` does not match |
| Subgraph.TakeMeans | pygraph/algorithms/check_subgraph.py:24-25 | a selection is taken exactly when it is a connected single vertex that `isomorphism` matches with a non-empty map |
| Subgraph.RaiseMeans | pygraph/algorithms/check_subgraph.py:24 | IndexError exactly for the empty selection; AdditionError exactly for a connected selection of two or more vertices |
| Subgraph.DecideNone | pygraph/algorithms/check_subgraph.py:26 | `(False, None)` exactly when every selection is skipped |
| Subgraph.DecideFound | pygraph/algorithms/check_subgraph.py:24-25 | a found selection was taken, and every earlier one skipped |
| Subgraph.DecideRaises | pygraph/algorithms/check_subgraph.py:24 | an error is the error of a selection, and every earlier one was skipped |
| Subgraph.SearchedEmptyPattern | pygraph/algorithms/check_subgraph.py:12-24 | an empty pattern with a non-empty host raises IndexError |
| Subgraph.SearchedFound | pygraph/algorithms/check_subgraph.py:12-25 | a found subgraph is induced by an order-preserving selection of as many host vertices as the pattern has; it is connected, matched, isomorphic to a tidy undirected pattern, and a single vertex |
| Subgraph.SearchedLarge | pygraph/algorithms/check_subgraph.py:12-26 | with two or more pattern vertices the search returns `(False, None)` or raises AdditionError |
| Subgraph.SingleFates | pygraph/algorithms/check_subgraph.py:24-25 | with a one-vertex pattern no selection raises, and one is skipped exactly when `isomorphism` does not match it |
| Subgraph.SearchedSingle | pygraph/algorithms/check_subgraph.py:12-26 | with a one-vertex pattern the search never raises, and returns `(False, None)` exactly when no host vertex alone is matched: a matching vertex is always found |
| Subgraph.SearchedLargeNone | pygraph/algorithms/check_subgraph.py:12-26 | ... and `(False, None)` exactly when no selection induces a connected subgraph |

## Left out

- Vertices are strings. The library accepts any hashable value.
- Attribute values are integers, strings and booleans only: no floats,
  `None` or containers. Python's `==` between them is modelled
  (`DataMixin.ValueEq`, where `True == 1`); comparisons such as `1.0 == 1`
  that need other kinds are not.
- Undirected.Graph.Complete, Directed.DiGraph.Complete: state which entries
  the lists and edge records hold afterwards, not the order in which new
  neighbours and edge keys are appended.
- Undirected.Graph.Inverse, Directed.DiGraph.Inverse: likewise, contents and
  not the order of the lists and edge keys of the new graph.
- Undirected.Graph.Reverse, Directed.DiGraph.Reverse: likewise for the copy.
- `del_node_data` and `del_edge_data` on a graph are modelled only on the
  attribute store (`DataMixin.AttrStore.DelNodeData`, `DelEdgeData`).
  Removing the record of a live vertex or edge breaks the class invariant,
  and no graph-level method states that state.
- Writes through the attribute setters to a vertex or edge that is not in
  the graph are modelled, but the graph is then not `Valid`. The model
  states that and nothing more about it.
- The `name` and `weighted` of `BaseGraph` are not modelled. So are the graph
  name `is_subgraph` gives its temporary graph and the constructor arguments
  that carry them. `basegraph.py` is not part of this model.
- `__str__`, `__repr__`, `__iter__` and `__getitem__` only format or iterate.
  `__len__` is `Order`.
- `readwrite.py` (file input and output) and the messages of the exception
  classes are not modelled. Exceptions are the values of `Base.Error`.
- The runtime type checks are not modelled where a typed argument makes them
  unreachable:
  - `isinstance` on keys, weights and labels in the setters;
  - the InvalidGraphType check of `==`;
  - the `AttributeError` handler of `CommonMixin.__eq__`.

  Where a stored record can hold an ill-typed weight or label, the checks are
  modelled (`WellTyped`, `Graph.AddEdgeCopy`).
- The order in which a Python `set` is iterated is left open: `Walks.SetOrder`
  chooses any order. The traversal contracts hold for every order.
- `is_subgraph` returns `Option<Graph>` inside a `Result` rather than a
  tuple: `(True, subg)` becomes `Ok(Some(subg))` and `(False, None)` becomes
  `Ok(None)`.
- Subgraph.IsSubgraph: does not state that the returned graph is fresh or
  what its name is.
- Bfs.BreadthFirstBypass: states which vertices are listed and that the start
  comes first, not the breadth-first order of the rest.
- Dfs.DepthFirstBypass: likewise, not the depth-first order.
- Dfs.DepthFirstSearch: states that the result is a route, not which route
  the stack order picks.
- Undirected.Graph.Reverse: for a graph with an edge record naming a missing
  vertex or an ill-typed record, it states only that a result is a copy, not
  which error is raised.
- Connectivity.UndirectedConnected: for such graphs, it states only the
  IndexError, False and True cases, not which error is raised.
- Isomorphism.OutcomeSound: assumes that edge records agree with adjacency
  (`Tidy`). A stale self-loop record left by `del_node` breaks that agreement,
  and `good()` reads records.
