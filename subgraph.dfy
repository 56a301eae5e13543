/** `is_subgraph`: for every selection of as many host vertices as the
    pattern has (only when the pattern is strictly smaller), build the
    subgraph those vertices induce in a fresh undirected graph, and return
    the first one that `check_graph_is_connected` accepts and that
    `isomorphism` matches with the pattern. The host is only read. */
module Subgraph {
  import opened Base
  import opened DataMixin
  import opened CommonMixin
  import opened Adjacency
  import opened Walks
  import opened Renaming
  import opened Isomorphism
  import opened Connectivity
  import Undirected

  // ---------------------------------------------------------------------
  // itertools.combinations

  /** `[x] + c` for every `c` of `cs`, in order. */
  function Prefixed(x: Node, cs: seq<seq<Node>>): (r: seq<seq<Node>>)
    ensures |r| == |cs| && forall i :: 0 <= i < |cs| ==> r[i] == [x] + cs[i]
  {
    seq(|cs|, i requires 0 <= i < |cs| => [x] + cs[i])
  }

  /** `itertools.combinations(ns, k)`: the selections of `k` entries of
      `ns`, each kept in the order of `ns`, those with the earlier first
      entry first. */
  function Combinations(ns: seq<Node>, k: nat): seq<seq<Node>>
    decreases |ns|
  {
    if k == 0 then [[]]
    else if ns == [] then []
    else Prefixed(ns[0], Combinations(ns[1..], k - 1)) + Combinations(ns[1..], k)
  }

  /** `c` is `ns` with some entries left out. */
  predicate Picks(c: seq<Node>, ns: seq<Node>)
    decreases |ns|
  {
    if c == [] then true
    else if ns == [] then false
    else (c[0] == ns[0] && Picks(c[1..], ns[1..])) || Picks(c, ns[1..])
  }

  lemma PrefixedHas(x: Node, cs: seq<seq<Node>>, c: seq<Node>)
    ensures c in Prefixed(x, cs) <==> c != [] && c[0] == x && c[1..] in cs
  {
    var p := Prefixed(x, cs);
    if c in p {
      var i :| 0 <= i < |cs| && p[i] == c;
      assert c[1..] == cs[i];
    }
    if c != [] && c[0] == x && c[1..] in cs {
      var i :| 0 <= i < |cs| && cs[i] == c[1..];
      assert p[i] == c;
    }
  }

  /** The combinations are exactly the selections of `k` entries. */
  lemma {:induction false} CombinationsExact(ns: seq<Node>, k: nat, c: seq<Node>)
    ensures c in Combinations(ns, k) <==> Picks(c, ns) && |c| == k
    decreases |ns|
  {
    if k == 0 {
      assert c in Combinations(ns, k) <==> c == [];
    } else if ns == [] {
      assert Combinations(ns, k) == [];
      assert c != [] ==> !Picks(c, ns);
    } else {
      CombinationsExact(ns[1..], k, c);
      if c != [] {
        CombinationsExact(ns[1..], k - 1, c[1..]);
      }
      CombinationsSplit(ns, k, c);
    }
  }

  /** The step of `CombinationsExact` for a non-empty list and `k > 0`,
      from what holds for the rest of the list. */
  lemma CombinationsSplit(ns: seq<Node>, k: nat, c: seq<Node>)
    requires ns != [] && k > 0
    requires c in Combinations(ns[1..], k) <==> Picks(c, ns[1..]) && |c| == k
    requires c != [] ==> (c[1..] in Combinations(ns[1..], k - 1) <==> Picks(c[1..], ns[1..]) && |c[1..]| == k - 1)
    ensures c in Combinations(ns, k) <==> Picks(c, ns) && |c| == k
  {
    var head := Combinations(ns[1..], k - 1);
    assert Combinations(ns, k) == Prefixed(ns[0], head) + Combinations(ns[1..], k);
    PrefixedHas(ns[0], head, c);
  }

  /** A selection of a duplicate-free list repeats nothing and takes its
      entries from that list. */
  lemma {:induction false} PicksFrom(c: seq<Node>, ns: seq<Node>)
    requires Picks(c, ns) && Distinct(ns)
    ensures Distinct(c) && forall x :: x in c ==> x in ns
    decreases |ns|
  {
    if c != [] {
      assert Distinct(ns[1..]);
      if c[0] == ns[0] && Picks(c[1..], ns[1..]) {
        PicksFrom(c[1..], ns[1..]);
        assert c == [c[0]] + c[1..];
        assert c[0] !in c[1..];
      } else {
        PicksFrom(c, ns[1..]);
      }
    }
  }

  // ---------------------------------------------------------------------
  // The induced subgraph, as the tables of the fresh graph hold it

  /** The three tables of a graph under construction: neighbour lists,
      vertex records and edge records. */
  datatype Build = Build(adj: Dict<Node, seq<Node>>, nodes: Dict<Node, Attrs>, edges: Dict<Edge, Attrs>)
  {
    /** The snapshot the algorithms read, as `Graph.View` gives it. */
    function Snapshot(): View
    {
      View(false, adj.keys, adj.m, edges.keys, nodes.m, edges.m)
    }
  }

  /** `Graph("TmpSubgraph")`. */
  function Empty(): Build
  {
    Build(EmptyDict(), EmptyDict(), EmptyDict())
  }

  /** `subg.add_node(node)`: an empty list and the default record. */
  function AddVertex(b: Build, node: Node): Build
  {
    Build(b.adj.Put(node, []), b.nodes.Put(node, DefaultRecord(1, "")), b.edges)
  }

  /** One pass of the inner loop for neighbour `nb`: nothing when the
      record of `(node, nb)` exists; nothing either when `nb` is not in
      the subgraph yet, since `add_edge` then raises the KeyError the loop
      swallows; otherwise the edge is added with the default record. */
  function Offer(b: Build, node: Node, nb: Node): (r: Build)
    requires node in b.adj.m
    ensures r.adj.keys == b.adj.keys && r.adj.m.Keys == b.adj.m.Keys && r.nodes == b.nodes
  {
    if (node, nb) in b.edges.m || nb !in b.adj.m then b
    else
      Undirected.LinkedLists(b.adj, (node, nb));
      Build(Undirected.Linked(b.adj, (node, nb)), b.nodes, Undirected.EdgeAdded(b.edges, (node, nb), 1, "", map[]))
  }

  /** The inner loop over the neighbour list `nbs` of `node`. */
  function OfferAll(b: Build, node: Node, nbs: seq<Node>): (r: Build)
    requires node in b.adj.m
    ensures r.adj.keys == b.adj.keys && r.adj.m.Keys == b.adj.m.Keys && r.nodes == b.nodes
    decreases |nbs|
  {
    if nbs == [] then b
    else Offer(OfferAll(b, node, nbs[..|nbs| - 1]), node, nbs[|nbs| - 1])
  }

  /** The host's neighbour list of `n` (`graph.neighbors(n)`). */
  function Around(h: View, n: Node): seq<Node>
  {
    if n in h.adj then h.adj[n] else []
  }

  /** The tables of `subg` once the vertices of `c` went through the
      outer loop in order. */
  function Induce(h: View, c: seq<Node>): Build
    decreases |c|
  {
    if c == [] then Empty()
    else
      var node := c[|c| - 1];
      OfferAll(AddVertex(Induce(h, c[..|c| - 1]), node), node, Around(h, node))
  }

  // ---------------------------------------------------------------------
  // What the construction keeps

  /** Every vertex of the subgraph is a host vertex. */
  ghost predicate Inside(b: Build, h: View)
  {
    forall u :: u in b.adj.m ==> u in h.adj
  }

  /** Two vertices of the subgraph are joined exactly when the host joins
      them and the pair has been handled: pairs without `node` always, and
      pairs with `node` once the other end is in `done`. */
  ghost predicate Joins(b: Build, h: View, node: Node, done: set<Node>)
  {
    forall u, v :: u in b.adj.m && v in b.adj.m ==>
      (v in b.adj.m[u] <==> u in h.adj && v in h.adj[u] && ((u != node && v != node) || (u == node && v in done) || (v == node && u in done)))
  }

  /** Two vertices of the subgraph are joined exactly when the host joins them. */
  ghost predicate Induced(b: Build, h: View)
  {
    forall u, v :: u in b.adj.m && v in b.adj.m ==> (v in b.adj.m[u] <==> u in h.adj && v in h.adj[u])
  }

  /** Every edge record belongs to a stored adjacency and is the default
      record `{weight: 1, label: ""}`. */
  ghost predicate Defaults(b: Build)
  {
    forall f :: f in b.edges.m ==> f.0 in b.adj.m && f.1 in b.adj.m[f.0] && b.edges.m[f] == DefaultRecord(1, "")
  }

  /** The state inside the inner loop for `node`, after the neighbours in `done`. */
  ghost predicate Midway(b: Build, h: View, node: Node, done: set<Node>)
  {
    Undirected.Inv(b.adj, b.nodes, b.edges) && Inside(b, h) && node in b.adj.m &&
    Joins(b, h, node, done) && Defaults(b)
  }

  /** The state between two passes of the outer loop. */
  ghost predicate Settled(b: Build, h: View)
  {
    Undirected.Inv(b.adj, b.nodes, b.edges) && Inside(b, h) && Induced(b, h) && Defaults(b)
  }

  lemma EmptySettled(h: View)
    ensures Settled(Empty(), h)
  {
  }

  /** A new vertex starts the inner loop with nothing handled. */
  lemma AddVertexMidway(b: Build, h: View, node: Node)
    requires Settled(b, h) && node !in b.adj.m && node in h.adj
    ensures Midway(AddVertex(b, node), h, node, {})
  {
    Undirected.AddNodeKeepsInv(b.adj, b.nodes, b.edges, node, DefaultRecord(1, ""));
    AddVertexJoins(b, h, node);
  }

  /** The new vertex is joined to nothing yet, and the other pairs keep
      the host's adjacency. */
  lemma AddVertexJoins(b: Build, h: View, node: Node)
    requires Closed(b.adj) && Induced(b, h) && node !in b.adj.m
    ensures Joins(AddVertex(b, node), h, node, {})
  {
    var a := AddVertex(b, node);
    forall u, v | u in a.adj.m && v in a.adj.m
      ensures v in a.adj.m[u] <==> u in h.adj && v in h.adj[u] && (u != node && v != node)
    {
      if u != node && v == node {
        assert node !in b.adj.m[u];
      }
    }
  }

  /** The edge record a pass adds is the default one. */
  lemma OfferRecords(b: Build, node: Node, nb: Node)
    requires Defaults(b) && node in b.adj.m && nb in b.adj.m && (node, nb) !in b.edges.m
    requires node != nb ==> (nb, node) !in b.edges.m
    ensures forall f :: f in Undirected.EdgeAdded(b.edges, (node, nb), 1, "", map[]).m ==>
              f in b.edges.m || f == (node, nb) || f == (nb, node)
    ensures forall f :: f in Undirected.EdgeAdded(b.edges, (node, nb), 1, "", map[]).m ==>
              Undirected.EdgeAdded(b.edges, (node, nb), 1, "", map[]).m[f] ==
              if f in b.edges.m then b.edges.m[f] else DefaultRecord(1, "")
  {
    assert DefaultRecord(1, "") + map[] == DefaultRecord(1, "");
    assert RecordOf(b.edges, (node, nb)) == map[];
    assert map[] + DefaultRecord(1, "") == DefaultRecord(1, "");
  }

  /** A neighbour not handled yet is not joined to `node`, and neither
      orientation of their edge has a record. */
  lemma Unjoined(b: Build, h: View, node: Node, nb: Node, done: set<Node>)
    requires Joins(b, h, node, done) && Defaults(b)
    requires node in b.adj.m && nb in b.adj.m && nb !in done
    ensures nb !in b.adj.m[node] && node !in b.adj.m[nb]
    ensures (node, nb) !in b.edges.m && (nb, node) !in b.edges.m
  {
  }

  /** Offering a neighbour outside the subgraph changes nothing and
      leaves no pair unhandled. */
  lemma SkipJoins(b: Build, h: View, node: Node, nb: Node, done: set<Node>)
    requires Joins(b, h, node, done) && nb !in b.adj.m
    ensures Joins(b, h, node, done + {nb})
  {
  }

  /** Joining `node` to a host neighbour handles that neighbour. */
  lemma LinkJoins(b: Build, h: View, node: Node, nb: Node, done: set<Node>, done': set<Node>, edges: Dict<Edge, Attrs>)
    requires Joins(b, h, node, done) && node in b.adj.m && nb in b.adj.m && done' == done + {nb}
    requires node in h.adj && nb in h.adj[node] && nb in h.adj && node in h.adj[nb]
    ensures Joins(Build(Undirected.Linked(b.adj, (node, nb)), b.nodes, edges), h, node, done')
  {
    Undirected.LinkedLists(b.adj, (node, nb));
  }

  /** Adding the edge with its default record keeps every record a default
      one on a stored adjacency. */
  lemma LinkDefaults(b: Build, node: Node, nb: Node)
    requires Defaults(b) && node in b.adj.m && nb in b.adj.m && (node, nb) !in b.edges.m
    requires node != nb ==> (nb, node) !in b.edges.m
    ensures Defaults(Build(Undirected.Linked(b.adj, (node, nb)), b.nodes, Undirected.EdgeAdded(b.edges, (node, nb), 1, "", map[])))
  {
    Undirected.LinkedLists(b.adj, (node, nb));
    OfferRecords(b, node, nb);
  }

  /** One pass of the inner loop handles one more neighbour. */
  lemma OfferStep(b: Build, h: View, node: Node, nbs: seq<Node>, j: nat)
    requires h.WF() && h.Symmetric() && node in h.adj && nbs == h.adj[node] && j < |nbs|
    requires Midway(b, h, node, Taken(nbs, j))
    ensures Midway(Offer(b, node, nbs[j]), h, node, Taken(nbs, j + 1))
  {
    var nb := nbs[j];
    TakenStep(nbs, j);
    TakenFresh(nbs, j);
    if nb !in b.adj.m {
      assert Offer(b, node, nb) == b;
      SkipJoins(b, h, node, nb, Taken(nbs, j));
    } else {
      Unjoined(b, h, node, nb, Taken(nbs, j));
      var r := Build(Undirected.Linked(b.adj, (node, nb)), b.nodes, Undirected.EdgeAdded(b.edges, (node, nb), 1, "", map[]));
      assert Offer(b, node, nb) == r;
      Undirected.AddEdgeKeepsInv(b.adj, b.nodes, b.edges, (node, nb), 1, "", map[]);
      assert Undirected.Inv(r.adj, r.nodes, r.edges);
      assert h.Adjacent(node, nb);
      LinkJoins(b, h, node, nb, Taken(nbs, j), Taken(nbs, j + 1), r.edges);
      LinkDefaults(b, node, nb);
    }
  }

  /** The whole inner loop. */
  lemma {:induction false} OfferAllMidway(b: Build, h: View, node: Node, nbs: seq<Node>, j: nat)
    requires h.WF() && h.Symmetric() && node in h.adj && nbs == h.adj[node] && j <= |nbs|
    requires Midway(b, h, node, {})
    ensures Midway(OfferAll(b, node, nbs[..j]), h, node, Taken(nbs, j))
  {
    if j == 0 {
      assert nbs[..0] == [];
      assert Taken(nbs, 0) == {};
    } else {
      OfferAllMidway(b, h, node, nbs, j - 1);
      OfferAllStep(b, h, node, nbs, j);
    }
  }

  lemma OfferAllStep(b: Build, h: View, node: Node, nbs: seq<Node>, j: nat)
    requires h.WF() && h.Symmetric() && node in h.adj && nbs == h.adj[node] && 0 < j <= |nbs|
    requires node in b.adj.m && Midway(OfferAll(b, node, nbs[..j - 1]), h, node, Taken(nbs, j - 1))
    ensures Midway(OfferAll(b, node, nbs[..j]), h, node, Taken(nbs, j))
  {
    OfferAllLast(b, node, nbs, j);
    OfferStep(OfferAll(b, node, nbs[..j - 1]), h, node, nbs, j - 1);
  }

  lemma OfferAllLast(b: Build, node: Node, nbs: seq<Node>, j: nat)
    requires node in b.adj.m && 0 < j <= |nbs|
    ensures OfferAll(b, node, nbs[..j]) == Offer(OfferAll(b, node, nbs[..j - 1]), node, nbs[j - 1])
  {
    assert nbs[..j][..j - 1] == nbs[..j - 1];
  }

  /** Once every neighbour of `node` was offered, the subgraph is induced. */
  lemma JoinsDone(b: Build, h: View, node: Node)
    requires h.WF() && h.Symmetric() && node in h.adj
    requires Joins(b, h, node, Elems(h.adj[node]))
    ensures Induced(b, h)
  {
    forall u, v | u in b.adj.m && v in b.adj.m ensures v in b.adj.m[u] <==> u in h.adj && v in h.adj[u] {
      if u in h.adj && v in h.adj[u] {
        assert h.Adjacent(u, v);
        assert h.Adjacent(v, u);
      }
    }
  }

  lemma MidwayDone(b: Build, h: View, node: Node)
    requires h.WF() && h.Symmetric() && node in h.adj
    requires Midway(b, h, node, Taken(h.adj[node], |h.adj[node]|))
    ensures Settled(b, h)
  {
    TakenAll(h.adj[node]);
    JoinsDone(b, h, node);
  }

  /** One pass of the outer loop keeps the construction settled. */
  lemma InduceStep(h: View, b: Build, node: Node)
    requires h.WF() && h.Symmetric() && node in h.adj && node !in b.adj.m
    requires Settled(b, h)
    ensures Settled(OfferAll(AddVertex(b, node), node, h.adj[node]), h)
  {
    var a := AddVertex(b, node);
    var nbs := h.adj[node];
    AddVertexMidway(b, h, node);
    OfferAllMidway(a, h, node, nbs, |nbs|);
    assert nbs[..|nbs|] == nbs;
    MidwayDone(OfferAll(a, node, nbs), h, node);
  }

  /** The construction lists the selected vertices in order, joins two of
      them exactly when the host does, and gives every vertex and every
      edge the default record. */
  lemma {:induction false} InduceSettled(h: View, c: seq<Node>)
    requires h.WF() && h.Symmetric() && Distinct(c) && forall n :: n in c ==> n in h.adj
    ensures Settled(Induce(h, c), h) && Induce(h, c).adj.keys == c
    decreases |c|
  {
    if c == [] {
      EmptySettled(h);
    } else {
      var prev := c[..|c| - 1];
      var node := c[|c| - 1];
      assert c == prev + [node];
      assert Distinct(prev) && node !in prev;
      InduceSettled(h, prev);
      var b := Induce(h, prev);
      assert node !in b.adj.m;
      InduceStep(h, b, node);
    }
  }

  /** A pair without an edge record is not joined either way. */
  lemma RecordlessApart(b: Build, node: Node, nb: Node)
    requires Undirected.Inv(b.adj, b.nodes, b.edges) && node in b.adj.m && (node, nb) !in b.edges.m
    ensures nb !in b.adj.m[node] && (nb in b.adj.m ==> node !in b.adj.m[nb])
  {
  }

  // ---------------------------------------------------------------------
  // The construction on a graph object

  /** The tables of a graph object. */
  function Tables(g: Undirected.Graph): Build
    reads g, g.data
  {
    Build(g.adj, g.data.nodesAttrs, g.data.edgesAttrs)
  }

  /** One pass of the inner loop: `if not subg.has_edge(new_edge)`, try
      `add_edge` with the default record and swallow its KeyError. */
  method OfferEdge(subg: Undirected.Graph, node: Node, nb: Node)
    requires subg.Valid() && node in subg.adj.m
    modifies subg, subg.data
    ensures subg.Valid()
    ensures Tables(subg) == Offer(old(Tables(subg)), node, nb)
  {
    ghost var before := Tables(subg);
    if !subg.HasEdge((node, nb)) {
      RecordlessApart(before, node, nb);
      var out := subg.AddEdge((node, nb), 1, "", map[]);
      assert out.Fail? ==> out.error == KeyError;
    }
  }

  /** The inner loop over the host neighbours `nbs` of `node`. */
  method OfferEdges(subg: Undirected.Graph, node: Node, nbs: seq<Node>)
    requires subg.Valid() && node in subg.adj.m
    modifies subg, subg.data
    ensures subg.Valid()
    ensures Tables(subg) == OfferAll(old(Tables(subg)), node, nbs)
  {
    ghost var a := Tables(subg);
    var j := 0;
    while j < |nbs|
      invariant 0 <= j <= |nbs|
      invariant subg.Valid() && node in subg.adj.m
      invariant Tables(subg) == OfferAll(a, node, nbs[..j])
    {
      assert nbs[..j + 1][..j] == nbs[..j];
      OfferEdge(subg, node, nbs[j]);
      j := j + 1;
    }
    assert nbs[..|nbs|] == nbs;
  }

  /** The outer loop's next pass, as `Induce` describes it. */
  lemma InduceUnfold(h: View, c: seq<Node>, i: nat, before: Build, nbs: seq<Node>)
    requires i < |c| && before == Induce(h, c[..i]) && nbs == Around(h, c[i])
    ensures OfferAll(AddVertex(before, c[i]), c[i], nbs) == Induce(h, c[..i + 1])
  {
    var d := c[..i + 1];
    assert d[..|d| - 1] == c[..i] && d[|d| - 1] == c[i];
  }

  /** One pass of the outer loop: `subg.add_node(node)`, then the inner loop. */
  method AddSelected(subg: Undirected.Graph, node: Node, nbs: seq<Node>)
    requires subg.Valid() && node !in subg.adj.m
    modifies subg, subg.data
    ensures subg.Valid()
    ensures Tables(subg) == OfferAll(AddVertex(old(Tables(subg)), node), node, nbs)
  {
    var added := subg.AddNode(node, 1, "", map[]);
    assert DefaultRecord(1, "") + map[] == DefaultRecord(1, "");
    OfferEdges(subg, node, nbs);
  }

  /** The outer loop's pass for `c[i]`, on the tables built from `c[..i]`. */
  method InduceNext(subg: Undirected.Graph, ghost hv: View, nbs: seq<Node>, c: seq<Node>, i: nat)
    requires hv.WF() && hv.Symmetric() && Distinct(c) && forall n :: n in c ==> n in hv.adj
    requires i < |c| && nbs == hv.adj[c[i]]
    requires subg.Valid() && Tables(subg) == Induce(hv, c[..i])
    modifies subg, subg.data
    ensures subg.Valid() && Tables(subg) == Induce(hv, c[..i + 1])
  {
    assert c[i] !in subg.adj.m by {
      assert Distinct(c[..i]) && c[i] !in c[..i];
      InduceSettled(hv, c[..i]);
    }
    InduceUnfold(hv, c, i, Tables(subg), nbs);
    AddSelected(subg, c[i], nbs);
  }

  /** The loop body of `is_subgraph` that builds `subg` from the vertices
      `sub_nodes` of `graph`: each vertex is added with the default record,
      then joined to every host neighbour already in `subg` whose edge it
      lacks; the KeyError of a neighbour not added yet is swallowed. */
  method InducedSubgraph(h: Undirected.Graph, c: seq<Node>) returns (subg: Undirected.Graph)
    requires h.Valid() && Distinct(c) && forall n :: n in c ==> n in h.adj.m
    ensures fresh(subg) && fresh(subg.data) && subg.Valid()
    ensures Tables(subg) == Induce(h.View(), c)
  {
    ghost var hv := h.View();
    h.ViewIsWellFormed();
    subg := new Undirected.Graph();
    assert Tables(subg) == Empty();
    var i := 0;
    while i < |c|
      invariant 0 <= i <= |c|
      invariant fresh(subg) && fresh(subg.data) && subg.Valid()
      invariant Tables(subg) == Induce(hv, c[..i])
    {
      InduceNext(subg, hv, h.adj.m[c[i]], c, i);
      i := i + 1;
    }
    assert c[..|c|] == c;
  }

  // ---------------------------------------------------------------------
  // The search

  lemma SettledShape(b: Build, h: View)
    requires Undirected.Inv(b.adj, b.nodes, b.edges)
    ensures b.Snapshot().WF() && b.Snapshot().Symmetric()
  {
  }

  lemma SettledTidy(b: Build)
    requires Undirected.Covered(b.adj, b.edges) && Defaults(b)
    ensures b.Snapshot().Tidy()
  {
    var w := b.Snapshot();
    forall u, v | u in w.adj && v in w.adj ensures w.HasEdge((u, v)) <==> v in w.adj[u] {
      if w.HasEdge((u, v)) {
        assert (u, v) in b.edges.m;
      }
    }
  }

  lemma SettledCopyable(b: Build)
    requires Closed(b.adj) && Defaults(b)
    ensures Undirected.Copyable(b.adj, b.edges)
  {
    forall f | f in b.edges.m ensures f.0 in b.adj.m && f.1 in b.adj.m && WellTyped(b.edges.m[f]) {
      assert b.edges.m[f] == DefaultRecord(1, "");
    }
  }

  /** What a settled construction looks like to the algorithms: a
      well-formed undirected snapshot whose edge records agree with its
      adjacency, and whose records `reverse` can copy. */
  lemma SettledView(b: Build, h: View)
    requires Settled(b, h)
    ensures b.Snapshot().WF() && b.Snapshot().Symmetric() && b.Snapshot().Tidy()
    ensures Undirected.Copyable(b.adj, b.edges)
  {
    SettledShape(b, h);
    SettledTidy(b);
    SettledCopyable(b);
  }

  /** The subgraph a selection induces, as the algorithms read it. */
  lemma InducedView(h: View, c: seq<Node>)
    requires h.WF() && h.Symmetric() && Distinct(c) && forall n :: n in c ==> n in h.adj
    ensures Induce(h, c).adj.keys == c
    ensures Induce(h, c).Snapshot().WF() && Induce(h, c).Snapshot().Symmetric() && Induce(h, c).Snapshot().Tidy()
    ensures Undirected.Copyable(Induce(h, c).adj, Induce(h, c).edges)
  {
    InduceSettled(h, c);
    SettledView(Induce(h, c), h);
  }

  /** The snapshot of the subgraph the selection `c` induces. */
  ghost function Piece(h: View, c: seq<Node>): (w: View)
    requires h.WF() && h.Symmetric() && Distinct(c) && forall n :: n in c ==> n in h.adj
    ensures w.WF() && w.Symmetric() && w.Tidy() && w.nodes == c
  {
    InducedView(h, c);
    Induce(h, c).Snapshot()
  }

  /** The truth value of what `isomorphism` returns: `False` and the
      empty assignment are both false. */
  predicate Truthy(o: Option<map<Node, Node>>)
  {
    o.Some? && o.value != map[]
  }

  /** The vertex selections `is_subgraph` tries: none unless the pattern
      has fewer vertices than the host. */
  function Candidates(h: View, p: View): seq<seq<Node>>
  {
    if |p.nodes| < |h.nodes| then Combinations(h.nodes, |p.nodes|) else []
  }

  /** Every selection is duplicate-free and made of host vertices. */
  ghost predicate Selections(h: View, cs: seq<seq<Node>>)
  {
    forall c :: c in cs ==> Distinct(c) && forall n :: n in c ==> n in h.adj
  }

  lemma CandidatesSelect(h: View, p: View)
    requires h.WF()
    ensures Selections(h, Candidates(h, p))
  {
    forall c | c in Candidates(h, p) ensures Distinct(c) && forall n :: n in c ==> n in h.adj {
      CombinationsExact(h.nodes, |p.nodes|, c);
      PicksFrom(c, h.nodes);
    }
  }

  /** What one selection does to the search. */
  datatype Step = Raise(error: Error) | Skip | Take

  /** The fate of the selection `c` once its induced subgraph is built:
      the empty selection makes `check_graph_is_connected` raise
      IndexError; a disconnected subgraph is skipped; a connected one of
      two or more vertices makes `reverse` raise AdditionError; a single
      vertex is connected and is taken when `isomorphism` gives a
      non-empty assignment. */
  ghost function Fate(h: View, p: View, c: seq<Node>): Step
    requires h.WF() && h.Symmetric() && p.WF() && Distinct(c) && forall n :: n in c ==> n in h.adj
  {
    var w := Piece(h, c);
    if c == [] then Raise(IndexError)
    else if !StronglyConnected(w) then Skip
    else if |c| >= 2 then Raise(AdditionError)
    else if Truthy(Isomorphism.Outcome(w, p)) then Take
    else Skip
  }

  /** The fates of the selections `cs`, in order. */
  ghost function Fates(h: View, p: View, cs: seq<seq<Node>>): (r: seq<Step>)
    requires h.WF() && h.Symmetric() && p.WF() && Selections(h, cs)
    ensures |r| == |cs| && forall i :: 0 <= i < |cs| ==> r[i] == Fate(h, p, cs[i])
  {
    seq(|cs|, i requires 0 <= i < |cs| => Fate(h, p, cs[i]))
  }

  /** The loop of `is_subgraph` over the selections `cs` whose fates are
      `fates`: the first selection that is not skipped decides the result. */
  function Decide(cs: seq<seq<Node>>, fates: seq<Step>): Result<Option<seq<Node>>>
    requires |fates| == |cs|
    decreases |cs|
  {
    if cs == [] then Ok(None)
    else
      match fates[0]
      case Raise(e) => Err(e)
      case Take => Ok(Some(cs[0]))
      case Skip => Decide(cs[1..], fates[1..])
  }

  /** The outcome of `is_subgraph` on a host and a pattern. */
  ghost function Searched(h: View, p: View): Result<Option<seq<Node>>>
    requires h.WF() && h.Symmetric() && p.WF()
  {
    CandidatesSelect(h, p);
    Decide(Candidates(h, p), Fates(h, p, Candidates(h, p)))
  }

  // ---------------------------------------------------------------------
  // The search on graph objects

  /** One pass of the loop of `is_subgraph`: build the subgraph `c`
      induces, ask `check_graph_is_connected` about it and, when it
      answers True, `isomorphism`. */
  method Attempt(host: Undirected.Graph, pattern: Undirected.Graph, c: seq<Node>) returns (step: Step, subg: Undirected.Graph)
    requires host.Valid() && pattern.Valid() && Distinct(c) && forall n :: n in c ==> n in host.adj.m
    ensures step == Fate(host.View(), pattern.View(), c)
    ensures Tables(subg) == Induce(host.View(), c)
  {
    ghost var hv := host.View();
    host.ViewIsWellFormed();
    subg := InducedSubgraph(host, c);
    InducedView(hv, c);
    assert subg.View() == Piece(hv, c);
    var connected := UndirectedConnected(subg);
    if connected.Err? {
      return Raise(connected.error), subg;
    }
    if !connected.value {
      return Skip, subg;
    }
    subg.ViewIsWellFormed();
    var phi := Isomorphism.Isomorphism(subg.View(), pattern.View());
    if phi.Some? && phi.value != map[] {
      return Take, subg;
    }
    return Skip, subg;
  }

  /** The result of `is_subgraph(graph, subgraph)`: `(True, subg)` becomes
      `Ok(Some(subg))`, `(False, None)` becomes `Ok(None)`, and an
      exception escaping from `check_graph_is_connected` an `Err`. */
  method IsSubgraph(host: Undirected.Graph, pattern: Undirected.Graph) returns (r: Result<Option<Undirected.Graph>>)
    requires host.Valid() && pattern.Valid()
    ensures var s := Searched(host.View(), pattern.View());
            (r.Err? <==> s.Err?) && (r.Err? ==> r.error == s.error) &&
            (r.Ok? ==> (r.value.Some? <==> s.value.Some?)) &&
            (r.Ok? && r.value.Some? ==> Tables(r.value.value) == Induce(host.View(), s.value.value))
    ensures |pattern.Nodes()| >= |host.Nodes()| ==> r == Ok(None)
  {
    ghost var hv, pv := host.View(), pattern.View();
    host.ViewIsWellFormed();
    pattern.ViewIsWellFormed();
    CandidatesSelect(hv, pv);
    var ns, k := host.Nodes(), |pattern.Nodes()|;
    if k < |ns| {
      var cs := Combinations(ns, k);
      assert cs == Candidates(hv, pv);
      r := Scan(host, pattern, cs, Fates(hv, pv, cs));
    } else {
      r := Ok(None);
    }
  }

  /** The loop of `is_subgraph` over the selections `cs`, whose fates are
      `fs`: it ends as `Decide` says. */
  method Scan(host: Undirected.Graph, pattern: Undirected.Graph, cs: seq<seq<Node>>, ghost fs: seq<Step>)
      returns (r: Result<Option<Undirected.Graph>>)
    requires host.Valid() && pattern.Valid()
    requires host.View().WF() && host.View().Symmetric() && pattern.View().WF()
    requires Selections(host.View(), cs) && fs == Fates(host.View(), pattern.View(), cs)
    ensures var d := Decide(cs, fs);
            (r.Err? <==> d.Err?) && (r.Err? ==> r.error == d.error) &&
            (r.Ok? ==> (r.value.Some? <==> d.value.Some?)) &&
            (r.Ok? && r.value.Some? ==> Tables(r.value.value) == Induce(host.View(), d.value.value))
  {
    ghost var target := Decide(cs, fs);
    assert cs[0..] == cs && fs[0..] == fs;
    var i := 0;
    while i < |cs|
      invariant 0 <= i <= |cs|
      invariant target == Decide(cs[i..], fs[i..])
    {
      var step, subg := Pass(host, pattern, cs, fs, i);
      DecideStep(cs, fs, i);
      if step.Raise? {
        return Err(step.error);
      }
      if step.Take? {
        return Ok(Some(subg));
      }
      i := i + 1;
    }
    return Ok(None);
  }

  /** The pass of the loop of `is_subgraph` for `cs[i]`. */
  method Pass(host: Undirected.Graph, pattern: Undirected.Graph, cs: seq<seq<Node>>, ghost fs: seq<Step>, i: nat)
      returns (step: Step, subg: Undirected.Graph)
    requires host.Valid() && pattern.Valid()
    requires host.View().WF() && host.View().Symmetric() && pattern.View().WF()
    requires Selections(host.View(), cs) && fs == Fates(host.View(), pattern.View(), cs) && i < |cs|
    ensures step == fs[i] && Tables(subg) == Induce(host.View(), cs[i])
  {
    assert cs[i] in cs;
    step, subg := Attempt(host, pattern, cs[i]);
  }

  /** The loop's pass for `cs[i]`. */
  lemma DecideStep(cs: seq<seq<Node>>, fates: seq<Step>, i: nat)
    requires |fates| == |cs| && i < |cs|
    ensures Decide(cs[i..], fates[i..]) ==
              match fates[i]
              case Raise(e) => Err(e)
              case Take => Ok(Some(cs[i]))
              case Skip => Decide(cs[i + 1..], fates[i + 1..])
  {
    assert cs[i..][1..] == cs[i + 1..] && fates[i..][1..] == fates[i + 1..];
  }

  // ---------------------------------------------------------------------
  // What the search establishes

  /** A selection is skipped exactly when it is not empty and its
      subgraph, if connected, is a single vertex the pattern does not match. */
  lemma SkipMeans(h: View, p: View, c: seq<Node>)
    requires h.WF() && h.Symmetric() && p.WF() && Distinct(c) && forall n :: n in c ==> n in h.adj
    ensures Fate(h, p, c).Skip? <==>
              c != [] && (StronglyConnected(Piece(h, c)) ==> |c| == 1 && !Truthy(Isomorphism.Outcome(Piece(h, c), p)))
  {
  }

  /** A selection is taken exactly when it is a single vertex whose
      (connected) subgraph `isomorphism` matches with the pattern. */
  lemma TakeMeans(h: View, p: View, c: seq<Node>)
    requires h.WF() && h.Symmetric() && p.WF() && Distinct(c) && forall n :: n in c ==> n in h.adj
    ensures Fate(h, p, c) == Take <==>
              |c| == 1 && StronglyConnected(Piece(h, c)) && Truthy(Isomorphism.Outcome(Piece(h, c), p))
  {
  }

  /** The search raises IndexError at the empty selection and
      AdditionError at a connected selection of two or more vertices,
      and nowhere else. */
  lemma RaiseMeans(h: View, p: View, c: seq<Node>, e: Error)
    requires h.WF() && h.Symmetric() && p.WF() && Distinct(c) && forall n :: n in c ==> n in h.adj
    ensures Fate(h, p, c) == Raise(e) <==>
              (c == [] && e == IndexError) || (|c| >= 2 && StronglyConnected(Piece(h, c)) && e == AdditionError)
  {
  }

  /** The loop ends with `(False, None)` exactly when every selection is skipped. */
  lemma {:induction false} DecideNone(cs: seq<seq<Node>>, fates: seq<Step>)
    requires |fates| == |cs|
    ensures Decide(cs, fates) == Ok(None) <==> forall i :: 0 <= i < |fates| ==> fates[i] == Skip
    decreases |cs|
  {
    if cs != [] {
      DecideNone(cs[1..], fates[1..]);
      if fates[0] == Skip {
        assert forall i :: 1 <= i < |fates| ==> fates[i] == fates[1..][i - 1];
      }
    }
  }

  /** What the loop returns is the first selection that is not skipped,
      and it was taken. */
  lemma {:induction false} DecideFound(cs: seq<seq<Node>>, fates: seq<Step>, c: seq<Node>) returns (i: nat)
    requires |fates| == |cs| && Decide(cs, fates) == Ok(Some(c))
    ensures i < |cs| && cs[i] == c && fates[i] == Take
    ensures forall j :: 0 <= j < i ==> fates[j] == Skip
    decreases |cs|
  {
    if fates[0] == Take {
      i := 0;
    } else {
      var k := DecideFound(cs[1..], fates[1..], c);
      i := k + 1;
      forall j | 0 <= j < i ensures fates[j] == Skip {
        if j > 0 {
          assert fates[j] == fates[1..][j - 1];
        }
      }
    }
  }

  /** The loop raises the error of the first selection that is not
      skipped, and that selection raises. */
  lemma {:induction false} DecideRaises(cs: seq<seq<Node>>, fates: seq<Step>) returns (i: nat)
    requires |fates| == |cs| && Decide(cs, fates).Err?
    ensures i < |cs| && fates[i] == Raise(Decide(cs, fates).error)
    ensures forall j :: 0 <= j < i ==> fates[j] == Skip
    decreases |cs|
  {
    if fates[0].Raise? {
      i := 0;
    } else {
      var k := DecideRaises(cs[1..], fates[1..]);
      i := k + 1;
      forall j | 0 <= j < i ensures fates[j] == Skip {
        if j > 0 {
          assert fates[j] == fates[1..][j - 1];
        }
      }
    }
  }

  /** An empty pattern and a non-empty host: the only selection is the
      empty one, whose subgraph makes `check_graph_is_connected` raise
      IndexError. */
  lemma SearchedEmptyPattern(h: View, p: View)
    requires h.WF() && h.Symmetric() && p.WF()
    requires p.nodes == [] && h.nodes != []
    ensures Searched(h, p) == Err(IndexError)
  {
    assert Candidates(h, p) == [[]];
    CandidatesSelect(h, p);
    assert Fates(h, p, [[]])[0] == Raise(IndexError);
  }

  /** A found subgraph comes from the first selection that is not
      skipped. */
  lemma SearchedFirst(h: View, p: View, c: seq<Node>) returns (i: nat)
    requires h.WF() && h.Symmetric() && p.WF()
    requires Searched(h, p) == Ok(Some(c))
    ensures i < |Candidates(h, p)| && Candidates(h, p)[i] == c
    ensures (CandidatesSelect(h, p);
             Fates(h, p, Candidates(h, p))[i] == Take &&
             forall j :: 0 <= j < i ==> Fates(h, p, Candidates(h, p))[j] == Skip)
  {
    CandidatesSelect(h, p);
    var cs := Candidates(h, p);
    i := DecideFound(cs, Fates(h, p, cs), c);
  }

  /** A found selection is one of the candidates, made of distinct host
      vertices, and its fate is Take. */
  lemma SearchedTaken(h: View, p: View, c: seq<Node>)
    requires h.WF() && h.Symmetric() && p.WF()
    requires Searched(h, p) == Ok(Some(c))
    ensures c in Candidates(h, p) && Distinct(c) && (forall n :: n in c ==> n in h.adj)
    ensures Fate(h, p, c) == Take
  {
    var i := SearchedFirst(h, p, c);
    var cs := Candidates(h, p);
    assert cs[i] == c;
    CombinationsExact(h.nodes, |p.nodes|, c);
    PicksFrom(c, h.nodes);
  }

  /** A found subgraph is induced by a selection of as many host vertices
      as the pattern has, taken in host order; it is connected, and it is
      isomorphic to the pattern when the pattern is undirected with edge
      records that agree with its adjacency. It always has one vertex. */
  lemma SearchedFound(h: View, p: View, c: seq<Node>)
    requires h.WF() && h.Symmetric() && p.WF()
    requires Searched(h, p) == Ok(Some(c))
    ensures Picks(c, h.nodes) && |c| == |p.nodes| < |h.nodes|
    ensures Distinct(c) && (forall n :: n in c ==> n in h.adj)
    ensures Induce(h, c).adj.keys == c && Induced(Induce(h, c), h)
    ensures StronglyConnected(Piece(h, c)) && Truthy(Isomorphism.Outcome(Piece(h, c), p))
    ensures p.Symmetric() && p.Tidy() ==> Isomorphic(Piece(h, c), p)
    ensures |c| == 1
  {
    SearchedTaken(h, p, c);
    CombinationsExact(h.nodes, |p.nodes|, c);
    TakeMeans(h, p, c);
    InduceSettled(h, c);
    if p.Symmetric() && p.Tidy() {
      FoundMatches(h, p, c);
    }
  }

  /** The single-vertex match of a found selection is an isomorphism. */
  lemma FoundMatches(h: View, p: View, c: seq<Node>)
    requires h.WF() && h.Symmetric() && p.WF() && p.Symmetric() && p.Tidy()
    requires Distinct(c) && (forall n :: n in c ==> n in h.adj)
    requires Truthy(Isomorphism.Outcome(Piece(h, c), p))
    ensures Isomorphic(Piece(h, c), p)
  {
    var w := Piece(h, c);
    OutcomeSound(w, p);
    assert IsIsomorphism(w, p, Isomorphism.Outcome(w, p).value);
  }

  /** Among selections of two or more vertices, skipped means disconnected. */
  lemma LargeSkips(h: View, p: View)
    requires h.WF() && h.Symmetric() && p.WF() && 2 <= |p.nodes|
    ensures Selections(h, Candidates(h, p))
    ensures forall c :: c in Candidates(h, p) ==> |c| >= 2
    ensures forall c :: c in Candidates(h, p) ==> (Fate(h, p, c).Skip? <==> !StronglyConnected(Piece(h, c)))
  {
    CandidatesSelect(h, p);
    forall c | c in Candidates(h, p) ensures |c| >= 2 && (Fate(h, p, c).Skip? <==> !StronglyConnected(Piece(h, c))) {
      CombinationsExact(h.nodes, |p.nodes|, c);
      SkipMeans(h, p, c);
    }
  }

  /** With a pattern of two or more vertices the search can never find
      anything: it ends with `(False, None)` or raises AdditionError. */
  lemma SearchedLarge(h: View, p: View)
    requires h.WF() && h.Symmetric() && p.WF() && 2 <= |p.nodes|
    ensures Searched(h, p) == Ok(None) || Searched(h, p) == Err(AdditionError)
  {
    LargeSkips(h, p);
    var cs := Candidates(h, p);
    var fs := Fates(h, p, cs);
    var s := Searched(h, p);
    if s.Ok? && s.value.Some? {
      var c := s.value.value;
      var i := DecideFound(cs, fs, c);
      TakeMeans(h, p, cs[i]);
      assert false;
    }
    if s.Err? {
      var i := DecideRaises(cs, fs);
      RaiseMeans(h, p, cs[i], s.error);
    }
  }

  /** Every selection is skipped exactly when none induces a connected
      subgraph, where skipped means disconnected. */
  lemma AllSkipped(h: View, p: View, cs: seq<seq<Node>>)
    requires h.WF() && h.Symmetric() && p.WF() && Selections(h, cs)
    requires forall c :: c in cs ==> (Fate(h, p, c).Skip? <==> !StronglyConnected(Piece(h, c)))
    ensures (forall i :: 0 <= i < |cs| ==> Fates(h, p, cs)[i] == Skip) <==>
            (forall c :: c in cs ==> !StronglyConnected(Piece(h, c)))
  {
    var fs := Fates(h, p, cs);
    if forall c :: c in cs ==> !StronglyConnected(Piece(h, c)) {
      forall i | 0 <= i < |fs| ensures fs[i] == Skip {
        assert cs[i] in cs;
      }
    }
    if forall i :: 0 <= i < |fs| ==> fs[i] == Skip {
      forall c | c in cs ensures !StronglyConnected(Piece(h, c)) {
        var i :| 0 <= i < |cs| && cs[i] == c;
      }
    }
  }

  /** With a pattern of two or more vertices, `(False, None)` comes back
      exactly when no selection induces a connected subgraph. */
  lemma SearchedLargeNone(h: View, p: View)
    requires h.WF() && h.Symmetric() && p.WF() && 2 <= |p.nodes|
    ensures (CandidatesSelect(h, p);
             Searched(h, p) == Ok(None) <==> forall c :: c in Candidates(h, p) ==> !StronglyConnected(Piece(h, c)))
  {
    LargeSkips(h, p);
    var cs := Candidates(h, p);
    DecideNone(cs, Fates(h, p, cs));
    AllSkipped(h, p, cs);
  }

  /** The subgraph a single vertex induces is connected. */
  lemma SingleConnected(h: View, c: seq<Node>)
    requires h.WF() && h.Symmetric() && |c| == 1 && c[0] in h.adj
    ensures StronglyConnected(Piece(h, c))
  {
    var w := Piece(h, c);
    ReachSelf(w, c[0]);
    forall u, v | u in w.adj && v in w.adj ensures Reaches(w, u, v) {
      assert u in w.nodes && v in w.nodes;
    }
  }

  /** With a one-vertex pattern no selection raises, and a selection is
      skipped exactly when `isomorphism` does not match its one vertex
      with the pattern. */
  lemma SingleFates(h: View, p: View)
    requires h.WF() && h.Symmetric() && p.WF() && |p.nodes| == 1
    ensures Selections(h, Candidates(h, p))
    ensures forall c :: c in Candidates(h, p) ==>
              !Fate(h, p, c).Raise? && (Fate(h, p, c).Skip? <==> !Truthy(Isomorphism.Outcome(Piece(h, c), p)))
  {
    CandidatesSelect(h, p);
    forall c | c in Candidates(h, p)
      ensures !Fate(h, p, c).Raise? && (Fate(h, p, c).Skip? <==> !Truthy(Isomorphism.Outcome(Piece(h, c), p)))
    {
      CombinationsExact(h.nodes, 1, c);
      SingleConnected(h, c);
      SkipMeans(h, p, c);
    }
  }

  /** Every selection is skipped exactly when `isomorphism` matches none
      alone with the pattern, where skipped means unmatched. */
  lemma AllUnmatched(h: View, p: View, cs: seq<seq<Node>>)
    requires h.WF() && h.Symmetric() && p.WF() && Selections(h, cs)
    requires forall c :: c in cs ==> (Fate(h, p, c).Skip? <==> !Truthy(Isomorphism.Outcome(Piece(h, c), p)))
    ensures (forall i :: 0 <= i < |cs| ==> Fates(h, p, cs)[i] == Skip) <==>
            (forall c :: c in cs ==> !Truthy(Isomorphism.Outcome(Piece(h, c), p)))
  {
    var fs := Fates(h, p, cs);
    if forall c :: c in cs ==> !Truthy(Isomorphism.Outcome(Piece(h, c), p)) {
      forall i | 0 <= i < |fs| ensures fs[i] == Skip {
        assert cs[i] in cs;
      }
    }
    if forall i :: 0 <= i < |fs| ==> fs[i] == Skip {
      forall c | c in cs ensures !Truthy(Isomorphism.Outcome(Piece(h, c), p)) {
        var i :| 0 <= i < |cs| && cs[i] == c;
        assert Fate(h, p, c) == fs[i] == Skip;
      }
    }
  }

  /** The loop raises only when some selection does. */
  lemma NoRaise(cs: seq<seq<Node>>, fates: seq<Step>)
    requires |fates| == |cs| && forall i :: 0 <= i < |fates| ==> !fates[i].Raise?
    ensures Decide(cs, fates).Ok?
  {
    if Decide(cs, fates).Err? {
      var i := DecideRaises(cs, fates);
    }
  }

  /** With a one-vertex pattern the search never raises, and it comes
      back with `(False, None)` exactly when no host vertex, alone, is
      matched with the pattern by `isomorphism`: a matching vertex is
      always found. */
  lemma SearchedSingle(h: View, p: View)
    requires h.WF() && h.Symmetric() && p.WF() && |p.nodes| == 1
    ensures Searched(h, p).Ok?
    ensures (CandidatesSelect(h, p);
             Searched(h, p) == Ok(None) <==>
               forall c :: c in Candidates(h, p) ==> !Truthy(Isomorphism.Outcome(Piece(h, c), p)))
  {
    SingleFates(h, p);
    var cs := Candidates(h, p);
    var fs := Fates(h, p, cs);
    forall i | 0 <= i < |fs| ensures !fs[i].Raise? {
      assert cs[i] in cs;
    }
    NoRaise(cs, fs);
    DecideNone(cs, fs);
    AllUnmatched(h, p, cs);
  }
}
