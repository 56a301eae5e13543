/** What both graph classes offer read-only: a snapshot of the graph as a
    value (vertices in insertion order, adjacency lists, edge keys and the
    attribute records), its order, and structural equality. The algorithms
    of the library only ever read a graph through these. */
module CommonMixin {
  import opened Base
  import opened DataMixin

  /** A read-only snapshot of a graph. `edges` lists the edge keys as the
      graph's `edges()` yields them; `HasEdge` consults the edge records,
      as the library's `has_edge` does. */
  datatype View = View(
    directed: bool,
    nodes: seq<Node>,
    adj: map<Node, seq<Node>>,
    edges: seq<Edge>,
    nodeAttrs: map<Node, Attrs>,
    edgeAttrs: map<Edge, Attrs>)
  {
    predicate HasNode(n: Node)
    {
      n in adj
    }

    predicate HasEdge(e: Edge)
    {
      e in edgeAttrs
    }

    /** Whether `v` is in the neighbour list of `u` (`v in graph[u]`). */
    predicate Adjacent(u: Node, v: Node)
    {
      u in adj && v in adj[u]
    }

    /** The shape every graph object keeps: distinct vertices with one
        adjacency list each, lists without duplicates that only name
        vertices, one attribute record per vertex, distinct edge keys that
        are exactly the keys of the edge records. */
    ghost predicate WF()
    {
      Distinct(nodes) &&
      (forall n :: n in adj <==> n in nodes) &&
      (forall u, v :: u in adj && v in adj[u] ==> v in adj) &&
      (forall u :: u in adj ==> Distinct(adj[u])) &&
      nodeAttrs.Keys == adj.Keys &&
      Distinct(edges) &&
      (forall e :: e in edgeAttrs <==> e in edges)
    }

    /** Edge records between vertices agree with the adjacency lists. */
    ghost predicate Tidy()
    {
      forall u, v :: u in adj && v in adj ==> (HasEdge((u, v)) <==> v in adj[u])
    }

    /** Undirected adjacency: every neighbour relation holds both ways. */
    ghost predicate Symmetric()
    {
      forall u, v :: Adjacent(u, v) ==> Adjacent(v, u)
    }

    /** `order()` and `len(graph)`: the length of `nodes()`. */
    function Order(): nat
    {
      |nodes|
    }
  }

  /** The order of a well-formed graph is its number of distinct vertices. */
  lemma {:induction false} OrderIsVertexCount(g: View)
    requires g.WF()
    ensures g.Order() == |g.adj.Keys|
  {
    DistinctCard(g.nodes);
    assert Elems(g.nodes) == g.adj.Keys;
  }

  /** CommonMixin's `__eq__`: mutual inclusion of the vertex sets and of the
      edge sets. */
  predicate CommonEq(a: View, b: View)
  {
    (forall n :: n in a.nodes ==> b.HasNode(n)) &&
    (forall n :: n in b.nodes ==> a.HasNode(n)) &&
    (forall e :: e in a.edges ==> b.HasEdge(e)) &&
    (forall e :: e in b.edges ==> a.HasEdge(e))
  }

  /** DataMixin's `nodes_eq`: walks `a`'s vertices in order, comparing the
      two records; a vertex without a record raises. */
  function NodesEq(ns: seq<Node>, a: View, b: View): Result<bool>
  {
    if ns == [] then Ok(true)
    else if ns[0] !in a.nodeAttrs || ns[0] !in b.nodeAttrs then Err(NodeNotFoundError)
    else if !AttrsEq(a.nodeAttrs[ns[0]], b.nodeAttrs[ns[0]]) then Ok(false)
    else NodesEq(ns[1..], a, b)
  }

  /** DataMixin's `edges_eq`. */
  function EdgesEq(es: seq<Edge>, a: View, b: View): Result<bool>
  {
    if es == [] then Ok(true)
    else if es[0] !in a.edgeAttrs || es[0] !in b.edgeAttrs then Err(EdgeNotFoundError)
    else if !AttrsEq(a.edgeAttrs[es[0]], b.edgeAttrs[es[0]]) then Ok(false)
    else EdgesEq(es[1..], a, b)
  }

  /** DataMixin's `__eq__`: `nodes_eq() and edges_eq()`. */
  function DataEq(a: View, b: View): Result<bool>
  {
    match NodesEq(a.nodes, a, b)
    case Err(e) => Err(e)
    case Ok(same) => if !same then Ok(false) else EdgesEq(a.edges, a, b)
  }

  /** `graph == other` for both classes: the structural comparison first,
      the attribute comparison only when that succeeds. */
  function GraphEq(a: View, b: View): Result<bool>
  {
    if !CommonEq(a, b) then Ok(false) else DataEq(a, b)
  }

  lemma {:induction false} NodesEqMeans(ns: seq<Node>, a: View, b: View)
    requires forall n :: n in ns ==> n in a.nodeAttrs && n in b.nodeAttrs
    ensures NodesEq(ns, a, b) == Ok(forall n :: n in ns ==> NormalRecord(a.nodeAttrs[n]) == NormalRecord(b.nodeAttrs[n]))
  {
    if ns != [] {
      AttrsEqIsEquality(a.nodeAttrs[ns[0]], b.nodeAttrs[ns[0]]);
      NodesEqMeans(ns[1..], a, b);
    }
  }

  lemma {:induction false} EdgesEqMeans(es: seq<Edge>, a: View, b: View)
    requires forall e :: e in es ==> e in a.edgeAttrs && e in b.edgeAttrs
    ensures EdgesEq(es, a, b) == Ok(forall e :: e in es ==> NormalRecord(a.edgeAttrs[e]) == NormalRecord(b.edgeAttrs[e]))
  {
    if es != [] {
      AttrsEqIsEquality(a.edgeAttrs[es[0]], b.edgeAttrs[es[0]]);
      EdgesEqMeans(es[1..], a, b);
    }
  }

  /** Two maps over the same keys, listed by `ks`, are equal exactly when
      they agree at every listed key. */
  lemma AgreeOnListedKeys<K, V>(m1: map<K, V>, m2: map<K, V>, ks: seq<K>)
    requires m1.Keys == m2.Keys && forall k :: k in m1 <==> k in ks
    ensures (forall k :: k in ks ==> m1[k] == m2[k]) <==> m1 == m2
  {
    if forall k :: k in ks ==> m1[k] == m2[k] {
      assert forall k :: k in m1 ==> m1[k] == m2[k];
    }
  }

  lemma NodeRecordsEq(a: View, b: View)
    requires a.nodeAttrs.Keys == b.nodeAttrs.Keys && forall n :: n in a.nodeAttrs <==> n in a.nodes
    ensures NodesEq(a.nodes, a, b) == Ok(NormalTable(a.nodeAttrs) == NormalTable(b.nodeAttrs))
  {
    NodesEqMeans(a.nodes, a, b);
    AgreeOnListedKeys(NormalTable(a.nodeAttrs), NormalTable(b.nodeAttrs), a.nodes);
  }

  lemma EdgeRecordsEq(a: View, b: View)
    requires a.edgeAttrs.Keys == b.edgeAttrs.Keys && forall e :: e in a.edgeAttrs <==> e in a.edges
    ensures EdgesEq(a.edges, a, b) == Ok(NormalTable(a.edgeAttrs) == NormalTable(b.edgeAttrs))
  {
    EdgesEqMeans(a.edges, a, b);
    AgreeOnListedKeys(NormalTable(a.edgeAttrs), NormalTable(b.edgeAttrs), a.edges);
  }

  /** Graph equality never raises on well-formed graphs and holds exactly
      when the two graphs have the same vertices, the same edge keys and
      records that compare equal (booleans read as integers), whatever the
      insertion order of either. */
  lemma GraphEqMeans(a: View, b: View)
    requires a.WF() && b.WF()
    ensures GraphEq(a, b) == Ok(a.adj.Keys == b.adj.Keys &&
      NormalTable(a.nodeAttrs) == NormalTable(b.nodeAttrs) && NormalTable(a.edgeAttrs) == NormalTable(b.edgeAttrs))
    ensures a.adj.Keys == b.adj.Keys && a.nodeAttrs == b.nodeAttrs && a.edgeAttrs == b.edgeAttrs ==> GraphEq(a, b) == Ok(true)
  {
    CommonEqMeans(a, b);
    if CommonEq(a, b) {
      assert forall n :: n in a.nodeAttrs <==> n in a.nodes;
      NodeRecordsEq(a, b);
      EdgeRecordsEq(a, b);
    }
  }

  /** The structural comparison holds exactly when the vertex sets and the
      edge-key sets coincide. */
  lemma CommonEqMeans(a: View, b: View)
    requires a.WF() && b.WF()
    ensures CommonEq(a, b) <==> a.adj.Keys == b.adj.Keys && a.edgeAttrs.Keys == b.edgeAttrs.Keys
  {
    if CommonEq(a, b) {
      assert a.adj.Keys == b.adj.Keys;
      assert a.edgeAttrs.Keys == b.edgeAttrs.Keys;
    }
  }

  /** Equality is symmetric. */
  lemma GraphEqSymmetric(a: View, b: View)
    requires a.WF() && b.WF()
    ensures GraphEq(a, b) == GraphEq(b, a)
  {
    GraphEqMeans(a, b);
    GraphEqMeans(b, a);
  }
}
