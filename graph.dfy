/** The undirected graph: one neighbour list per vertex, kept symmetric; a
    non-loop edge is stored under both orientations in the edge records, a
    self-loop once. */
module Undirected {
  import opened Base
  import opened DataMixin
  import opened CommonMixin
  import opened Adjacency

  /** The edge table after `add_edge(e, weight, label, attrs)` has written
      its records: a new non-loop edge gets two equal records appended, a
      self-loop one record merged into whatever record was already there. */
  function EdgeAdded(d: Dict<Edge, Attrs>, e: Edge, weight: int, text: string, attrs: Attrs): Dict<Edge, Attrs>
  {
    var rec := DefaultRecord(weight, text) + attrs;
    if e.0 == e.1 then d.Put(e, RecordOf(d, e) + rec)
    else Dict(d.keys + [e, Reversed(e)], d.m[e := rec][Reversed(e) := rec])
  }

  /** The first write to a new non-loop edge creates both records. */
  lemma UpsertFreshEdge(d: Dict<Edge, Attrs>, e: Edge, key: string, value: Value)
    requires e.0 != e.1 && e !in d.m && Reversed(e) !in d.m
    ensures UpsertEdge(d, e, key, value, false)
         == Dict(d.keys + [e, Reversed(e)], d.m[e := map[key := value]][Reversed(e) := map[key := value]])
  {
  }

  /** A later write to a non-loop edge updates both records in place. */
  lemma UpsertBothEdge(d: Dict<Edge, Attrs>, e: Edge, key: string, value: Value)
    requires e.0 != e.1 && e in d.m && Reversed(e) in d.m
    ensures UpsertEdge(d, e, key, value, false)
         == Dict(d.keys, d.m[e := d.m[e][key := value]][Reversed(e) := d.m[Reversed(e)][key := value]])
  {
  }

  lemma MergeBothEdge(d: Dict<Edge, Attrs>, e: Edge, attrs: Attrs)
    requires e.0 != e.1 && e in d.m && Reversed(e) in d.m
    ensures MergeEdge(d, e, attrs, false)
         == Dict(d.keys, d.m[e := d.m[e] + attrs][Reversed(e) := d.m[Reversed(e)] + attrs])
  {
    if attrs == map[] {
      assert d.m[e] + attrs == d.m[e];
      assert d.m[Reversed(e)] + attrs == d.m[Reversed(e)];
    }
  }

  /** The weight and label writes of `add_edge` to a self-loop record. */
  lemma LoopFieldsWritten(d: Dict<Edge, Attrs>, e: Edge, weight: int, text: string)
    requires e.0 == e.1
    ensures UpsertEdge(UpsertEdge(d, e, "weight", IntVal(weight), false), e, "label", StrVal(text), false)
         == d.Put(e, RecordOf(d, e) + DefaultRecord(weight, text))
  {
    var w, l := IntVal(weight), StrVal(text);
    var rec0 := RecordOf(d, e);
    var d1 := UpsertEdge(d, e, "weight", w, false);
    assert d1 == d.Put(e, rec0["weight" := w]) by {
      assert d1 == Upsert(d, e, "weight", w);
    }
    assert rec0["weight" := w]["label" := l] == rec0 + DefaultRecord(weight, text);
    assert UpsertEdge(d1, e, "label", l, false) == Upsert(d1, e, "label", l);
    assert RecordOf(d1, e) == rec0["weight" := w];
  }

  /** The three writes of `add_edge` to a self-loop record. */
  lemma LoopRecordWritten(d: Dict<Edge, Attrs>, e: Edge, weight: int, text: string, attrs: Attrs)
    requires e.0 == e.1
    ensures MergeEdge(UpsertEdge(UpsertEdge(d, e, "weight", IntVal(weight), false), e, "label", StrVal(text), false), e, attrs, false)
         == EdgeAdded(d, e, weight, text, attrs)
  {
    var def := DefaultRecord(weight, text);
    var rec0 := RecordOf(d, e);
    LoopFieldsWritten(d, e, weight, text);
    var d2 := d.Put(e, rec0 + def);
    assert rec0 + (def + attrs) == rec0 + def + attrs;
    if attrs == map[] {
      assert def + attrs == def;
      assert rec0 + def + attrs == rec0 + def;
    } else {
      assert MergeEdge(d2, e, attrs, false) == d2.Put(e, rec0 + def + attrs);
    }
  }

  /** The three writes of `add_edge` to the records of a new non-loop edge. */
  lemma PairRecordsWritten(d: Dict<Edge, Attrs>, e: Edge, weight: int, text: string, attrs: Attrs)
    requires e.0 != e.1 && e !in d.m && Reversed(e) !in d.m
    ensures MergeEdge(UpsertEdge(UpsertEdge(d, e, "weight", IntVal(weight), false), e, "label", StrVal(text), false), e, attrs, false)
         == EdgeAdded(d, e, weight, text, attrs)
  {
    var w, l := IntVal(weight), StrVal(text);
    var def := DefaultRecord(weight, text);
    var r := Reversed(e);
    UpsertFreshEdge(d, e, "weight", w);
    var d1 := UpsertEdge(d, e, "weight", w, false);
    UpsertBothEdge(d1, e, "label", l);
    var d2 := UpsertEdge(d1, e, "label", l, false);
    assert map["weight" := w]["label" := l] == def;
    assert d2 == Dict(d.keys + [e, r], d.m[e := def][r := def]);
    MergeBothEdge(d2, e, attrs);
  }

  /** The invariant graph operations keep: symmetric duplicate-free
      neighbour lists over existing vertices, one record per vertex, a
      record under each orientation of every stored edge, and no non-loop
      record without its edge. A self-loop record may outlive its vertex. */
  ghost predicate Inv(adj: Dict<Node, seq<Node>>, nodes: Dict<Node, Attrs>, edges: Dict<Edge, Attrs>)
  {
    Tables(adj, nodes, edges) && Closed(adj) && ListsDistinct(adj) && Sym(adj) &&
    Covered(adj, edges) && Sound(adj, edges)
  }

  ghost predicate Tables(adj: Dict<Node, seq<Node>>, nodes: Dict<Node, Attrs>, edges: Dict<Edge, Attrs>)
  {
    adj.Valid() && nodes.Valid() && edges.Valid() && (forall n :: n in adj.m <==> n in nodes.m)
  }

  /** Adjacency symmetry: `v` is a neighbour of `u` exactly when `u` is one of `v`. */
  ghost predicate Sym(adj: Dict<Node, seq<Node>>)
  {
    forall u, v :: u in adj.m && v in adj.m[u] ==> v in adj.m && u in adj.m[v]
  }

  /** Every stored adjacency has its edge record. */
  ghost predicate Covered(adj: Dict<Node, seq<Node>>, edges: Dict<Edge, Attrs>)
  {
    forall u, v :: u in adj.m && v in adj.m[u] ==> (u, v) in edges.m
  }

  /** Every non-loop edge record belongs to a stored adjacency. */
  ghost predicate Sound(adj: Dict<Node, seq<Node>>, edges: Dict<Edge, Attrs>)
  {
    forall e :: e in edges.m && e.0 != e.1 ==> e.0 in adj.m && e.1 in adj.m[e.0]
  }

  lemma AddNodeKeepsInv(adj: Dict<Node, seq<Node>>, nodes: Dict<Node, Attrs>, edges: Dict<Edge, Attrs>, n: Node, rec: Attrs)
    requires Inv(adj, nodes, edges) && n !in adj.m
    ensures Inv(adj.Put(n, []), nodes.Put(n, rec), edges)
  {
    AddNodeTables(adj, nodes, edges, n, rec);
    AddNodeShape(adj, n);
    AddNodeRecords(adj, edges, n);
  }

  lemma AddNodeTables(adj: Dict<Node, seq<Node>>, nodes: Dict<Node, Attrs>, edges: Dict<Edge, Attrs>, n: Node, rec: Attrs)
    requires Tables(adj, nodes, edges)
    ensures Tables(adj.Put(n, []), nodes.Put(n, rec), edges)
  {
  }

  lemma AddNodeShape(adj: Dict<Node, seq<Node>>, n: Node)
    requires Closed(adj) && ListsDistinct(adj) && Sym(adj) && n !in adj.m
    ensures Closed(adj.Put(n, [])) && ListsDistinct(adj.Put(n, [])) && Sym(adj.Put(n, []))
  {
  }

  lemma AddNodeRecords(adj: Dict<Node, seq<Node>>, edges: Dict<Edge, Attrs>, n: Node)
    requires Covered(adj, edges) && Sound(adj, edges) && n !in adj.m
    ensures Covered(adj.Put(n, []), edges) && Sound(adj.Put(n, []), edges)
  {
  }

  /** The adjacency after `add_edge` appends to the neighbour lists. */
  function Linked(adj: Dict<Node, seq<Node>>, e: Edge): Dict<Node, seq<Node>>
    requires e.0 in adj.m && e.1 in adj.m
  {
    if e.0 == e.1 then adj.Put(e.0, adj.m[e.0] + [e.0])
    else adj.Put(e.0, adj.m[e.0] + [e.1]).Put(e.1, adj.m[e.1] + [e.0])
  }

  lemma LinkedLists(adj: Dict<Node, seq<Node>>, e: Edge)
    requires e.0 in adj.m && e.1 in adj.m
    ensures Linked(adj, e).keys == adj.keys && Linked(adj, e).m.Keys == adj.m.Keys
    ensures forall x, y :: x in adj.m ==>
              (y in Linked(adj, e).m[x] <==> y in adj.m[x] || (x == e.0 && y == e.1) || (x == e.1 && y == e.0))
  {
  }

  lemma LinkedShape(adj: Dict<Node, seq<Node>>, e: Edge)
    requires adj.Valid() && Closed(adj) && ListsDistinct(adj) && Sym(adj)
    requires e.0 in adj.m && e.1 in adj.m && e.1 !in adj.m[e.0] && e.0 !in adj.m[e.1]
    ensures Linked(adj, e).Valid() && Closed(Linked(adj, e)) && ListsDistinct(Linked(adj, e)) && Sym(Linked(adj, e))
  {
    LinkedLists(adj, e);
    LinkedDistinct(adj, e);
  }

  /** Appending a vertex absent from a list keeps it duplicate-free. */
  lemma LinkedDistinct(adj: Dict<Node, seq<Node>>, e: Edge)
    requires ListsDistinct(adj)
    requires e.0 in adj.m && e.1 in adj.m && e.1 !in adj.m[e.0] && e.0 !in adj.m[e.1]
    ensures ListsDistinct(Linked(adj, e))
  {
    AppendDistinct(adj.m[e.0], e.1);
    AppendDistinct(adj.m[e.1], e.0);
  }

  lemma LinkedTables(adj: Dict<Node, seq<Node>>, nodes: Dict<Node, Attrs>, edges: Dict<Edge, Attrs>,
                     e: Edge, weight: int, text: string, attrs: Attrs)
    requires Tables(adj, nodes, edges)
    requires e.0 in adj.m && e.1 in adj.m
    requires e.0 != e.1 ==> e !in edges.m && Reversed(e) !in edges.m
    ensures Tables(Linked(adj, e), nodes, EdgeAdded(edges, e, weight, text, attrs))
  {
    LinkedLists(adj, e);
    assert Linked(adj, e).Valid();
    EdgeAddedValid(edges, e, weight, text, attrs);
  }

  lemma EdgeAddedValid(edges: Dict<Edge, Attrs>, e: Edge, weight: int, text: string, attrs: Attrs)
    requires edges.Valid() && (e.0 != e.1 ==> e !in edges.m && Reversed(e) !in edges.m)
    ensures EdgeAdded(edges, e, weight, text, attrs).Valid()
  {
    if e.0 != e.1 {
      AppendDistinct(edges.keys, e);
      AppendDistinct(edges.keys + [e], Reversed(e));
      assert edges.keys + [e, Reversed(e)] == edges.keys + [e] + [Reversed(e)];
    }
  }

  lemma LinkedCovered(adj: Dict<Node, seq<Node>>, edges: Dict<Edge, Attrs>,
                      e: Edge, weight: int, text: string, attrs: Attrs)
    requires Covered(adj, edges)
    requires e.0 in adj.m && e.1 in adj.m
    ensures Covered(Linked(adj, e), EdgeAdded(edges, e, weight, text, attrs))
  {
    LinkedLists(adj, e);
    var a, ed := Linked(adj, e), EdgeAdded(edges, e, weight, text, attrs);
    forall u, v | u in a.m && v in a.m[u] ensures (u, v) in ed.m {
      assert u in adj.m;
    }
  }

  lemma LinkedSound(adj: Dict<Node, seq<Node>>, edges: Dict<Edge, Attrs>,
                    e: Edge, weight: int, text: string, attrs: Attrs)
    requires Sound(adj, edges)
    requires e.0 in adj.m && e.1 in adj.m
    ensures Sound(Linked(adj, e), EdgeAdded(edges, e, weight, text, attrs))
  {
    LinkedLists(adj, e);
    var a, ed := Linked(adj, e), EdgeAdded(edges, e, weight, text, attrs);
    forall f | f in ed.m && f.0 != f.1 ensures f.0 in a.m && f.1 in a.m[f.0] {
      if f != e && f != Reversed(e) {
        assert f in edges.m;
      }
    }
  }

  lemma AddEdgeKeepsInv(adj: Dict<Node, seq<Node>>, nodes: Dict<Node, Attrs>, edges: Dict<Edge, Attrs>,
                        e: Edge, weight: int, text: string, attrs: Attrs)
    requires Inv(adj, nodes, edges)
    requires e.0 in adj.m && e.1 in adj.m && e.1 !in adj.m[e.0] && e.0 !in adj.m[e.1]
    ensures e.0 != e.1 ==> e !in edges.m && Reversed(e) !in edges.m
    ensures Inv(Linked(adj, e), nodes, EdgeAdded(edges, e, weight, text, attrs))
  {
    if e.0 != e.1 {
      assert e !in edges.m && Reversed(e) !in edges.m;
    }
    LinkedShape(adj, e);
    LinkedTables(adj, nodes, edges, e, weight, text, attrs);
    LinkedCovered(adj, edges, e, weight, text, attrs);
    LinkedSound(adj, edges, e, weight, text, attrs);
  }

  /** The adjacency after `del_edge` takes `v` out of `u`'s list and,
      unless it is a self-loop, `u` out of `v`'s. */
  function Unlinked(adj: Dict<Node, seq<Node>>, e: Edge): Dict<Node, seq<Node>>
    requires e.0 in adj.m && e.1 in adj.m
  {
    if e.0 == e.1 then adj.Put(e.0, Filter(adj.m[e.0], {e.0}))
    else adj.Put(e.0, Filter(adj.m[e.0], {e.1})).Put(e.1, Filter(adj.m[e.1], {e.0}))
  }

  /** The edge table after `del_edge_data` has dropped the record of `e`
      and, unless it is a self-loop, of its reversal. */
  function Unrecorded(edges: Dict<Edge, Attrs>, e: Edge): Dict<Edge, Attrs>
    requires edges.Valid() && e in edges.m && (e.0 != e.1 ==> Reversed(e) in edges.m)
  {
    if e.0 == e.1 then edges.Remove(e) else edges.Remove(e).Remove(Reversed(e))
  }

  lemma UnrecordedMap(edges: Dict<Edge, Attrs>, e: Edge)
    requires edges.Valid() && e in edges.m && (e.0 != e.1 ==> Reversed(e) in edges.m)
    ensures Unrecorded(edges, e).Valid()
    ensures Unrecorded(edges, e).m == edges.m - {e, Reversed(e)}
  {
    var d1 := edges.Remove(e);
    if e.0 == e.1 {
      assert Reversed(e) == e;
    } else {
      var d2 := d1.Remove(Reversed(e));
      assert d2.m == d1.m - {Reversed(e)};
    }
  }

  lemma UnlinkedLists(adj: Dict<Node, seq<Node>>, e: Edge)
    requires e.0 in adj.m && e.1 in adj.m
    ensures Unlinked(adj, e).keys == adj.keys && Unlinked(adj, e).m.Keys == adj.m.Keys
    ensures forall x, y :: x in adj.m ==>
              (y in Unlinked(adj, e).m[x] <==> y in adj.m[x] && !(x == e.0 && y == e.1) && !(x == e.1 && y == e.0))
  {
  }

  lemma UnlinkedShape(adj: Dict<Node, seq<Node>>, e: Edge)
    requires adj.Valid() && Closed(adj) && ListsDistinct(adj) && Sym(adj)
    requires e.0 in adj.m && e.1 in adj.m
    ensures Unlinked(adj, e).Valid() && Closed(Unlinked(adj, e)) && ListsDistinct(Unlinked(adj, e)) && Sym(Unlinked(adj, e))
  {
    UnlinkedLists(adj, e);
    FilterDistinct(adj.m[e.0], {e.1});
    FilterDistinct(adj.m[e.1], {e.0});
  }

  lemma UnlinkedCovered(adj: Dict<Node, seq<Node>>, edges: Dict<Edge, Attrs>, e: Edge)
    requires edges.Valid() && Covered(adj, edges)
    requires e.0 in adj.m && e.1 in adj.m && e in edges.m && (e.0 != e.1 ==> Reversed(e) in edges.m)
    ensures Covered(Unlinked(adj, e), Unrecorded(edges, e))
  {
    UnlinkedLists(adj, e);
    UnrecordedMap(edges, e);
    var a, ed := Unlinked(adj, e), Unrecorded(edges, e);
    forall u, v | u in a.m && v in a.m[u] ensures (u, v) in ed.m {
      assert (u, v) in edges.m;
    }
  }

  lemma UnlinkedSound(adj: Dict<Node, seq<Node>>, edges: Dict<Edge, Attrs>, e: Edge)
    requires edges.Valid() && Sound(adj, edges)
    requires e.0 in adj.m && e.1 in adj.m && e in edges.m && (e.0 != e.1 ==> Reversed(e) in edges.m)
    ensures Sound(Unlinked(adj, e), Unrecorded(edges, e))
  {
    UnlinkedLists(adj, e);
    UnrecordedMap(edges, e);
    var a, ed := Unlinked(adj, e), Unrecorded(edges, e);
    forall f | f in ed.m && f.0 != f.1 ensures f.0 in a.m && f.1 in a.m[f.0] {
      assert f in edges.m && f != e && f != Reversed(e);
      assert f.0 in adj.m && f.1 in adj.m[f.0];
    }
  }

  /** A record without its adjacency can only be a self-loop left behind. */
  lemma UnlinkedRecordIsLoop(adj: Dict<Node, seq<Node>>, edges: Dict<Edge, Attrs>, e: Edge)
    requires Sound(adj, edges) && e in edges.m && !(e.0 in adj.m && e.1 in adj.m[e.0])
    ensures e.0 == e.1
  {
  }

  /** `list.remove` on the two lists of a stored edge is `Unlinked`. */
  lemma UnlinkedByRemoval(adj: Dict<Node, seq<Node>>, e: Edge)
    requires Sym(adj) && ListsDistinct(adj) && e.0 in adj.m && e.1 in adj.m[e.0]
    ensures e.1 in adj.m
    ensures e.0 == e.1 ==> Unlinked(adj, e) == adj.Put(e.0, RemoveFirst(adj.m[e.0], e.1))
    ensures e.0 != e.1 ==>
      Unlinked(adj, e) == adj.Put(e.0, RemoveFirst(adj.m[e.0], e.1)).Put(e.1, RemoveFirst(adj.m[e.1], e.0))
  {
    RemoveFirstIsFilter(adj.m[e.0], e.1);
    RemoveFirstIsFilter(adj.m[e.1], e.0);
  }

  /** Deleting a stored edge keeps the invariant. */
  lemma DelEdgeKeepsInv(adj: Dict<Node, seq<Node>>, nodes: Dict<Node, Attrs>, edges: Dict<Edge, Attrs>, e: Edge)
    requires Inv(adj, nodes, edges)
    requires e.0 in adj.m && e.1 in adj.m[e.0]
    ensures e in edges.m && (e.0 != e.1 ==> Reversed(e) in edges.m)
    ensures Inv(Unlinked(adj, e), nodes, Unrecorded(edges, e))
  {
    assert e.0 in adj.m[e.1];
    UnlinkedShape(adj, e);
    UnlinkedCovered(adj, edges, e);
    UnlinkedSound(adj, edges, e);
  }

  /** Dropping a self-loop record that no adjacency refers to keeps the
      invariant. */
  lemma DropLoopKeepsInv(adj: Dict<Node, seq<Node>>, nodes: Dict<Node, Attrs>, edges: Dict<Edge, Attrs>, e: Edge)
    requires Inv(adj, nodes, edges)
    requires e.0 == e.1 && e in edges.m && (e.0 in adj.m ==> e.0 !in adj.m[e.0])
    ensures Inv(adj, nodes, edges.Remove(e))
  {
    var ed := edges.Remove(e);
    assert Covered(adj, ed) by {
      forall u, v | u in adj.m && v in adj.m[u] ensures (u, v) in ed.m {
        assert (u, v) in edges.m;
      }
    }
  }

  lemma LinkThenUnlink(adj: Dict<Node, seq<Node>>, e: Edge)
    requires e.0 in adj.m && e.1 in adj.m && e.1 !in adj.m[e.0] && e.0 !in adj.m[e.1]
    ensures Unlinked(Linked(adj, e), e) == adj
  {
    var (u, v) := e;
    FilterDropLast(adj.m[u], v);
    if u == v {
      PutRestore(adj, u, adj.m[u] + [v]);
    } else {
      FilterDropLast(adj.m[v], u);
      PutPutRestore(adj, u, adj.m[u] + [v], v, adj.m[v] + [u]);
    }
  }

  lemma RecordThenUnrecordLoop(edges: Dict<Edge, Attrs>, e: Edge, weight: int, text: string, attrs: Attrs)
    requires edges.Valid() && e.0 == e.1 && e !in edges.m
    ensures Unrecorded(EdgeAdded(edges, e, weight, text, attrs), e) == edges
  {
    PutThenRemove(edges, e, DefaultRecord(weight, text) + attrs);
  }

  lemma RecordThenUnrecordPair(edges: Dict<Edge, Attrs>, e: Edge, weight: int, text: string, attrs: Attrs)
    requires edges.Valid() && e.0 != e.1 && e !in edges.m && Reversed(e) !in edges.m
    ensures Unrecorded(EdgeAdded(edges, e, weight, text, attrs), e) == edges
  {
    var r, rec := Reversed(e), DefaultRecord(weight, text) + attrs;
    assert EdgeAdded(edges, e, weight, text, attrs) == edges.Put(e, rec).Put(r, rec);
    PutPutThenRemoveFirst(edges, e, rec, r, rec);
    PutThenRemove(edges, r, rec);
  }

  /** `del_edge` undoes `add_edge`: deleting an edge just added restores
      both the neighbour lists and the edge table. */
  lemma AddThenDelEdge(adj: Dict<Node, seq<Node>>, nodes: Dict<Node, Attrs>, edges: Dict<Edge, Attrs>,
                       e: Edge, weight: int, text: string, attrs: Attrs)
    requires Inv(adj, nodes, edges)
    requires e.0 in adj.m && e.1 in adj.m && e.1 !in adj.m[e.0] && e.0 !in adj.m[e.1]
    requires e !in edges.m
    ensures Inv(Linked(adj, e), nodes, EdgeAdded(edges, e, weight, text, attrs))
    ensures Unlinked(Linked(adj, e), e) == adj
    ensures Unrecorded(EdgeAdded(edges, e, weight, text, attrs), e) == edges
  {
    AddEdgeKeepsInv(adj, nodes, edges, e, weight, text, attrs);
    LinkThenUnlink(adj, e);
    if e.0 == e.1 {
      RecordThenUnrecordLoop(edges, e, weight, text, attrs);
    } else {
      RecordThenUnrecordPair(edges, e, weight, text, attrs);
    }
  }

  /** The non-loop edge keys between `n` and the vertices of `done`, in
      both orientations. */
  function Cut(n: Node, done: set<Node>): set<Edge>
  {
    (set x | x in done && x != n :: (x, n)) + (set x | x in done && x != n :: (n, x))
  }

  /** The records `del_node(n)` deletes: every non-loop edge key touching `n`. */
  function Incident(edges: Dict<Edge, Attrs>, n: Node): set<Edge>
  {
    set f | f in edges.m && f.0 != f.1 && (f.0 == n || f.1 == n)
  }

  /** The adjacency while `del_node(n)` runs: the edges between `n` and
      the vertices of `done` are gone. */
  function Detaching(adj: Dict<Node, seq<Node>>, n: Node, done: set<Node>): Dict<Node, seq<Node>>
  {
    Dict(adj.keys, map x | x in adj.m ::
      if x == n then Filter(adj.m[x], done) else if x in done then Filter(adj.m[x], {n}) else adj.m[x])
  }

  /** What `del_node` may assume about the vertex `each` it is about to
      disconnect. */
  ghost predicate DetachReady(adj0: Dict<Node, seq<Node>>, nodes0: Dict<Node, Attrs>, edges0: Dict<Edge, Attrs>,
                              n: Node, done: set<Node>, each: Node)
  {
    Inv(adj0, nodes0, edges0) && n in adj0.m && each in adj0.m[n] && each != n && each !in done &&
    (forall x :: x in done ==> x in adj0.m[n] && x != n)
  }

  lemma DetachingLinked(adj0: Dict<Node, seq<Node>>, nodes0: Dict<Node, Attrs>, edges0: Dict<Edge, Attrs>,
                        n: Node, done: set<Node>, each: Node)
    requires DetachReady(adj0, nodes0, edges0, n, done, each)
    ensures each in Detaching(adj0, n, done).m && n in Detaching(adj0, n, done).m[each]
    ensures n in Detaching(adj0, n, done).m
    ensures (each, n) in edges0.m && (n, each) in edges0.m
  {
    assert n in adj0.m[each];
  }

  lemma DetachingStep(adj0: Dict<Node, seq<Node>>, n: Node, done: set<Node>, each: Node)
    requires n in adj0.m && each in adj0.m && each != n && each !in done
    ensures Unlinked(Detaching(adj0, n, done), (each, n)) == Detaching(adj0, n, done + {each})
  {
    var d := Detaching(adj0, n, done);
    FilterFilter(adj0.m[n], done, {each});
    var u := Unlinked(d, (each, n));
    var t := Detaching(adj0, n, done + {each});
    assert u.keys == adj0.keys;
    assert u.m.Keys == t.m.Keys;
    forall x | x in u.m ensures u.m[x] == t.m[x] {
      if x == each {
        assert u.m[x] == Filter(adj0.m[each], {n});
      } else if x == n {
        assert u.m[x] == Filter(Filter(adj0.m[n], done), {each});
      } else {
        assert u.m[x] == d.m[x];
      }
    }
    assert u.m == t.m;
  }

  lemma CutGrow(n: Node, done: set<Node>, each: Node)
    requires each != n
    ensures Cut(n, done) + {(each, n), (n, each)} == Cut(n, done + {each})
  {
  }

  /** Dropping both records of a non-loop edge is dropping its two keys. */
  lemma UnrecordedIsWithout(edges: Dict<Edge, Attrs>, e: Edge)
    requires edges.Valid() && e.0 != e.1 && e in edges.m && Reversed(e) in edges.m
    ensures Unrecorded(edges, e) == edges.Without({e, Reversed(e)})
  {
    RemoveIsWithout(edges, e);
    RemoveIsWithout(edges.Remove(e), Reversed(e));
    WithoutWithout(edges, {e}, {Reversed(e)});
    assert {e} + {Reversed(e)} == {e, Reversed(e)};
  }

  lemma CutStep(edges0: Dict<Edge, Attrs>, n: Node, done: set<Node>, each: Node)
    requires edges0.Valid() && each != n && each !in done
    requires (each, n) in edges0.m && (n, each) in edges0.m
    ensures edges0.Without(Cut(n, done)).Valid()
    ensures (each, n) in edges0.Without(Cut(n, done)).m && (n, each) in edges0.Without(Cut(n, done)).m
    ensures Unrecorded(edges0.Without(Cut(n, done)), (each, n)) == edges0.Without(Cut(n, done + {each}))
  {
    var e0 := edges0.Without(Cut(n, done));
    assert (each, n) !in Cut(n, done) && (n, each) !in Cut(n, done);
    UnrecordedIsWithout(e0, (each, n));
    WithoutWithout(edges0, Cut(n, done), {(each, n), (n, each)});
    CutGrow(n, done, each);
  }

  lemma DetachingNone(adj0: Dict<Node, seq<Node>>, edges0: Dict<Edge, Attrs>, n: Node)
    requires n in adj0.m
    ensures Detaching(adj0, n, {}) == adj0
    ensures edges0.Without(Cut(n, {})) == edges0
  {
    FilterNothing(adj0.m[n], {});
    assert Detaching(adj0, n, {}).m == adj0.m;
    assert Cut(n, {}) == {};
    WithoutNothing(edges0);
  }

  lemma DetachingValid(adj0: Dict<Node, seq<Node>>, n: Node, done: set<Node>)
    requires adj0.Valid()
    ensures Detaching(adj0, n, done).Valid() && Detaching(adj0, n, done).m.Keys == adj0.m.Keys
  {
  }

  lemma DetachedLists(adj0: Dict<Node, seq<Node>>, n: Node)
    requires adj0.Valid() && Sym(adj0) && n in adj0.m
    ensures forall x :: x in adj0.m && x != n ==>
              Detaching(adj0, n, Elems(adj0.m[n]) - {n}).m[x] == Filter(adj0.m[x], {n})
  {
    var done := Elems(adj0.m[n]) - {n};
    forall x | x in adj0.m && x != n && x !in done
      ensures Filter(adj0.m[x], {n}) == adj0.m[x]
    {
      FilterNothing(adj0.m[x], {n});
    }
  }

  lemma DetachedMap(adj0: Dict<Node, seq<Node>>, n: Node)
    requires adj0.Valid() && Sym(adj0) && n in adj0.m
    ensures Detaching(adj0, n, Elems(adj0.m[n]) - {n}).m - {n} == Detached(adj0, n).m
  {
    DetachedLists(adj0, n);
  }

  /** Once every neighbour is disconnected, dropping the vertex's own list
      leaves the adjacency `del_node` promises. */
  lemma DetachedFinal(adj0: Dict<Node, seq<Node>>, n: Node)
    requires adj0.Valid() && Sym(adj0) && n in adj0.m
    ensures Detaching(adj0, n, Elems(adj0.m[n]) - {n}).Valid()
    ensures n in Detaching(adj0, n, Elems(adj0.m[n]) - {n}).m
    ensures Detaching(adj0, n, Elems(adj0.m[n]) - {n}).Remove(n) == Detached(adj0, n)
  {
    var d := Detaching(adj0, n, Elems(adj0.m[n]) - {n});
    DetachingValid(adj0, n, Elems(adj0.m[n]) - {n});
    DetachedMap(adj0, n);
    assert d.keys == adj0.keys;
  }

  /** The edge keys between a vertex and its neighbours are exactly the
      non-loop records touching it. */
  lemma CutIsIncident(adj0: Dict<Node, seq<Node>>, edges0: Dict<Edge, Attrs>, n: Node)
    requires Sym(adj0) && Covered(adj0, edges0) && Sound(adj0, edges0) && n in adj0.m
    ensures Cut(n, Elems(adj0.m[n]) - {n}) == Incident(edges0, n)
  {
    var done := Elems(adj0.m[n]) - {n};
    forall f | f in Incident(edges0, n) ensures f in Cut(n, done) {
      if f.0 == n {
        assert f.1 in adj0.m[n];
      } else {
        assert n in adj0.m[f.0];
      }
    }
    forall f | f in Cut(n, done) ensures f in Incident(edges0, n) {
      if f.1 == n {
        assert n in adj0.m[f.0];
      } else {
        assert f.1 in adj0.m[n];
      }
    }
  }

  lemma DetachedTables(adj0: Dict<Node, seq<Node>>, nodes0: Dict<Node, Attrs>, edges0: Dict<Edge, Attrs>, n: Node)
    requires Tables(adj0, nodes0, edges0) && n in adj0.m
    ensures Tables(Detached(adj0, n), nodes0.Remove(n), edges0.Without(Incident(edges0, n)))
  {
    var d, nd := Detached(adj0, n), nodes0.Remove(n);
    FilterDistinct(adj0.keys, {n});
    assert d.Valid();
    assert forall x :: x in d.m <==> x in nd.m;
  }

  lemma DetachedShape(adj0: Dict<Node, seq<Node>>, n: Node)
    requires adj0.Valid() && Closed(adj0) && ListsDistinct(adj0) && Sym(adj0) && n in adj0.m
    ensures Closed(Detached(adj0, n)) && ListsDistinct(Detached(adj0, n)) && Sym(Detached(adj0, n))
  {
    forall x | x in adj0.m ensures Distinct(Filter(adj0.m[x], {n})) {
      FilterDistinct(adj0.m[x], {n});
    }
  }

  lemma DetachedRecords(adj0: Dict<Node, seq<Node>>, edges0: Dict<Edge, Attrs>, n: Node)
    requires Covered(adj0, edges0) && Sound(adj0, edges0) && n in adj0.m
    ensures Covered(Detached(adj0, n), edges0.Without(Incident(edges0, n)))
    ensures Sound(Detached(adj0, n), edges0.Without(Incident(edges0, n)))
  {
    var d, ed := Detached(adj0, n), edges0.Without(Incident(edges0, n));
    forall u, v | u in d.m && v in d.m[u] ensures (u, v) in ed.m {
      assert (u, v) in edges0.m;
    }
    forall f | f in ed.m && f.0 != f.1 ensures f.0 in d.m && f.1 in d.m[f.0] {
      assert f in edges0.m;
    }
  }

  /** `del_node` keeps the invariant; the self-loop record of the vertex,
      if any, survives it. */
  lemma DelNodeKeepsInv(adj0: Dict<Node, seq<Node>>, nodes0: Dict<Node, Attrs>, edges0: Dict<Edge, Attrs>, n: Node)
    requires Inv(adj0, nodes0, edges0) && n in adj0.m
    ensures Inv(Detached(adj0, n), nodes0.Remove(n), edges0.Without(Incident(edges0, n)))
    ensures (n, n) in edges0.m ==> (n, n) in edges0.Without(Incident(edges0, n)).m && n !in Detached(adj0, n).m
  {
    DetachedTables(adj0, nodes0, edges0, n);
    DetachedShape(adj0, n);
    DetachedRecords(adj0, edges0, n);
  }

  /** Two distinct vertices without a record are not adjacent, and their
      reversed record is missing too. */
  lemma FreshPair(adj: Dict<Node, seq<Node>>, nodes: Dict<Node, Attrs>, edges: Dict<Edge, Attrs>, e: Edge)
    requires Inv(adj, nodes, edges)
    requires e.0 in adj.m && e.1 in adj.m && e.0 != e.1 && e !in edges.m
    ensures e.1 !in adj.m[e.0] && e.0 !in adj.m[e.1] && Reversed(e) !in edges.m
  {
  }

  /** One `add_edge` of `complete`, with the default weight and label. */
  lemma CompleteStep(adj: Dict<Node, seq<Node>>, edges: Dict<Edge, Attrs>, e: Edge)
    requires e.0 in adj.m && e.1 in adj.m && e.0 != e.1 && e !in edges.m && Reversed(e) !in edges.m
    ensures Grown(edges, EdgeAdded(edges, e, 1, "", map[]), adj.m.Keys)
    ensures SameLoops(adj, Linked(adj, e))
  {
    assert DefaultRecord(1, "") + map[] == DefaultRecord(1, "");
    LinkedLists(adj, e);
  }

  /** Under the invariant every non-loop record has its reversal. */
  lemma RecordsPaired(adj: Dict<Node, seq<Node>>, nodes: Dict<Node, Attrs>, edges: Dict<Edge, Attrs>)
    requires Inv(adj, nodes, edges)
    ensures forall f :: f in edges.m && f.0 != f.1 ==> Reversed(f) in edges.m
  {
  }

  /** The records of `e0` left after the edges of `done`, in either
      orientation, were deleted. */
  ghost predicate Remaining(e0: Dict<Edge, Attrs>, e1: Dict<Edge, Attrs>, done: set<Edge>)
  {
    (forall f :: f in e1.m <==> f in e0.m && f !in done && Reversed(f) !in done) &&
    (forall f :: f in e1.m ==> e1.m[f] == e0.m[f])
  }

  lemma RemainingNone(e0: Dict<Edge, Attrs>, ks: seq<Edge>)
    ensures Remaining(e0, e0, Taken(ks, 0))
  {
    assert Taken(ks, 0) == {};
  }

  /** One pass of the last loop of `inverse`. */
  lemma DropStep(e0: Dict<Edge, Attrs>, e1: Dict<Edge, Attrs>, e2: Dict<Edge, Attrs>, done: set<Edge>, e: Edge)
    requires Remaining(e0, e1, done)
    requires e in e1.m ==> e2.m == e1.m - {e, Reversed(e)}
    requires e !in e1.m ==> e2 == e1 && Reversed(e) !in e1.m
    ensures Remaining(e0, e2, done + {e})
  {
  }

  /** The records of a graph on the same vertices joining the pairs of
      distinct vertices that no record of `edges0` names, in either
      orientation, are the pairs the original does not record. */
  lemma InverseRecords(adj0: Dict<Node, seq<Node>>, nodes0: Dict<Node, Attrs>, edges0: Dict<Edge, Attrs>,
                       adj1: Dict<Node, seq<Node>>, edges1: Dict<Edge, Attrs>)
    requires Inv(adj0, nodes0, edges0) && adj1.m.Keys == adj0.m.Keys
    requires forall f :: f in edges1.m <==>
               f.0 in adj1.m && f.1 in adj1.m && f.0 != f.1 && f !in Elems(edges0.keys) && Reversed(f) !in Elems(edges0.keys)
    ensures forall f :: f in edges1.m <==> f.0 in adj0.m && f.1 in adj0.m && f.0 != f.1 && f !in edges0.m
  {
    RecordsPaired(adj0, nodes0, edges0);
    assert Elems(edges0.keys) == edges0.m.Keys;
  }

  /** Every record of `edges` names vertices of `adj` and is well typed. */
  ghost predicate Copyable(adj: Dict<Node, seq<Node>>, edges: Dict<Edge, Attrs>)
  {
    forall f :: f in edges.m ==> f.0 in adj.m && f.1 in adj.m && WellTyped(edges.m[f])
  }

  /** The copies of the edges in `done` are in the neighbour lists, and
      nothing else is. */
  ghost predicate Joined(adj: Dict<Node, seq<Node>>, done: set<Edge>)
  {
    (forall f :: f in done ==> f.0 in adj.m && f.1 in adj.m[f.0]) &&
    (forall x, y :: x in adj.m && y in adj.m[x] ==> (x, y) in done || (y, x) in done)
  }

  /** No non-loop edge of `done` comes with its reversal. */
  ghost predicate Unpaired(done: set<Edge>)
  {
    forall f :: f in done && f.0 != f.1 ==> Reversed(f) !in done
  }

  ghost predicate LoopsOnly(done: set<Edge>)
  {
    forall f :: f in done ==> f.0 == f.1
  }

  /** While only self-loops have been copied, the copy's records are those
      of the first `i` keys, in order, and each vertex lists itself exactly
      when its loop was copied. */
  ghost predicate LoopCopy(adj: Dict<Node, seq<Node>>, edges: Dict<Edge, Attrs>, ks: seq<Edge>, i: nat, recs: map<Edge, Attrs>)
    requires i <= |ks|
  {
    LoopsOnly(Taken(ks, i)) ==>
      edges == Dict(ks[..i], Restrict(recs, Taken(ks, i))) &&
      (forall n :: n in adj.m ==> adj.m[n] == if (n, n) in Taken(ks, i) then [n] else [])
  }

  /** The state of the copy after the first `i` keys. */
  ghost predicate Copied(adj: Dict<Node, seq<Node>>, edges: Dict<Edge, Attrs>, ks: seq<Edge>, i: nat, recs: map<Edge, Attrs>)
    requires i <= |ks|
  {
    Joined(adj, Taken(ks, i)) && Unpaired(Taken(ks, i)) && LoopCopy(adj, edges, ks, i, recs)
  }

  /** The copy before any key. */
  lemma CopiedNone(adj: Dict<Node, seq<Node>>, edges: Dict<Edge, Attrs>, ks: seq<Edge>, recs: map<Edge, Attrs>)
    requires edges == EmptyDict() && forall n :: n in adj.m ==> adj.m[n] == []
    ensures Copied(adj, edges, ks, 0, recs)
  {
    assert Taken(ks, 0) == {};
    assert ks[..0] == [];
    assert Restrict(recs, Taken(ks, 0)) == map[];
  }

  /** The copy after every key. */
  lemma CopiedAll(adj: Dict<Node, seq<Node>>, edges: Dict<Edge, Attrs>, ks: seq<Edge>, recs: map<Edge, Attrs>)
    requires Copied(adj, edges, ks, |ks|, recs)
    ensures Unpaired(Elems(ks))
    ensures LoopsOnly(Elems(ks)) ==>
              edges == Dict(ks, Restrict(recs, Elems(ks))) &&
              (forall n :: n in adj.m ==> adj.m[n] == if (n, n) in Elems(ks) then [n] else [])
  {
    TakenAll(ks);
    assert ks[..|ks|] == ks;
  }

  lemma JoinStep(a1: Dict<Node, seq<Node>>, done: set<Edge>, e: Edge)
    requires Joined(a1, done) && e.0 in a1.m && e.1 in a1.m
    ensures Joined(Linked(a1, e), done + {e})
  {
    LinkedLists(a1, e);
  }

  lemma UnpairedStep(a1: Dict<Node, seq<Node>>, done: set<Edge>, e: Edge)
    requires Unpaired(done) && Joined(a1, done) && e !in done
    requires e.0 in a1.m && e.1 in a1.m && e.1 !in a1.m[e.0] && e.0 !in a1.m[e.1]
    ensures Unpaired(done + {e})
  {
    if e.0 != e.1 {
      assert Reversed(e) !in done;
    }
  }

  /** `add_edge` refuses a copied edge only when its reversal was copied
      before. */
  lemma RefusedMeansPaired(a1: Dict<Node, seq<Node>>, done: set<Edge>, e: Edge)
    requires Joined(a1, done) && e !in done && e.0 in a1.m && e.1 in a1.m
    requires e.1 in a1.m[e.0] || e.0 in a1.m[e.1]
    ensures e.0 != e.1 && Reversed(e) in done
  {
  }

  lemma LoopCopyStep(a1: Dict<Node, seq<Node>>, e1: Dict<Edge, Attrs>, ks: seq<Edge>, i: nat, recs: map<Edge, Attrs>,
                     weight: int, text: string)
    requires i < |ks| && Distinct(ks) && ks[i] in recs && "weight" in recs[ks[i]] && "label" in recs[ks[i]]
    requires LoopCopy(a1, e1, ks, i, recs) && ks[i].0 in a1.m && ks[i].1 in a1.m
    ensures LoopCopy(Linked(a1, ks[i]), EdgeAdded(e1, ks[i], weight, text, recs[ks[i]]), ks, i + 1, recs)
  {
    var e := ks[i];
    TakenStep(ks, i);
    TakenFresh(ks, i);
    if LoopsOnly(Taken(ks, i + 1)) {
      assert LoopsOnly(Taken(ks, i));
      assert e.0 == e.1;
      OverlayDefault(weight, text, recs[e]);
      assert e !in e1.m;
      PrefixStep(ks, i);
      assert Restrict(recs, Taken(ks, i))[e := recs[e]] == Restrict(recs, Taken(ks, i + 1));
      assert (e.0, e.0) !in Taken(ks, i);
    }
  }

  /** The edge loop of `reverse` on an undirected graph succeeds only when
      every record is a self-loop, since a non-loop edge is recorded under
      both orientations; the copy then holds the original records. */
  lemma ReversePassed(adj: Dict<Node, seq<Node>>, nodes: Dict<Node, Attrs>, edges: Dict<Edge, Attrs>)
    requires Inv(adj, nodes, edges) && Unpaired(Elems(edges.keys))
    ensures LoopsOnly(Elems(edges.keys)) && Elems(edges.keys) == edges.m.Keys
    ensures Dict(edges.keys, Restrict(edges.m, Elems(edges.keys))) == edges
  {
    RecordsPaired(adj, nodes, edges);
    assert Elems(edges.keys) == edges.m.Keys;
    assert Restrict(edges.m, Elems(edges.keys)) == edges.m;
  }

  /** The graph `reverse` returns for a graph whose only edges are
      self-loops: the same vertex list with default records, the same edge
      records, and each vertex listing just itself when it has a loop. */
  ghost predicate LoopsCopied(adj: Dict<Node, seq<Node>>, edges: Dict<Edge, Attrs>,
                              cadj: Dict<Node, seq<Node>>, cnodes: Dict<Node, Attrs>, cedges: Dict<Edge, Attrs>)
  {
    (forall f :: f in edges.m ==> f.0 == f.1) &&
    cadj.keys == adj.keys && cedges == edges &&
    (forall n :: n in adj.m ==> n in cnodes.m && cnodes.m[n] == DefaultRecord(1, "")) &&
    (forall n :: n in adj.m ==> n in cadj.m && cadj.m[n] == if (n, n) in edges.m then [n] else [])
  }

  /** What the copy holds when the edge loop of `reverse` got through. */
  lemma ReverseCopied(adj: Dict<Node, seq<Node>>, nodes: Dict<Node, Attrs>, edges: Dict<Edge, Attrs>,
                      cadj: Dict<Node, seq<Node>>, cnodes: Dict<Node, Attrs>, cedges: Dict<Edge, Attrs>)
    requires Inv(adj, nodes, edges) && Unpaired(Elems(edges.keys))
    requires cadj.Valid() && cadj.keys == adj.keys
    requires forall n :: n in cadj.m ==> n in cnodes.m && cnodes.m[n] == DefaultRecord(1, "")
    requires LoopsOnly(Elems(edges.keys)) ==>
               cedges == Dict(edges.keys, Restrict(edges.m, Elems(edges.keys))) &&
               (forall n :: n in cadj.m ==> cadj.m[n] == if (n, n) in Elems(edges.keys) then [n] else [])
    ensures LoopsCopied(adj, edges, cadj, cnodes, cedges)
  {
    ReversePassed(adj, nodes, edges);
    var ks := Elems(edges.keys);
    assert LoopsOnly(ks) && ks == edges.m.Keys;
    forall n | n in adj.m ensures n in cadj.m && cadj.m[n] == if (n, n) in edges.m then [n] else [] {
      assert n in cadj.keys;
    }
  }

  /** For a copyable graph the edge loop of `reverse` fails exactly when a
      non-loop edge exists, and then by AdditionError. */
  lemma ReverseFailed(adj: Dict<Node, seq<Node>>, nodes: Dict<Node, Attrs>, edges: Dict<Edge, Attrs>, out: Outcome)
    requires Inv(adj, nodes, edges) && Copyable(adj, edges)
    requires out.Pass? ==> Unpaired(Elems(edges.keys))
    requires out.Fail? && (forall f :: f in edges.keys ==> f.0 in adj.m && f.1 in adj.m && WellTyped(edges.m[f])) ==>
               out.error == AdditionError && exists f :: f in edges.keys && f.0 != f.1 && Reversed(f) in edges.keys
    ensures out.Fail? <==> exists f :: f in edges.m && f.0 != f.1
    ensures out.Fail? ==> out.error == AdditionError
  {
    if out.Pass? {
      ReversePassed(adj, nodes, edges);
    }
  }

  /** What the inverse built from the vertex list and the edge keys of a
      graph holds: the complement of its records and of its adjacency. */
  lemma InverseOf(adj0: Dict<Node, seq<Node>>, nodes0: Dict<Node, Attrs>, edges0: Dict<Edge, Attrs>,
                  adj1: Dict<Node, seq<Node>>, edges1: Dict<Edge, Attrs>)
    requires Inv(adj0, nodes0, edges0) && adj1.Valid() && adj1.keys == adj0.keys
    requires Covered(adj1, edges1) && Sound(adj1, edges1)
    requires forall f :: f in edges1.m <==>
               f.0 in adj1.m && f.1 in adj1.m && f.0 != f.1 && f !in Elems(edges0.keys) && Reversed(f) !in Elems(edges0.keys)
    ensures forall f :: f in edges1.m <==> f.0 in adj0.m && f.1 in adj0.m && f.0 != f.1 && f !in edges0.m
    ensures forall u, v :: u in adj0.m && v in adj0.m ==> (v in adj1.m[u] <==> u != v && v !in adj0.m[u])
  {
    assert adj1.m.Keys == adj0.m.Keys;
    InverseRecords(adj0, nodes0, edges0, adj1, edges1);
    InverseLists(adj0, edges0, adj1, edges1);
  }

  /** Two graphs on the same vertices whose records of non-loop edges are
      complementary have complementary adjacency. */
  lemma InverseLists(adj0: Dict<Node, seq<Node>>, edges0: Dict<Edge, Attrs>,
                     adj1: Dict<Node, seq<Node>>, edges1: Dict<Edge, Attrs>)
    requires Covered(adj0, edges0) && Sound(adj0, edges0) && Covered(adj1, edges1) && Sound(adj1, edges1)
    requires adj1.m.Keys == adj0.m.Keys
    requires forall f :: f in edges1.m <==> f.0 in adj0.m && f.1 in adj0.m && f.0 != f.1 && f !in edges0.m
    ensures forall u, v :: u in adj0.m && v in adj0.m ==> (v in adj1.m[u] <==> u != v && v !in adj0.m[u])
  {
    forall u, v | u in adj0.m && v in adj0.m ensures v in adj1.m[u] <==> u != v && v !in adj0.m[u] {
      if v in adj1.m[u] {
        assert (u, v) in edges1.m;
      }
      if u != v && v !in adj0.m[u] {
        assert (u, v) !in edges0.m;
        assert (u, v) in edges1.m;
      }
    }
  }

  /** Records rewritten in place, or new ones added: the graph's shape is
      kept exactly when every non-loop record still has its adjacency. */
  lemma EdgeRecordsRewritten(adj: Dict<Node, seq<Node>>, nodes: Dict<Node, Attrs>, edges: Dict<Edge, Attrs>,
                             edges1: Dict<Edge, Attrs>)
    requires Inv(adj, nodes, edges) && edges1.Valid() && edges.m.Keys <= edges1.m.Keys
    ensures Inv(adj, nodes, edges1) <==> Sound(adj, edges1)
  {
  }

  /** One attribute written on edge `e`, and on its reversal, keeps the
      invariant exactly when `e` is a stored edge or a self-loop: a write to
      any other pair creates records without an adjacency. */
  lemma EdgeWriteKeepsInv(adj: Dict<Node, seq<Node>>, nodes: Dict<Node, Attrs>, edges: Dict<Edge, Attrs>,
                          e: Edge, key: string, value: Value)
    requires Inv(adj, nodes, edges)
    ensures Inv(adj, nodes, UpsertEdge(edges, e, key, value, false)) <==> e in edges.m || e.0 == e.1
  {
    var d := UpsertEdge(edges, e, key, value, false);
    UpsertEdgeKeys(edges, e, key, value);
    EdgeRecordsRewritten(adj, nodes, edges, d);
    SoundWithPair(adj, edges, d, e);
  }

  /** Several attributes merged into edge `e`: as one write, unless there
      is nothing to merge. */
  lemma EdgeMergeKeepsInv(adj: Dict<Node, seq<Node>>, nodes: Dict<Node, Attrs>, edges: Dict<Edge, Attrs>,
                          e: Edge, attrs: Attrs)
    requires Inv(adj, nodes, edges)
    ensures Inv(adj, nodes, MergeEdge(edges, e, attrs, false)) <==> e in edges.m || e.0 == e.1 || attrs == map[]
  {
    var d := MergeEdge(edges, e, attrs, false);
    MergeEdgeKeys(edges, e, attrs);
    EdgeRecordsRewritten(adj, nodes, edges, d);
    if attrs != map[] {
      SoundWithPair(adj, edges, d, e);
    }
  }

  /** The undirected write adds the record of `e` and of its reversal. */
  lemma UpsertEdgeKeys(edges: Dict<Edge, Attrs>, e: Edge, key: string, value: Value)
    requires edges.Valid()
    ensures UpsertEdge(edges, e, key, value, false).Valid()
    ensures UpsertEdge(edges, e, key, value, false).m.Keys ==
            edges.m.Keys + {e} + (if e.0 != e.1 then {Reversed(e)} else {})
  {
  }

  /** The undirected merge does the same, unless there is nothing to merge. */
  lemma MergeEdgeKeys(edges: Dict<Edge, Attrs>, e: Edge, attrs: Attrs)
    requires edges.Valid()
    ensures MergeEdge(edges, e, attrs, false).Valid()
    ensures attrs == map[] ==> MergeEdge(edges, e, attrs, false) == edges
    ensures attrs != map[] ==>
              MergeEdge(edges, e, attrs, false).m.Keys == edges.m.Keys + {e} + (if e.0 != e.1 then {Reversed(e)} else {})
  {
  }

  /** Adding the records of `e` and its reversal keeps every non-loop
      record backed by an adjacency exactly when `e` already was recorded
      or is a self-loop. */
  lemma SoundWithPair(adj: Dict<Node, seq<Node>>, edges: Dict<Edge, Attrs>, d: Dict<Edge, Attrs>, e: Edge)
    requires Sound(adj, edges) && Covered(adj, edges) && Sym(adj)
    requires d.m.Keys == edges.m.Keys + {e} + (if e.0 != e.1 then {Reversed(e)} else {})
    ensures Sound(adj, d) <==> e in edges.m || e.0 == e.1
  {
    if e in edges.m && e.0 != e.1 {
      assert e.1 in adj.m && e.0 in adj.m[e.1];
    }
    if e !in edges.m && e.0 != e.1 {
      assert e in d.m;
    }
  }

  /** One attribute written on vertex `n` keeps the invariant exactly when
      `n` is a vertex: otherwise a record without a vertex appears. */
  lemma NodeWriteKeepsInv(adj: Dict<Node, seq<Node>>, nodes: Dict<Node, Attrs>, edges: Dict<Edge, Attrs>,
                          n: Node, key: string, value: Value)
    requires Inv(adj, nodes, edges)
    ensures Inv(adj, Upsert(nodes, n, key, value), edges) <==> n in adj.m
  {
  }

  /** Several attributes merged into vertex `n`. */
  lemma NodeMergeKeepsInv(adj: Dict<Node, seq<Node>>, nodes: Dict<Node, Attrs>, edges: Dict<Edge, Attrs>,
                          n: Node, attrs: Attrs)
    requires Inv(adj, nodes, edges)
    ensures Inv(adj, Merge(nodes, n, attrs), edges) <==> n in adj.m || attrs == map[]
  {
  }

  class Graph {
    /** `node_neighbors`: each vertex with its neighbour list, in insertion order. */
    var adj: Dict<Node, seq<Node>>
    /** The attribute tables (DataMixin). */
    const data: AttrStore

    /** The invariant graph operations keep: symmetric duplicate-free
        neighbour lists over existing vertices, one record per vertex, a
        record under each orientation of every stored edge, and no non-loop
        record without its edge. A self-loop record may outlive its vertex. */
    ghost predicate Valid()
      reads this, data
    {
      data.Valid() && !data.directed && Inv(adj, data.nodesAttrs, data.edgesAttrs)
    }

    /** The graph as the algorithms read it. */
    function View(): View
      reads this, data
    {
      CommonMixin.View(false, adj.keys, adj.m, data.edgesAttrs.keys, data.nodesAttrs.m, data.edgesAttrs.m)
    }

    lemma ViewIsWellFormed()
      requires Valid()
      ensures View().WF() && View().Symmetric()
    {
    }

    /** Every adjacency of the snapshot has its edge record. */
    lemma ViewIsCovered()
      requires Valid()
      ensures forall u, v :: u in View().adj && v in View().adj[u] ==> (u, v) in View().edgeAttrs
    {
    }

    constructor ()
      ensures Valid() && fresh(data)
      ensures adj == EmptyDict() && data.nodesAttrs == EmptyDict() && data.edgesAttrs == EmptyDict()
    {
      adj := EmptyDict();
      data := new AttrStore(false);
    }

    function Nodes(): seq<Node>
      reads this
    {
      adj.keys
    }

    predicate HasNode(n: Node)
      reads this
    {
      n in adj.m
    }

    /** `neighbors(node)`: KeyError for a missing vertex. */
    function Neighbors(n: Node): (r: Result<seq<Node>>)
      reads this
      ensures r.Ok? <==> n in adj.m
      ensures r.Err? ==> r.error == KeyError
    {
      if n in adj.m then Ok(adj.m[n]) else Err(KeyError)
    }

    /** `edges()`: the keys of the edge records. */
    function Edges(): seq<Edge>
      reads data
    {
      data.edgesAttrs.keys
    }

    predicate HasEdge(e: Edge)
      reads data
    {
      e in data.edgesAttrs.m
    }

    /** `add_node_attribute` as the graph inherits it; `set_node_weight`
        and `set_node_label` are this write under "weight" and "label". The
        graph stays valid exactly when `node` is one of its vertices. */
    method AddNodeAttribute(node: Node, key: string, value: Value)
      requires Valid()
      modifies data
      ensures data.nodesAttrs == Upsert(old(data.nodesAttrs), node, key, value)
      ensures data.edgesAttrs == old(data.edgesAttrs)
      ensures Valid() <==> node in adj.m
    {
      data.AddNodeAttribute(node, key, value);
      NodeWriteKeepsInv(adj, old(data.nodesAttrs), data.edgesAttrs, node, key, value);
    }

    /** `add_node_attributes` as the graph inherits it. */
    method AddNodeAttributes(node: Node, attrs: Attrs)
      requires Valid()
      modifies data
      ensures data.nodesAttrs == Merge(old(data.nodesAttrs), node, attrs)
      ensures data.edgesAttrs == old(data.edgesAttrs)
      ensures Valid() <==> node in adj.m || attrs == map[]
    {
      data.AddNodeAttributes(node, attrs);
      NodeMergeKeepsInv(adj, old(data.nodesAttrs), data.edgesAttrs, node, attrs);
    }

    /** `add_edge_attribute` as the graph inherits it, mirrored to the
        reversed key; `set_edge_weight` and `set_edge_label` are this write
        under "weight" and "label". Re-weighting a stored edge keeps the
        graph valid; a write to a pair that is neither a stored edge nor a
        self-loop leaves records without adjacency. */
    method AddEdgeAttribute(e: Edge, key: string, value: Value)
      requires Valid()
      modifies data
      ensures data.edgesAttrs == UpsertEdge(old(data.edgesAttrs), e, key, value, false)
      ensures data.nodesAttrs == old(data.nodesAttrs)
      ensures Valid() <==> e in old(data.edgesAttrs.m) || e.0 == e.1
    {
      data.AddEdgeAttribute(e, key, value);
      EdgeWriteKeepsInv(adj, data.nodesAttrs, old(data.edgesAttrs), e, key, value);
    }

    /** `add_edge_attributes` as the graph inherits it. */
    method AddEdgeAttributes(e: Edge, attrs: Attrs)
      requires Valid()
      modifies data
      ensures data.edgesAttrs == MergeEdge(old(data.edgesAttrs), e, attrs, false)
      ensures data.nodesAttrs == old(data.nodesAttrs)
      ensures Valid() <==> e in old(data.edgesAttrs.m) || e.0 == e.1 || attrs == map[]
    {
      data.AddEdgeAttributes(e, attrs);
      EdgeMergeKeepsInv(adj, data.nodesAttrs, old(data.edgesAttrs), e, attrs);
    }

    /** `add_node`: a new vertex gets an empty neighbour list and the record
        `{weight, label}` overlaid with `attrs`; a duplicate raises
        AdditionError and changes nothing. */
    method AddNode(node: Node, weight: int, text: string, attrs: Attrs) returns (out: Outcome)
      requires Valid()
      modifies this, data
      ensures Valid()
      ensures out.Pass? <==> node !in old(adj.m)
      ensures out.Fail? ==> out.error == AdditionError && adj == old(adj)
                            && data.nodesAttrs == old(data.nodesAttrs)
      ensures out.Pass? ==> adj == old(adj).Put(node, [])
                            && data.nodesAttrs == old(data.nodesAttrs).Put(node, DefaultRecord(weight, text) + attrs)
      ensures data.edgesAttrs == old(data.edgesAttrs)
    {
      if node in adj.m {
        return Fail(AdditionError);
      }
      adj := adj.Put(node, []);
      data.SetNodeWeight(node, weight);
      data.SetNodeLabel(node, text);
      data.AddNodeAttributes(node, attrs);
      FreshRecordWritten(old(data.nodesAttrs), node, weight, text, attrs);
      AddNodeKeepsInv(old(adj), old(data.nodesAttrs), old(data.edgesAttrs), node, DefaultRecord(weight, text) + attrs);
      out := Pass;
    }

    /** `add_edge`: a missing endpoint raises KeyError and an edge present in
        either orientation raises AdditionError, both before any change;
        otherwise `v` is appended to `u`'s list and, unless it is a
        self-loop, `u` to `v`'s, and the records are written. */
    method AddEdge(e: Edge, weight: int, text: string, attrs: Attrs) returns (out: Outcome)
      requires Valid()
      modifies this, data
      ensures Valid()
      ensures e.0 !in old(adj.m) || e.1 !in old(adj.m) ==> out == Fail(KeyError)
      ensures (e.0 in old(adj.m) && e.1 in old(adj.m) && (e.1 in old(adj.m[e.0]) || e.0 in old(adj.m[e.1])))
                ==> out == Fail(AdditionError)
      ensures out.Pass? <==> e.0 in old(adj.m) && e.1 in old(adj.m) && e.1 !in old(adj.m[e.0]) && e.0 !in old(adj.m[e.1])
      ensures out.Fail? ==> adj == old(adj) && data.edgesAttrs == old(data.edgesAttrs)
      ensures out.Pass? ==> adj == Linked(old(adj), e)
      ensures out.Pass? ==> data.edgesAttrs == EdgeAdded(old(data.edgesAttrs), e, weight, text, attrs)
      ensures data.nodesAttrs == old(data.nodesAttrs)
    {
      var (u, v) := e;
      if u !in adj.m {
        return Fail(KeyError);
      }
      if v in adj.m[u] {
        return Fail(AdditionError);
      }
      if v !in adj.m {
        return Fail(KeyError);
      }
      if u in adj.m[v] {
        return Fail(AdditionError);
      }
      adj := adj.Put(u, adj.m[u] + [v]);
      if u != v {
        adj := adj.Put(v, adj.m[v] + [u]);
      }
      data.SetEdgeWeight(e, weight);
      data.SetEdgeLabel(e, text);
      data.AddEdgeAttributes(e, attrs);
      AddEdgeKeepsInv(old(adj), old(data.nodesAttrs), old(data.edgesAttrs), e, weight, text, attrs);
      if u == v {
        LoopRecordWritten(old(data.edgesAttrs), e, weight, text, attrs);
      } else {
        PairRecordsWritten(old(data.edgesAttrs), e, weight, text, attrs);
      }
      out := Pass;
    }

    /** `del_edge`: the record of `e` (and of its reversal) is dropped
        first, EdgeNotFoundError if it is missing; then `v` is removed from
        `u`'s list and `u` from `v`'s. For a stored edge this always
        succeeds; for the record of a self-loop whose vertex was deleted
        the list operations raise KeyError, or ValueError if the loop is
        not in the list, after the record is already gone. */
    method DelEdge(e: Edge) returns (out: Outcome)
      requires Valid()
      modifies this, data
      ensures Valid()
      ensures data.nodesAttrs == old(data.nodesAttrs)
      ensures out.Pass? <==> e.0 in old(adj.m) && e.1 in old(adj.m[e.0])
      ensures out.Pass? ==> adj == Unlinked(old(adj), e)
      ensures out.Pass? ==> data.edgesAttrs == Unrecorded(old(data.edgesAttrs), e)
      ensures out.Fail? ==> adj == old(adj)
      ensures e !in old(data.edgesAttrs.m) ==> out == Fail(EdgeNotFoundError) && data.edgesAttrs == old(data.edgesAttrs)
      ensures e in old(data.edgesAttrs.m) && e.0 !in old(adj.m) ==> out == Fail(KeyError)
      ensures e in old(data.edgesAttrs.m) && e.0 in old(adj.m) && e.1 !in old(adj.m[e.0]) ==> out == Fail(ValueError)
      ensures e in old(data.edgesAttrs.m) && out.Fail? ==> data.edgesAttrs == old(data.edgesAttrs).Remove(e)
    {
      var (u, v) := e;
      ghost var adj0, nodes0, edges0 := adj, data.nodesAttrs, data.edgesAttrs;
      out := data.DelEdgeData(e);
      if out.Fail? {
        RecordsPaired(adj0, nodes0, edges0);
        return;
      }
      if u !in adj.m || v !in adj.m[u] {
        UnlinkedRecordIsLoop(adj0, edges0, e);
        DropLoopKeepsInv(adj0, nodes0, edges0, e);
        assert data.edgesAttrs == edges0.Remove(e);
        return if u !in adj.m then Fail(KeyError) else Fail(ValueError);
      }
      DelEdgeKeepsInv(adj0, nodes0, edges0, e);
      assert data.edgesAttrs == Unrecorded(edges0, e);
      Unlink(e);
    }

    /** The two `list.remove` calls of `del_edge`. */
    method Unlink(e: Edge)
      requires Sym(adj) && ListsDistinct(adj) && e.0 in adj.m && e.1 in adj.m[e.0]
      modifies this
      ensures e.1 in old(adj.m) && adj == Unlinked(old(adj), e)
    {
      var (u, v) := e;
      UnlinkedByRemoval(adj, e);
      if u == v {
        adj := adj.Put(u, RemoveFirst(adj.m[u], v));
      } else {
        adj := adj.Put(u, RemoveFirst(adj.m[u], v)).Put(v, RemoveFirst(adj.m[v], u));
      }
    }

    /** The loop of `del_node`: `del_edge((each, node))` for every
        neighbour `each` other than `node` itself, over a copy of the list. */
    method DisconnectAll(node: Node)
      requires Valid() && node in adj.m
      modifies this, data
      ensures Valid()
      ensures node in old(adj.m)
      ensures adj == Detaching(old(adj), node, Elems(old(adj.m[node])) - {node})
      ensures data.nodesAttrs == old(data.nodesAttrs)
      ensures data.edgesAttrs == old(data.edgesAttrs).Without(Cut(node, Elems(old(adj.m[node])) - {node}))
    {
      ghost var adj0, nodes0, edges0 := adj, data.nodesAttrs, data.edgesAttrs;
      var list := adj.m[node];
      ghost var done: set<Node> := {};
      DetachingNone(adj0, edges0, node);
      assert Seen(list, 0, node) == {};
      var i := 0;
      while i < |list|
        invariant 0 <= i <= |list|
        invariant Valid()
        invariant done == Seen(list, i, node)
        invariant adj == Detaching(adj0, node, done)
        invariant data.nodesAttrs == nodes0
        invariant data.edgesAttrs == edges0.Without(Cut(node, done))
      {
        var each := list[i];
        SeenStep(list, i, node);
        if each != node {
          DetachingLinked(adj0, nodes0, edges0, node, done, each);
          DetachingStep(adj0, node, done, each);
          CutStep(edges0, node, done, each);
          var r := DelEdge((each, node));
          done := done + {each};
        }
        i := i + 1;
      }
      SeenAll(list, node);
    }

    /** The last two statements of `del_node`: the vertex's list and
        record are deleted. */
    method DropVertex(node: Node, ghost adj0: Dict<Node, seq<Node>>, ghost nodes0: Dict<Node, Attrs>,
                      ghost edges0: Dict<Edge, Attrs>)
      requires data.Valid() && !data.directed && adj.Valid() && node in adj.m && node in data.nodesAttrs.m
      requires adj.Remove(node) == Detached(adj0, node) && data.nodesAttrs == nodes0
      requires data.edgesAttrs == edges0.Without(Incident(edges0, node))
      requires node in nodes0.m && Inv(Detached(adj0, node), nodes0.Remove(node), edges0.Without(Incident(edges0, node)))
      modifies this, data
      ensures Valid()
      ensures adj == Detached(adj0, node) && data.nodesAttrs == nodes0.Remove(node)
      ensures data.edgesAttrs == old(data.edgesAttrs)
    {
      adj := adj.Remove(node);
      data.nodesAttrs := data.nodesAttrs.Remove(node);
    }

    /** `del_node`: KeyError for a missing vertex; otherwise every non-loop
        edge at the vertex is deleted through `del_edge`, then the vertex's
        list and record. A self-loop record is left behind. */
    method DelNode(node: Node) returns (out: Outcome)
      requires Valid()
      modifies this, data
      ensures Valid()
      ensures out.Pass? <==> node in old(adj.m)
      ensures out.Fail? ==> out.error == KeyError && adj == old(adj)
                            && data.nodesAttrs == old(data.nodesAttrs) && data.edgesAttrs == old(data.edgesAttrs)
      ensures out.Pass? ==> adj == Detached(old(adj), node)
      ensures out.Pass? ==> node in old(data.nodesAttrs.m) && data.nodesAttrs == old(data.nodesAttrs).Remove(node)
      ensures out.Pass? ==> data.edgesAttrs == old(data.edgesAttrs).Without(Incident(old(data.edgesAttrs), node))
    {
      if node !in adj.m {
        return Fail(KeyError);
      }
      ghost var adj0, nodes0, edges0 := adj, data.nodesAttrs, data.edgesAttrs;
      DisconnectAll(node);
      DetachedFinal(adj0, node);
      CutIsIncident(adj0, edges0, node);
      DelNodeKeepsInv(adj0, nodes0, edges0, node);
      DropVertex(node, adj0, nodes0, edges0);
      out := Pass;
    }

    /** The body of the inner loop of `complete`: `add_edge` with default
        attributes when the two vertices differ and have no record. */
    method LinkIfMissing(e: Edge)
      requires Valid() && e.0 in adj.m && e.1 in adj.m
      modifies this, data
      ensures Valid()
      ensures adj.keys == old(adj.keys) && adj.m.Keys == old(adj.m.Keys) && data.nodesAttrs == old(data.nodesAttrs)
      ensures Grown(old(data.edgesAttrs), data.edgesAttrs, adj.m.Keys)
      ensures SameLoops(old(adj), adj)
      ensures e.0 != e.1 ==> e in data.edgesAttrs.m
    {
      if e.0 != e.1 && !HasEdge(e) {
        FreshPair(adj, data.nodesAttrs, data.edgesAttrs, e);
        CompleteStep(adj, data.edgesAttrs, e);
        LinkedLists(adj, e);
        var r := AddEdge(e, 1, "", map[]);
      }
    }

    /** The inner loop of `complete` for one vertex `each`. */
    method CompleteRow(each: Node)
      requires Valid() && each in adj.m
      modifies this, data
      ensures Valid()
      ensures adj.keys == old(adj.keys) && adj.m.Keys == old(adj.m.Keys) && data.nodesAttrs == old(data.nodesAttrs)
      ensures Grown(old(data.edgesAttrs), data.edgesAttrs, adj.m.Keys)
      ensures SameLoops(old(adj), adj)
      ensures forall v :: v in adj.m && v != each ==> (each, v) in data.edgesAttrs.m
    {
      ghost var adj0, edges0 := adj, data.edgesAttrs;
      var ns := adj.keys;
      var j := 0;
      while j < |ns|
        invariant 0 <= j <= |ns|
        invariant Valid()
        invariant adj.keys == ns && adj.m.Keys == adj0.m.Keys && data.nodesAttrs == old(data.nodesAttrs)
        invariant Grown(edges0, data.edgesAttrs, adj0.m.Keys)
        invariant SameLoops(adj0, adj)
        invariant forall v :: v in Seen(ns, j, each) ==> (each, v) in data.edgesAttrs.m
      {
        ghost var a1, e1 := adj, data.edgesAttrs;
        SeenStep(ns, j, each);
        LinkIfMissing((each, ns[j]));
        GrownTrans(edges0, e1, data.edgesAttrs, adj0.m.Keys);
        SameLoopsTrans(adj0, a1, adj);
        CoverStep(e1, data.edgesAttrs, adj0.m.Keys, ns, j, each);
        j := j + 1;
      }
      SeenAll(ns, each);
    }

    /** `complete`: afterwards every two distinct vertices are joined; the
        records already present are kept and the new ones carry weight 1
        and the empty label; no self-loop is added or removed. */
    method Complete()
      requires Valid()
      modifies this, data
      ensures Valid()
      ensures adj.keys == old(adj.keys) && data.nodesAttrs == old(data.nodesAttrs)
      ensures Grown(old(data.edgesAttrs), data.edgesAttrs, adj.m.Keys)
      ensures SameLoops(old(adj), adj)
      ensures forall u, v :: u in adj.m && v in adj.m && u != v ==> (u, v) in data.edgesAttrs.m && v in adj.m[u]
    {
      ghost var adj0, edges0 := adj, data.edgesAttrs;
      var ns := adj.keys;
      assert Taken(ns, 0) == {};
      var i := 0;
      while i < |ns|
        invariant 0 <= i <= |ns|
        invariant Valid()
        invariant adj.keys == ns && adj.m.Keys == adj0.m.Keys && data.nodesAttrs == old(data.nodesAttrs)
        invariant Grown(edges0, data.edgesAttrs, adj0.m.Keys)
        invariant SameLoops(adj0, adj)
        invariant forall u, v :: u in Taken(ns, i) && v in adj0.m && v != u ==> (u, v) in data.edgesAttrs.m
      {
        ghost var a1, e1 := adj, data.edgesAttrs;
        CompleteRow(ns[i]);
        GrownTrans(edges0, e1, data.edgesAttrs, adj0.m.Keys);
        SameLoopsTrans(adj0, a1, adj);
        RowStep(e1, data.edgesAttrs, adj0.m.Keys, ns, i);
        i := i + 1;
      }
      TakenAll(ns);
    }
    /** The first loop of `inverse` and of `reverse`: `add_node(n,
        attrs=recs[n])` for every `n` of `ns`, into a graph still empty. */
    method AddVertices(ns: seq<Node>, recs: map<Node, Attrs>)
      requires Valid() && adj == EmptyDict() && data.nodesAttrs == EmptyDict() && data.edgesAttrs == EmptyDict()
      requires Distinct(ns) && forall n :: n in ns ==> n in recs
      modifies this, data
      ensures Valid() && adj.keys == ns && data.edgesAttrs == EmptyDict()
      ensures Bare(adj, data.nodesAttrs, recs)
    {
      var k := 0;
      while k < |ns|
        invariant 0 <= k <= |ns|
        invariant Valid() && data.edgesAttrs == EmptyDict()
        invariant adj.keys == ns[..k]
        invariant Bare(adj, data.nodesAttrs, recs)
      {
        AddVertexAt(ns, recs, k);
        k := k + 1;
      }
      assert ns[..|ns|] == ns;
    }

    /** One pass of the loop of `AddVertices`. */
    method AddVertexAt(ns: seq<Node>, recs: map<Node, Attrs>, k: nat)
      requires Valid() && data.edgesAttrs == EmptyDict()
      requires k < |ns| && Distinct(ns) && forall n :: n in ns ==> n in recs
      requires adj.keys == ns[..k] && Bare(adj, data.nodesAttrs, recs)
      modifies this, data
      ensures Valid() && data.edgesAttrs == EmptyDict()
      ensures adj.keys == ns[..k + 1] && Bare(adj, data.nodesAttrs, recs)
    {
      ghost var a0, n0 := adj, data.nodesAttrs;
      PrefixStep(ns, k);
      var out := AddNode(ns[k], 1, "", recs[ns[k]]);
      BareStep(a0, n0, recs, ns[k]);
    }

    /** The last loop of `inverse`: `del_edge(each)` for every `each` of
        `ks` still recorded, on a graph without self-loop records. */
    method DropEdges(ks: seq<Edge>)
      requires Valid() && forall f :: f in data.edgesAttrs.m ==> f.0 != f.1
      modifies this, data
      ensures Valid()
      ensures adj.keys == old(adj.keys) && data.nodesAttrs == old(data.nodesAttrs)
      ensures Remaining(old(data.edgesAttrs), data.edgesAttrs, Elems(ks))
    {
      ghost var edges0 := data.edgesAttrs;
      RemainingNone(edges0, ks);
      var i := 0;
      while i < |ks|
        invariant 0 <= i <= |ks|
        invariant Valid() && adj.keys == old(adj.keys) && data.nodesAttrs == old(data.nodesAttrs)
        invariant Remaining(edges0, data.edgesAttrs, Taken(ks, i))
      {
        DropEdgeAt(ks, i, edges0);
        i := i + 1;
      }
      TakenAll(ks);
    }

    /** One pass of the last loop of `inverse`: `del_edge(ks[i])` when the
        edge is still recorded. */
    method DropEdgeAt(ks: seq<Edge>, i: nat, ghost edges0: Dict<Edge, Attrs>)
      requires i < |ks| && Valid() && forall f :: f in edges0.m ==> f.0 != f.1
      requires Remaining(edges0, data.edgesAttrs, Taken(ks, i))
      modifies this, data
      ensures Valid() && adj.keys == old(adj.keys) && data.nodesAttrs == old(data.nodesAttrs)
      ensures Remaining(edges0, data.edgesAttrs, Taken(ks, i + 1))
    {
      var e := ks[i];
      ghost var a1, e1 := adj, data.edgesAttrs;
      TakenStep(ks, i);
      if HasEdge(e) {
        assert e.0 != e.1 && e.0 in adj.m && e.1 in adj.m[e.0];
        UnrecordedMap(data.edgesAttrs, e);
        var r := DelEdge(e);
        UnlinkedLists(a1, e);
      } else {
        RecordsPaired(adj, data.nodesAttrs, data.edgesAttrs);
        assert Reversed(Reversed(e)) == e;
      }
      DropStep(edges0, e1, data.edgesAttrs, Taken(ks, i), e);
    }

    /** The body of `inverse` after the new graph is created, run on that
        graph: the vertices `ns` with records overlaid with `recs`, then
        `complete`, then `del_edge` for every edge of `ks` still recorded. */
    method FillInverse(ns: seq<Node>, recs: map<Node, Attrs>, ks: seq<Edge>)
      requires Valid() && adj == EmptyDict() && data.nodesAttrs == EmptyDict() && data.edgesAttrs == EmptyDict()
      requires Distinct(ns) && forall n :: n in ns ==> n in recs
      modifies this, data
      ensures Valid() && adj.keys == ns
      ensures forall n :: n in adj.m ==> n in data.nodesAttrs.m && data.nodesAttrs.m[n] == DefaultRecord(1, "") + recs[n]
      ensures forall f :: f in data.edgesAttrs.m <==>
                f.0 in adj.m && f.1 in adj.m && f.0 != f.1 && f !in Elems(ks) && Reversed(f) !in Elems(ks)
      ensures forall f :: f in data.edgesAttrs.m ==> data.edgesAttrs.m[f] == DefaultRecord(1, "")
    {
      AddVertices(ns, recs);
      BareRecords(adj, data.nodesAttrs, recs);
      Complete();
      ghost var e2 := data.edgesAttrs;
      assert Grown(EmptyDict(), e2, adj.m.Keys);
      DropEdges(ks);
    }

    /** `inverse`: a new graph on the same vertices, each with the record
        `{weight: 1, label: ""}` overlaid with its original record, joining
        exactly the pairs of distinct vertices this graph does not join,
        with default records. Self-loops are dropped. */
    method Inverse() returns (inv: Graph)
      requires Valid()
      ensures fresh(inv) && fresh(inv.data) && inv.Valid()
      ensures inv.adj.keys == adj.keys
      ensures forall n :: n in adj.m ==> inv.data.nodesAttrs.m[n] == DefaultRecord(1, "") + data.nodesAttrs.m[n]
      ensures forall f :: f in inv.data.edgesAttrs.m <==> f.0 in adj.m && f.1 in adj.m && f.0 != f.1 && f !in data.edgesAttrs.m
      ensures forall f :: f in inv.data.edgesAttrs.m ==> inv.data.edgesAttrs.m[f] == DefaultRecord(1, "")
      ensures forall u, v :: u in adj.m && v in adj.m ==> (v in inv.adj.m[u] <==> u != v && v !in adj.m[u])
    {
      inv := new Graph();
      inv.FillInverse(adj.keys, data.nodesAttrs.m, data.edgesAttrs.keys);
      InverseOf(adj, data.nodesAttrs, data.edgesAttrs, inv.adj, inv.data.edgesAttrs);
    }
    /** The body of the edge loop of `reverse` on an undirected graph:
        `get_edge_weight` and `get_edge_label` (KeyError for a missing
        field), then `add_edge(e, weight, label, rec)` with its KeyError and
        AdditionError checks. `add_edge` appends to the lists before
        `set_edge_weight` and `set_edge_label` check their argument types,
        so InvalidWeightError leaves the edge listed without records and
        InvalidLabelError leaves it listed with only its weight written. */
    method AddEdgeCopy(e: Edge, rec: Attrs) returns (out: Outcome)
      requires Valid()
      modifies this, data
      ensures out.Pass? || out.error == KeyError || out.error == AdditionError ==> Valid()
      ensures adj.keys == old(adj.keys) && adj.m.Keys == old(adj.m.Keys)
      ensures "weight" !in rec || "label" !in rec ==> out == Fail(KeyError)
      ensures "weight" in rec && "label" in rec && (e.0 !in old(adj.m) || e.1 !in old(adj.m)) ==> out == Fail(KeyError)
      ensures ("weight" in rec && "label" in rec && e.0 in old(adj.m) && e.1 in old(adj.m)
               && (e.1 in old(adj.m[e.0]) || e.0 in old(adj.m[e.1]))) ==> out == Fail(AdditionError)
      ensures out.Pass? <==> WellTyped(rec) && e.0 in old(adj.m) && e.1 in old(adj.m)
                             && e.1 !in old(adj.m[e.0]) && e.0 !in old(adj.m[e.1])
      ensures out == Fail(KeyError) || out == Fail(AdditionError) ==>
                adj == old(adj) && data.edgesAttrs == old(data.edgesAttrs)
      ensures out == Fail(InvalidWeightError) ==>
                e.0 in old(adj.m) && e.1 in old(adj.m) && adj == Linked(old(adj), e) && data.edgesAttrs == old(data.edgesAttrs)
      ensures out == Fail(InvalidLabelError) ==>
                e.0 in old(adj.m) && e.1 in old(adj.m) && adj == Linked(old(adj), e) &&
                data.edgesAttrs == UpsertEdge(old(data.edgesAttrs), e, "weight", rec["weight"], false)
      ensures out.Pass? ==> adj == Linked(old(adj), e)
      ensures out.Pass? ==> data.edgesAttrs == EdgeAdded(old(data.edgesAttrs), e, WeightInt(rec["weight"]), rec["label"].s, rec)
      ensures data.nodesAttrs == old(data.nodesAttrs)
    {
      if "weight" !in rec || "label" !in rec {
        return Fail(KeyError);
      }
      var (u, v) := e;
      if u !in adj.m {
        return Fail(KeyError);
      }
      if v in adj.m[u] {
        return Fail(AdditionError);
      }
      if v !in adj.m {
        return Fail(KeyError);
      }
      if u in adj.m[v] {
        return Fail(AdditionError);
      }
      ghost var a0 := adj;
      out := AddRecordEdge(e, rec);
      LinkedLists(a0, e);
    }

    /** `add_edge(e, weight, label, rec)` once its endpoints are known to be
        vertices that are not joined: the lists are appended, then
        `set_edge_weight` and `set_edge_label` check the types of the
        weight and the label in that order. */
    method AddRecordEdge(e: Edge, rec: Attrs) returns (out: Outcome)
      requires Valid() && "weight" in rec && "label" in rec
      requires e.0 in adj.m && e.1 in adj.m && e.1 !in adj.m[e.0] && e.0 !in adj.m[e.1]
      modifies this, data
      ensures out.Pass? <==> WellTyped(rec)
      ensures out.Pass? ==> Valid()
      ensures out.Fail? ==> out.error == (if IsWeight(rec["weight"]) then InvalidLabelError else InvalidWeightError)
      ensures adj == Linked(old(adj), e)
      ensures out == Fail(InvalidWeightError) ==> data.edgesAttrs == old(data.edgesAttrs)
      ensures out == Fail(InvalidLabelError) ==>
                data.edgesAttrs == UpsertEdge(old(data.edgesAttrs), e, "weight", rec["weight"], false)
      ensures out.Pass? ==> data.edgesAttrs == EdgeAdded(old(data.edgesAttrs), e, WeightInt(rec["weight"]), rec["label"].s, rec)
      ensures data.nodesAttrs == old(data.nodesAttrs)
    {
      if !IsWeight(rec["weight"]) {
        adj := Linked(adj, e);
        return Fail(InvalidWeightError);
      }
      if !rec["label"].StrVal? {
        adj := Linked(adj, e);
        data.AddEdgeAttribute(e, "weight", rec["weight"]);
        return Fail(InvalidLabelError);
      }
      out := AddEdge(e, WeightInt(rec["weight"]), rec["label"].s, rec);
    }

    /** One pass of the loop of `CopyEdges`. */
    method CopyEdgeAt(ks: seq<Edge>, recs: map<Edge, Attrs>, i: nat) returns (out: Outcome)
      requires Valid() && i < |ks| && Distinct(ks) && forall f :: f in ks ==> f in recs
      requires Copied(adj, data.edgesAttrs, ks, i, recs)
      modifies this, data
      ensures out.Pass? ==> Valid()
      ensures adj.keys == old(adj.keys) && adj.m.Keys == old(adj.m.Keys) && data.nodesAttrs == old(data.nodesAttrs)
      ensures out.Pass? ==> Copied(adj, data.edgesAttrs, ks, i + 1, recs)
      ensures out.Fail? && ks[i].0 in old(adj.m) && ks[i].1 in old(adj.m) && WellTyped(recs[ks[i]]) ==>
                out.error == AdditionError && ks[i].0 != ks[i].1 && Reversed(ks[i]) in ks
    {
      var e := ks[i];
      ghost var a1, e1 := adj, data.edgesAttrs;
      TakenStep(ks, i);
      TakenFresh(ks, i);
      out := AddEdgeCopy(e, recs[e]);
      if out.Fail? {
        if e.0 in a1.m && e.1 in a1.m && WellTyped(recs[e]) {
          RefusedMeansPaired(a1, Taken(ks, i), e);
        }
        return;
      }
      LinkedLists(a1, e);
      JoinStep(a1, Taken(ks, i), e);
      UnpairedStep(a1, Taken(ks, i), e);
      LoopCopyStep(a1, e1, ks, i, recs, WeightInt(recs[e]["weight"]), recs[e]["label"].s);
    }

    /** The edge loop of `reverse` on an undirected graph, run on the new
        graph: every key of `ks` is copied with its record from `recs`, in
        order, and the first failure ends the loop. */
    method CopyEdges(ks: seq<Edge>, recs: map<Edge, Attrs>) returns (out: Outcome)
      requires Valid() && data.edgesAttrs == EmptyDict() && forall n :: n in adj.m ==> adj.m[n] == []
      requires Distinct(ks) && forall f :: f in ks ==> f in recs
      modifies this, data
      ensures out.Pass? ==> Valid()
      ensures adj.keys == old(adj.keys) && adj.m.Keys == old(adj.m.Keys) && data.nodesAttrs == old(data.nodesAttrs)
      ensures out.Pass? ==> Unpaired(Elems(ks))
      ensures out.Pass? && LoopsOnly(Elems(ks)) ==>
                data.edgesAttrs == Dict(ks, Restrict(recs, Elems(ks))) &&
                (forall n :: n in adj.m ==> adj.m[n] == if (n, n) in Elems(ks) then [n] else [])
      ensures out.Fail? && (forall f :: f in ks ==> f.0 in old(adj.m) && f.1 in old(adj.m) && WellTyped(recs[f])) ==>
                out.error == AdditionError && exists f :: f in ks && f.0 != f.1 && Reversed(f) in ks
    {
      ghost var vs := adj.m.Keys;
      CopiedNone(adj, data.edgesAttrs, ks, recs);
      var i := 0;
      while i < |ks|
        invariant 0 <= i <= |ks|
        invariant Valid() && adj.keys == old(adj.keys) && adj.m.Keys == vs && data.nodesAttrs == old(data.nodesAttrs)
        invariant Copied(adj, data.edgesAttrs, ks, i, recs)
      {
        out := CopyEdgeAt(ks, recs, i);
        if out.Fail? {
          assert ks[i] in ks;
          return;
        }
        assert out.Pass? && Valid();
        i := i + 1;
      }
      CopiedAll(adj, data.edgesAttrs, ks, recs);
      out := Pass;
    }

    /** The body of `reverse` after the copy is created, run on the copy:
        the vertices `ns` with empty extra records, then the edge loop over
        the keys `ks` of the original records `recs`. */
    method FillReverse(ns: seq<Node>, ks: seq<Edge>, recs: map<Edge, Attrs>) returns (out: Outcome)
      requires Valid() && adj == EmptyDict() && data.nodesAttrs == EmptyDict() && data.edgesAttrs == EmptyDict()
      requires Distinct(ns) && Distinct(ks) && forall f :: f in ks ==> f in recs
      modifies this, data
      ensures out.Pass? ==> Valid()
      ensures adj.keys == ns
      ensures forall n :: n in adj.m ==> n in data.nodesAttrs.m && data.nodesAttrs.m[n] == DefaultRecord(1, "")
      ensures out.Pass? ==> Unpaired(Elems(ks))
      ensures out.Pass? && LoopsOnly(Elems(ks)) ==>
                data.edgesAttrs == Dict(ks, Restrict(recs, Elems(ks))) &&
                (forall n :: n in adj.m ==> adj.m[n] == if (n, n) in Elems(ks) then [n] else [])
      ensures out.Fail? && (forall f :: f in ks ==> f.0 in ns && f.1 in ns && WellTyped(recs[f])) ==>
                out.error == AdditionError && exists f :: f in ks && f.0 != f.1 && Reversed(f) in ks
    {
      var blank: map<Node, Attrs> := map n | n in ns :: map[];
      AddVertices(ns, blank);
      BareRecords(adj, data.nodesAttrs, blank);
      assert DefaultRecord(1, "") + map[] == DefaultRecord(1, "");
      assert forall n :: n in adj.m <==> n in ns;
      out := CopyEdges(ks, recs);
    }

    /** `reverse` on an undirected graph: a new graph on the same vertices
        with default records, into which every edge key is copied in order.
        A non-loop edge is recorded under both orientations, so its second
        copy raises AdditionError: the copy succeeds only for a graph whose
        only edges are self-loops. */
    method Reverse() returns (r: Result<Graph>)
      requires Valid()
      ensures r.Ok? ==> fresh(r.value) && fresh(r.value.data) && r.value.Valid()
      ensures r.Ok? ==> LoopsCopied(adj, data.edgesAttrs, r.value.adj, r.value.data.nodesAttrs, r.value.data.edgesAttrs)
      ensures Copyable(adj, data.edgesAttrs) ==> (r.Err? <==> exists f :: f in data.edgesAttrs.m && f.0 != f.1)
      ensures Copyable(adj, data.edgesAttrs) && r.Err? ==> r.error == AdditionError
    {
      ghost var adj0, nodes0, edges0 := adj, data.nodesAttrs, data.edgesAttrs;
      var copy := new Graph();
      var out := copy.FillReverse(adj.keys, data.edgesAttrs.keys, data.edgesAttrs.m);
      assert adj == adj0 && data.nodesAttrs == nodes0 && data.edgesAttrs == edges0;
      if out.Fail? {
        if Copyable(adj0, edges0) {
          assert forall n :: n in adj0.keys <==> n in adj0.m;
          ReverseFailed(adj0, nodes0, edges0, out);
        }
        return Err(out.error);
      }
      ReverseCopied(adj0, nodes0, edges0, copy.adj, copy.data.nodesAttrs, copy.data.edgesAttrs);
      r := Ok(copy);
    }
  }
}
