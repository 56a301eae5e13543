/** The directed graph: a successor list (`_neighbors`) and a predecessor
    list (`_reverse_neighbors`) per vertex, kept in lockstep, and one edge
    record per stored edge. */
module Directed {
  import opened Base
  import opened DataMixin
  import opened CommonMixin
  import opened Adjacency

  /** The invariant the directed operations keep: the two tables and the
      vertex records have the same keys, no list repeats a vertex, `v` is a
      successor of `u` exactly when `u` is a predecessor of `v`, and the
      edge records are exactly the stored successor pairs. */
  ghost predicate Inv(succ: Dict<Node, seq<Node>>, pred: Dict<Node, seq<Node>>,
                      nodes: Dict<Node, Attrs>, edges: Dict<Edge, Attrs>)
  {
    Tables(succ, pred, nodes, edges) && ListsDistinct(succ) && ListsDistinct(pred) &&
    Lockstep(succ, pred) && Recorded(succ, edges)
  }

  ghost predicate Tables(succ: Dict<Node, seq<Node>>, pred: Dict<Node, seq<Node>>,
                         nodes: Dict<Node, Attrs>, edges: Dict<Edge, Attrs>)
  {
    succ.Valid() && pred.Valid() && nodes.Valid() && edges.Valid() &&
    (forall n :: n in succ.m <==> n in pred.m) && (forall n :: n in succ.m <==> n in nodes.m)
  }

  ghost predicate Lockstep(succ: Dict<Node, seq<Node>>, pred: Dict<Node, seq<Node>>)
  {
    (forall u, v :: u in succ.m && v in succ.m[u] ==> v in pred.m && u in pred.m[v]) &&
    (forall u, v :: v in pred.m && u in pred.m[v] ==> u in succ.m && v in succ.m[u])
  }

  ghost predicate Recorded(succ: Dict<Node, seq<Node>>, edges: Dict<Edge, Attrs>)
  {
    (forall e :: e in edges.m ==> e.0 in succ.m && e.1 in succ.m[e.0]) &&
    (forall u, v :: u in succ.m && v in succ.m[u] ==> (u, v) in edges.m)
  }

  /** `(n, x)` for every `x` of `list`, in order. */
  function Out(n: Node, list: seq<Node>): (r: seq<Edge>)
    ensures forall e :: e in r <==> e.0 == n && e.1 in list
  {
    if list == [] then [] else [(n, list[0])] + Out(n, list[1..])
  }

  /** `_edges()`: the pairs of the successor lists of the vertices `ks`,
      vertex by vertex and each list in order. */
  function EdgeList(succ: Dict<Node, seq<Node>>, ks: seq<Node>): (r: seq<Edge>)
    ensures forall e :: e in r <==> e.0 in ks && e.0 in succ.m && e.1 in succ.m[e.0]
  {
    if ks == [] then []
    else (if ks[0] in succ.m then Out(ks[0], succ.m[ks[0]]) else []) + EdgeList(succ, ks[1..])
  }

  lemma {:induction false} OutDistinct(n: Node, list: seq<Node>)
    requires Distinct(list)
    ensures Distinct(Out(n, list))
  {
    if list != [] {
      OutDistinct(n, list[1..]);
      DistinctConcat([(n, list[0])], Out(n, list[1..]));
    }
  }

  lemma {:induction false} EdgeListDistinct(succ: Dict<Node, seq<Node>>, ks: seq<Node>)
    requires Distinct(ks) && ListsDistinct(succ)
    ensures Distinct(EdgeList(succ, ks))
  {
    if ks != [] {
      var head := if ks[0] in succ.m then Out(ks[0], succ.m[ks[0]]) else [];
      if ks[0] in succ.m {
        OutDistinct(ks[0], succ.m[ks[0]]);
      }
      EdgeListDistinct(succ, ks[1..]);
      DistinctConcat(head, EdgeList(succ, ks[1..]));
    }
  }

  /** Under the invariant `edges()` lists every edge record exactly once. */
  lemma EdgesAreRecords(succ: Dict<Node, seq<Node>>, pred: Dict<Node, seq<Node>>,
                        nodes: Dict<Node, Attrs>, edges: Dict<Edge, Attrs>)
    requires Inv(succ, pred, nodes, edges)
    ensures Distinct(EdgeList(succ, succ.keys))
    ensures forall e :: e in EdgeList(succ, succ.keys) <==> e in edges.m
  {
    EdgeListDistinct(succ, succ.keys);
  }

  /** The successor table names vertices only. */
  lemma SuccClosed(succ: Dict<Node, seq<Node>>, pred: Dict<Node, seq<Node>>)
    requires Lockstep(succ, pred) && forall n :: n in succ.m <==> n in pred.m
    ensures Closed(succ)
  {
  }

  /** A directed graph keeping the invariant reads as a well-formed
      snapshot whose edge records agree with its successor lists. */
  lemma ViewOfInv(succ: Dict<Node, seq<Node>>, pred: Dict<Node, seq<Node>>,
                  nodes: Dict<Node, Attrs>, edges: Dict<Edge, Attrs>)
    requires Inv(succ, pred, nodes, edges)
    ensures View(true, succ.keys, succ.m, EdgeList(succ, succ.keys), nodes.m, edges.m).WF()
    ensures View(true, succ.keys, succ.m, EdgeList(succ, succ.keys), nodes.m, edges.m).Tidy()
  {
    EdgesAreRecords(succ, pred, nodes, edges);
    SuccClosed(succ, pred);
    assert nodes.m.Keys == succ.m.Keys;
    RecordedIsTidy(succ, edges, View(true, succ.keys, succ.m, EdgeList(succ, succ.keys), nodes.m, edges.m));
  }

  lemma RecordedIsTidy(succ: Dict<Node, seq<Node>>, edges: Dict<Edge, Attrs>, g: View)
    requires Recorded(succ, edges) && g.adj == succ.m && g.edgeAttrs == edges.m
    ensures g.Tidy()
  {
  }

  /** The predecessors of a vertex are the vertices listing it as successor. */
  lemma PredIsIncoming(succ: Dict<Node, seq<Node>>, pred: Dict<Node, seq<Node>>, n: Node)
    requires Lockstep(succ, pred) && n in pred.m
    ensures forall x :: x in pred.m[n] <==> x in succ.m && n in succ.m[x]
  {
  }

  lemma SuccIsOutgoing(succ: Dict<Node, seq<Node>>, pred: Dict<Node, seq<Node>>, n: Node)
    requires Lockstep(succ, pred) && n in succ.m
    ensures forall x :: x in succ.m[n] <==> x in pred.m && n in pred.m[x]
  {
  }

  lemma SuccInPred(succ: Dict<Node, seq<Node>>, pred: Dict<Node, seq<Node>>, u: Node, v: Node)
    requires Lockstep(succ, pred) && u in succ.m
    ensures v in succ.m[u] ==> v in pred.m && u in pred.m[v]
  {
  }

  /** A stored successor pair has its predecessor entry and its record. */
  lemma StoredEdge(succ: Dict<Node, seq<Node>>, pred: Dict<Node, seq<Node>>, edges: Dict<Edge, Attrs>, e: Edge)
    requires Lockstep(succ, pred) && Recorded(succ, edges) && e.0 in succ.m && e.1 in succ.m[e.0]
    ensures e.1 in pred.m && e.0 in pred.m[e.1] && e in edges.m
  {
  }

  /** `table[u].append(v)`. */
  function Appended(t: Dict<Node, seq<Node>>, u: Node, v: Node): Dict<Node, seq<Node>>
    requires u in t.m
  {
    t.Put(u, t.m[u] + [v])
  }

  /** `table[u].remove(v)` on a list without duplicates. */
  function Dropped(t: Dict<Node, seq<Node>>, u: Node, v: Node): Dict<Node, seq<Node>>
    requires u in t.m
  {
    t.Put(u, Filter(t.m[u], {v}))
  }

  lemma AppendedLists(t: Dict<Node, seq<Node>>, u: Node, v: Node)
    requires u in t.m
    ensures Appended(t, u, v).keys == t.keys && Appended(t, u, v).m.Keys == t.m.Keys
    ensures forall x, y :: x in t.m ==> (y in Appended(t, u, v).m[x] <==> y in t.m[x] || (x == u && y == v))
  {
  }

  lemma DroppedLists(t: Dict<Node, seq<Node>>, u: Node, v: Node)
    requires u in t.m
    ensures Dropped(t, u, v).keys == t.keys && Dropped(t, u, v).m.Keys == t.m.Keys
    ensures forall x, y :: x in t.m ==> (y in Dropped(t, u, v).m[x] <==> y in t.m[x] && !(x == u && y == v))
  {
  }

  lemma AddNodeKeepsInv(succ: Dict<Node, seq<Node>>, pred: Dict<Node, seq<Node>>,
                        nodes: Dict<Node, Attrs>, edges: Dict<Edge, Attrs>, n: Node, rec: Attrs)
    requires Inv(succ, pred, nodes, edges) && n !in succ.m
    ensures Inv(succ.Put(n, []), pred.Put(n, []), nodes.Put(n, rec), edges)
  {
    AddNodeLockstep(succ, pred, n);
    AddNodeRecorded(succ, edges, n);
  }

  lemma AddNodeLockstep(succ: Dict<Node, seq<Node>>, pred: Dict<Node, seq<Node>>, n: Node)
    requires Lockstep(succ, pred) && n !in succ.m && n !in pred.m
    ensures Lockstep(succ.Put(n, []), pred.Put(n, []))
  {
  }

  lemma AddNodeRecorded(succ: Dict<Node, seq<Node>>, edges: Dict<Edge, Attrs>, n: Node)
    requires Recorded(succ, edges) && n !in succ.m
    ensures Recorded(succ.Put(n, []), edges)
  {
    var s := succ.Put(n, []);
    forall e: Edge | e.0 in s.m && e.1 in s.m[e.0] ensures e in edges.m {
      assert e.0 in succ.m;
    }
  }

  lemma AddEdgeKeepsInv(succ: Dict<Node, seq<Node>>, pred: Dict<Node, seq<Node>>,
                        nodes: Dict<Node, Attrs>, edges: Dict<Edge, Attrs>, e: Edge, rec: Attrs)
    requires Inv(succ, pred, nodes, edges)
    requires e.0 in succ.m && e.1 in succ.m && e.1 !in succ.m[e.0]
    ensures e.1 in pred.m && e.0 !in pred.m[e.1] && e !in edges.m
    ensures Inv(Appended(succ, e.0, e.1), Appended(pred, e.1, e.0), nodes, edges.Put(e, rec))
  {
    var (u, v) := e;
    AppendedShape(succ, pred, u, v);
    AppendedLists(succ, u, v);
    AppendedLists(pred, v, u);
    var ed := edges.Put(e, rec);
    assert Tables(Appended(succ, u, v), Appended(pred, v, u), nodes, ed);
    assert Recorded(Appended(succ, u, v), ed);
  }

  lemma AppendedShape(succ: Dict<Node, seq<Node>>, pred: Dict<Node, seq<Node>>, u: Node, v: Node)
    requires ListsDistinct(succ) && ListsDistinct(pred) && Lockstep(succ, pred)
    requires u in succ.m && v in succ.m && v in pred.m && v !in succ.m[u]
    ensures u !in pred.m[v]
    ensures ListsDistinct(Appended(succ, u, v)) && ListsDistinct(Appended(pred, v, u))
    ensures Lockstep(Appended(succ, u, v), Appended(pred, v, u))
  {
    AppendDistinct(succ.m[u], v);
    AppendDistinct(pred.m[v], u);
    AppendedLists(succ, u, v);
    AppendedLists(pred, v, u);
  }

  lemma DelEdgeKeepsInv(succ: Dict<Node, seq<Node>>, pred: Dict<Node, seq<Node>>,
                        nodes: Dict<Node, Attrs>, edges: Dict<Edge, Attrs>, e: Edge)
    requires Inv(succ, pred, nodes, edges)
    requires e.0 in succ.m && e.1 in succ.m[e.0]
    ensures e.1 in pred.m && e.0 in pred.m[e.1] && e in edges.m
    ensures Inv(Dropped(succ, e.0, e.1), Dropped(pred, e.1, e.0), nodes, edges.Remove(e))
  {
    var (u, v) := e;
    StoredEdge(succ, pred, edges, e);
    DroppedDistinct(succ, u, v);
    DroppedDistinct(pred, v, u);
    DroppedTables(succ, pred, nodes, edges, e);
    DroppedLockstep(succ, pred, u, v);
    DroppedRecorded(succ, edges, e);
  }

  lemma DroppedDistinct(t: Dict<Node, seq<Node>>, u: Node, v: Node)
    requires ListsDistinct(t) && u in t.m
    ensures ListsDistinct(Dropped(t, u, v))
  {
    FilterDistinct(t.m[u], {v});
  }

  lemma DroppedTables(succ: Dict<Node, seq<Node>>, pred: Dict<Node, seq<Node>>,
                      nodes: Dict<Node, Attrs>, edges: Dict<Edge, Attrs>, e: Edge)
    requires Tables(succ, pred, nodes, edges) && e.0 in succ.m && e.1 in pred.m && e in edges.m
    ensures Tables(Dropped(succ, e.0, e.1), Dropped(pred, e.1, e.0), nodes, edges.Remove(e))
  {
  }

  lemma DroppedLockstep(succ: Dict<Node, seq<Node>>, pred: Dict<Node, seq<Node>>, u: Node, v: Node)
    requires Lockstep(succ, pred) && u in succ.m && v in pred.m
    ensures Lockstep(Dropped(succ, u, v), Dropped(pred, v, u))
  {
    DroppedLists(succ, u, v);
    DroppedLists(pred, v, u);
  }

  lemma DroppedRecorded(succ: Dict<Node, seq<Node>>, edges: Dict<Edge, Attrs>, e: Edge)
    requires Recorded(succ, edges) && edges.Valid() && e.0 in succ.m && e in edges.m
    ensures Recorded(Dropped(succ, e.0, e.1), edges.Remove(e))
  {
    DroppedLists(succ, e.0, e.1);
  }

  /** `list.remove` on the two lists of a stored edge is `Dropped`. */
  lemma DroppedByRemoval(succ: Dict<Node, seq<Node>>, pred: Dict<Node, seq<Node>>, e: Edge)
    requires ListsDistinct(succ) && ListsDistinct(pred) && Lockstep(succ, pred)
    requires e.0 in succ.m && e.1 in succ.m[e.0]
    ensures e.1 in pred.m && e.0 in pred.m[e.1]
    ensures Dropped(succ, e.0, e.1) == succ.Put(e.0, RemoveFirst(succ.m[e.0], e.1))
    ensures Dropped(pred, e.1, e.0) == pred.Put(e.1, RemoveFirst(pred.m[e.1], e.0))
  {
    RemoveFirstIsFilter(succ.m[e.0], e.1);
    RemoveFirstIsFilter(pred.m[e.1], e.0);
  }

  /** The three writes of `add_edge` to the record of a new directed edge. */
  lemma EdgeRecordWritten(d: Dict<Edge, Attrs>, e: Edge, weight: int, text: string, attrs: Attrs)
    requires e !in d.m
    ensures MergeEdge(UpsertEdge(UpsertEdge(d, e, "weight", IntVal(weight), true), e, "label", StrVal(text), true), e, attrs, true)
         == d.Put(e, DefaultRecord(weight, text) + attrs)
  {
    FreshRecordWritten(d, e, weight, text, attrs);
  }

  /** `del_edge` undoes `add_edge`: deleting an edge just added restores
      both tables and the edge records. */
  lemma AddThenDelEdge(succ: Dict<Node, seq<Node>>, pred: Dict<Node, seq<Node>>,
                       nodes: Dict<Node, Attrs>, edges: Dict<Edge, Attrs>, e: Edge, rec: Attrs)
    requires Inv(succ, pred, nodes, edges)
    requires e.0 in succ.m && e.1 in succ.m && e.1 !in succ.m[e.0]
    ensures Inv(Appended(succ, e.0, e.1), Appended(pred, e.1, e.0), nodes, edges.Put(e, rec))
    ensures Dropped(Appended(succ, e.0, e.1), e.0, e.1) == succ
    ensures Dropped(Appended(pred, e.1, e.0), e.1, e.0) == pred
    ensures edges.Put(e, rec).Remove(e) == edges
  {
    var (u, v) := e;
    AddEdgeKeepsInv(succ, pred, nodes, edges, e, rec);
    FilterDropLast(succ.m[u], v);
    PutRestore(succ, u, succ.m[u] + [v]);
    FilterDropLast(pred.m[v], u);
    PutRestore(pred, v, pred.m[v] + [u]);
    PutThenRemove(edges, e, rec);
  }

  /** A table while one loop of `del_node(n)` runs: `n` is gone from the
      lists of the vertices of `done`. */
  function Cleared(t: Dict<Node, seq<Node>>, n: Node, done: set<Node>): (r: Dict<Node, seq<Node>>)
    ensures r.keys == t.keys && r.m.Keys == t.m.Keys
    ensures forall x :: x in done && x in t.m ==> n !in r.m[x]
  {
    Dict(t.keys, map x | x in t.m :: if x in done then Filter(t.m[x], {n}) else t.m[x])
  }

  /** The edge keys `(x, n)` for the vertices `x` of `done`. */
  function Into(n: Node, done: set<Node>): set<Edge>
  {
    set x | x in done :: (x, n)
  }

  /** The edge keys `(n, x)` for the vertices `x` of `done`. */
  function OutOf(n: Node, done: set<Node>): set<Edge>
  {
    set x | x in done :: (n, x)
  }

  /** The records `del_node(n)` deletes: every edge key with `n` at either end. */
  function Touching(edges: Dict<Edge, Attrs>, n: Node): set<Edge>
  {
    set f | f in edges.m && (f.0 == n || f.1 == n)
  }

  lemma ClearedNone(t: Dict<Node, seq<Node>>, n: Node)
    ensures Cleared(t, n, {}) == t
  {
    assert Cleared(t, n, {}).m == t.m;
  }

  lemma OwnNone(t: Dict<Node, seq<Node>>, n: Node)
    requires n in t.m
    ensures t.Put(n, Filter(t.m[n], {})) == t
  {
    FilterNothing(t.m[n], {});
    assert t.m[n := t.m[n]] == t.m;
  }

  /** The loop of `del_node` over the list of `n` in table `t0` handles one
      more entry: `n`'s own list loses it. */
  lemma OwnStep(t0: Dict<Node, seq<Node>>, n: Node, done: set<Node>, each: Node)
    requires n in t0.m
    ensures Dropped(t0.Put(n, Filter(t0.m[n], done)), n, each) == t0.Put(n, Filter(t0.m[n], done + {each}))
  {
    FilterFilter(t0.m[n], done, {each});
    assert t0.m[n := Filter(t0.m[n], done)][n := Filter(t0.m[n], done + {each})]
        == t0.m[n := Filter(t0.m[n], done + {each})];
  }

  /** ... and the other table loses `n` from the entry's list. */
  lemma ClearedStep(t0: Dict<Node, seq<Node>>, n: Node, done: set<Node>, each: Node)
    requires each in t0.m && each !in done
    ensures each in Cleared(t0, n, done).m && Cleared(t0, n, done).m[each] == t0.m[each]
    ensures Dropped(Cleared(t0, n, done), each, n) == Cleared(t0, n, done + {each})
  {
    var c, c2 := Cleared(t0, n, done), Cleared(t0, n, done + {each});
    assert c.m[each := Filter(t0.m[each], {n})] == c2.m;
  }

  /** Deleting one more record from a table with some keys already gone. */
  lemma WithoutStep(edges0: Dict<Edge, Attrs>, gone: set<Edge>, e: Edge)
    requires edges0.Valid() && e in edges0.m && e !in gone
    ensures edges0.Without(gone).Valid() && e in edges0.Without(gone).m
    ensures edges0.Without(gone).Remove(e) == edges0.Without(gone + {e})
  {
    RemoveIsWithout(edges0.Without(gone), e);
    WithoutWithout(edges0, gone, {e});
  }

  lemma IntoStep(n: Node, done: set<Node>, each: Node)
    requires each !in done
    ensures (each, n) !in Into(n, done) && Into(n, done + {each}) == Into(n, done) + {(each, n)}
  {
  }

  lemma OutOfStep(n: Node, done: set<Node>, each: Node)
    requires each !in done
    ensures (n, each) !in OutOf(n, done) && OutOf(n, done + {each}) == OutOf(n, done) + {(n, each)}
  {
  }

  /** What the first loop of `del_node(n)` relies on: every predecessor
      `x` lists `n` as successor and `(x, n)` is recorded. */
  lemma IncomingFacts(succ: Dict<Node, seq<Node>>, pred: Dict<Node, seq<Node>>, edges: Dict<Edge, Attrs>, n: Node)
    requires Lockstep(succ, pred) && Recorded(succ, edges) && n in pred.m
    ensures forall x :: x in pred.m[n] ==> x in succ.m && n in succ.m[x] && (x, n) in edges.m
  {
  }

  /** What the second loop relies on: every successor `x` lists `n` as
      predecessor and `(n, x)` is recorded. */
  lemma OutgoingFacts(succ: Dict<Node, seq<Node>>, pred: Dict<Node, seq<Node>>, edges: Dict<Edge, Attrs>, n: Node)
    requires Lockstep(succ, pred) && Recorded(succ, edges) && n in succ.m
    ensures forall x :: x in succ.m[n] ==> x in pred.m && n in pred.m[x] && (n, x) in edges.m
  {
  }

  /** Filtering a list by a superset of its elements empties it. */
  lemma {:induction false} FilterAll(list: seq<Node>, drop: set<Node>)
    requires forall x :: x in list ==> x in drop
    ensures Filter(list, drop) == []
  {
    if list != [] {
      assert list[0] in drop;
      FilterAll(list[1..], drop);
    }
  }

  /** Once a vertex has no successors and no predecessors, deleting its two
      entries and its record keeps the invariant. */
  lemma IsolatedRemoval(succ: Dict<Node, seq<Node>>, pred: Dict<Node, seq<Node>>,
                        nodes: Dict<Node, Attrs>, edges: Dict<Edge, Attrs>, n: Node)
    requires Inv(succ, pred, nodes, edges) && n in succ.m && succ.m[n] == [] && pred.m[n] == []
    ensures Inv(succ.Remove(n), pred.Remove(n), nodes.Remove(n), edges)
  {
    IsolatedLockstep(succ, pred, n, succ.Remove(n), pred.Remove(n));
    IsolatedRecorded(succ, pred, edges, n);
  }

  lemma IsolatedLockstep(succ: Dict<Node, seq<Node>>, pred: Dict<Node, seq<Node>>, n: Node,
                         s: Dict<Node, seq<Node>>, p: Dict<Node, seq<Node>>)
    requires Lockstep(succ, pred)
    requires n in succ.m && n in pred.m && succ.m[n] == [] && pred.m[n] == []
    requires s.m == succ.m - {n} && p.m == pred.m - {n}
    ensures Lockstep(s, p)
  {
    IsolatedMaps(succ.m, pred.m, n, s.m, p.m);
  }

  /** `IsolatedLockstep` on the underlying maps. */
  lemma IsolatedMaps(sm: map<Node, seq<Node>>, pm: map<Node, seq<Node>>, n: Node,
                     sm': map<Node, seq<Node>>, pm': map<Node, seq<Node>>)
    requires forall u, v :: u in sm && v in sm[u] ==> v in pm && u in pm[v]
    requires forall u, v :: v in pm && u in pm[v] ==> u in sm && v in sm[u]
    requires n in sm && n in pm && sm[n] == [] && pm[n] == []
    requires sm' == sm - {n} && pm' == pm - {n}
    ensures forall u, v :: u in sm' && v in sm'[u] ==> v in pm' && u in pm'[v]
    ensures forall u, v :: v in pm' && u in pm'[v] ==> u in sm' && v in sm'[u]
  {
    forall u, v | u in sm' && v in sm'[u] ensures v in pm' && u in pm'[v] {
      assert u in pm[v];
    }
    forall u, v | v in pm' && u in pm'[v] ensures u in sm' && v in sm'[u] {
      assert v in sm[u];
    }
  }

  lemma IsolatedRecorded(succ: Dict<Node, seq<Node>>, pred: Dict<Node, seq<Node>>, edges: Dict<Edge, Attrs>, n: Node)
    requires Lockstep(succ, pred) && Recorded(succ, edges) && succ.Valid()
    requires n in succ.m && n in pred.m && succ.m[n] == [] && pred.m[n] == []
    ensures Recorded(succ.Remove(n), edges)
  {
    forall e | e in edges.m ensures e.0 != n {
      assert e.1 in succ.m[e.0];
    }
  }

  /** A table with `n` cleared from the lists of `done`, then `n`'s own
      entry deleted, is the detached table when `done` holds every vertex
      other than `n` whose list names `n`. */
  lemma ClearedMap(t: Dict<Node, seq<Node>>, n: Node, done: set<Node>, r: map<Node, seq<Node>>)
    requires forall x :: x in t.m && x != n && n in t.m[x] ==> x in done
    requires r.Keys == t.m.Keys - {n}
    requires forall x :: x in r ==> r[x] == if x in done then Filter(t.m[x], {n}) else t.m[x]
    ensures r == Detached(t, n).m
  {
    forall x | x in r && x !in done ensures r[x] == Filter(t.m[x], {n}) {
      FilterNothing(t.m[x], {n});
    }
  }

  /** The successor table `del_node(n)` leaves, once the first loop has
      handled every `x` other than `n` whose successor list names `n`. */
  lemma SuccDetached(succ0: Dict<Node, seq<Node>>, n: Node, done: set<Node>)
    requires succ0.Valid() && n in succ0.m
    requires forall x :: x in succ0.m && x != n && n in succ0.m[x] ==> x in done
    ensures Cleared(succ0, n, done).Put(n, []).Valid()
    ensures Cleared(succ0, n, done).Put(n, []).Remove(n) == Detached(succ0, n)
  {
    var c := Cleared(succ0, n, done);
    assert c.Valid();
    var r := c.Put(n, []).Remove(n);
    ClearedMap(succ0, n, done, r.m);
  }

  /** The predecessor table `del_node(n)` leaves, once the second loop has
      handled every `x` other than `n` whose predecessor list names `n`. */
  lemma PredDetached(pred0: Dict<Node, seq<Node>>, n: Node, own: set<Node>)
    requires pred0.Valid() && n in pred0.m
    requires forall x :: x in pred0.m && x != n && n in pred0.m[x] ==> x in own
    ensures Cleared(pred0.Put(n, []), n, own).Valid()
    ensures Cleared(pred0.Put(n, []), n, own).Remove(n) == Detached(pred0, n)
  {
    var p1 := pred0.Put(n, []);
    assert p1.keys == pred0.keys;
    var c := Cleared(p1, n, own);
    assert c.Valid();
    var r := c.Remove(n);
    ClearedMap(pred0, n, own, r.m);
    assert r.keys == Detached(pred0, n).keys;
  }

  /** The second loop of `del_node(n)` visits every successor of `n` but
      `n` itself, as the first loop has left them. */
  lemma OwnCovers(succ0: Dict<Node, seq<Node>>, pred0: Dict<Node, seq<Node>>, n: Node)
    requires n in succ0.m && n in pred0.m
    requires forall x :: x in pred0.m && n in pred0.m[x] ==> x in succ0.m[n]
    ensures n in Cleared(succ0, n, Elems(pred0.m[n])).m
    ensures forall x :: x in pred0.m && x != n && n in pred0.m[x] ==>
              x in Cleared(succ0, n, Elems(pred0.m[n])).m[n]
  {
  }

  /** The records the two loops of `del_node(n)` delete are the records
      touching `n`. */
  lemma DeletedRecords(succ0: Dict<Node, seq<Node>>, pred0: Dict<Node, seq<Node>>, edges0: Dict<Edge, Attrs>, n: Node)
    requires Lockstep(succ0, pred0) && Recorded(succ0, edges0) && n in succ0.m && n in pred0.m
    ensures n in Cleared(succ0, n, Elems(pred0.m[n])).m
    ensures Into(n, Elems(pred0.m[n])) + OutOf(n, Elems(Cleared(succ0, n, Elems(pred0.m[n])).m[n]))
         == Touching(edges0, n)
  {
    var s1 := Cleared(succ0, n, Elems(pred0.m[n]));
    var gone := Into(n, Elems(pred0.m[n])) + OutOf(n, Elems(s1.m[n]));
    forall f | f in gone ensures f in Touching(edges0, n) {
      if f in Into(n, Elems(pred0.m[n])) {
        assert f.1 == n && f.0 in pred0.m[n];
        assert f.1 in succ0.m[f.0];
      } else {
        assert f.0 == n && f.1 in s1.m[n];
      }
    }
    forall f | f in Touching(edges0, n) ensures f in gone {
      assert f.1 in succ0.m[f.0];
      if f.1 == n {
        assert f.0 in pred0.m[n];
        assert f == (f.0, n);
      } else {
        assert f.0 == n && f.1 in s1.m[n];
        assert f == (n, f.1);
      }
    }
  }

  /** A stored successor pair is recorded; an unrecorded pair is not stored. */
  lemma RecordIsStored(succ: Dict<Node, seq<Node>>, edges: Dict<Edge, Attrs>, e: Edge)
    requires Recorded(succ, edges)
    ensures e in edges.m <==> e.0 in succ.m && e.1 in succ.m[e.0]
  {
  }

  /** One `add_edge` of `complete` on a directed graph, with the default
      weight and label. */
  lemma LinkStep(succ: Dict<Node, seq<Node>>, edges: Dict<Edge, Attrs>, e: Edge)
    requires e.0 in succ.m && e.1 in succ.m && e.0 != e.1 && e !in edges.m
    ensures Grown(edges, edges.Put(e, DefaultRecord(1, "") + map[]), succ.m.Keys)
    ensures SameLoops(succ, Appended(succ, e.0, e.1))
    ensures Appended(succ, e.0, e.1).keys == succ.keys && Appended(succ, e.0, e.1).m.Keys == succ.m.Keys
  {
    assert DefaultRecord(1, "") + map[] == DefaultRecord(1, "");
    AppendedLists(succ, e.0, e.1);
  }

  /** The records of `e0` left after the keys of `done` were deleted. */
  ghost predicate Kept(e0: Dict<Edge, Attrs>, e1: Dict<Edge, Attrs>, done: set<Edge>)
  {
    (forall f :: f in e1.m <==> f in e0.m && f !in done) &&
    (forall f :: f in e1.m ==> e1.m[f] == e0.m[f])
  }

  lemma KeptNone(e0: Dict<Edge, Attrs>, ks: seq<Edge>)
    ensures Kept(e0, e0, Taken(ks, 0))
  {
    assert Taken(ks, 0) == {};
  }

  /** One pass of the last loop of `inverse` on a directed graph. */
  lemma KeptStep(e0: Dict<Edge, Attrs>, e1: Dict<Edge, Attrs>, e2: Dict<Edge, Attrs>, done: set<Edge>, e: Edge)
    requires Kept(e0, e1, done)
    requires e in e1.m ==> e2.m == e1.m - {e}
    requires e !in e1.m ==> e2 == e1
    ensures Kept(e0, e2, done + {e})
  {
  }

  /** The keys the edge list names are the record keys. */
  lemma EdgeKeys(succ: Dict<Node, seq<Node>>, pred: Dict<Node, seq<Node>>,
                 nodes: Dict<Node, Attrs>, edges: Dict<Edge, Attrs>)
    requires Inv(succ, pred, nodes, edges)
    ensures Elems(EdgeList(succ, succ.keys)) == edges.m.Keys
  {
    EdgesAreRecords(succ, pred, nodes, edges);
  }

  /** Complementary records on the same vertices give complementary
      successor lists. */
  lemma ComplementLists(succ0: Dict<Node, seq<Node>>, edges0: Dict<Edge, Attrs>,
                        succ1: Dict<Node, seq<Node>>, edges1: Dict<Edge, Attrs>)
    requires Recorded(succ0, edges0) && Recorded(succ1, edges1) && succ1.m.Keys == succ0.m.Keys
    requires forall f :: f in edges1.m <==> f.0 in succ0.m && f.1 in succ0.m && f.0 != f.1 && f !in edges0.m
    ensures forall u, v :: u in succ0.m && v in succ0.m ==> (v in succ1.m[u] <==> u != v && v !in succ0.m[u])
  {
    forall u, v | u in succ0.m && v in succ0.m ensures v in succ1.m[u] <==> u != v && v !in succ0.m[u] {
      RecordIsStored(succ1, edges1, (u, v));
      RecordIsStored(succ0, edges0, (u, v));
    }
  }

  /** The error the edge loop of `reverse` raises on a record: KeyError
      when `get_edge_weight` or `get_edge_label` finds no such field, then
      InvalidWeightError from `set_edge_weight`, then InvalidLabelError
      from `set_edge_label`. */
  function CopyError(rec: Attrs): (r: Option<Error>)
    ensures r.None? <==> WellTyped(rec)
  {
    if "weight" !in rec || "label" !in rec then Some(KeyError)
    else if !IsWeight(rec["weight"]) then Some(InvalidWeightError)
    else if !rec["label"].StrVal? then Some(InvalidLabelError)
    else None
  }

  /** The error of the first key of `ks` whose record cannot be copied. */
  function FirstCopyError(ks: seq<Edge>, recs: map<Edge, Attrs>): (r: Option<Error>)
    requires forall f :: f in ks ==> f in recs
    ensures r.None? <==> forall f :: f in ks ==> WellTyped(recs[f])
  {
    if ks == [] then None
    else if CopyError(recs[ks[0]]).Some? then CopyError(recs[ks[0]])
    else FirstCopyError(ks[1..], recs)
  }

  /** When every record before position `i` can be copied, the error is
      that of the record at `i`. */
  lemma {:induction false} FirstCopyErrorAt(ks: seq<Edge>, recs: map<Edge, Attrs>, i: nat)
    requires forall f :: f in ks ==> f in recs
    requires i < |ks| && forall j :: 0 <= j < i ==> WellTyped(recs[ks[j]])
    requires CopyError(recs[ks[i]]).Some?
    ensures FirstCopyError(ks, recs) == CopyError(recs[ks[i]])
  {
    if i > 0 {
      assert WellTyped(recs[ks[0]]);
      forall j | 0 <= j < i - 1 ensures WellTyped(recs[ks[1..][j]]) {
        assert ks[1..][j] == ks[j + 1];
      }
      FirstCopyErrorAt(ks[1..], recs, i - 1);
    }
  }

  /** A record holding a weight and a label is unchanged by overlaying it
      on a default record. */
  lemma OverlayRecord(weight: int, text: string, rec: Attrs)
    requires "weight" in rec && "label" in rec
    ensures DefaultRecord(weight, text) + rec == rec
  {
  }

  /** The records of the copy `reverse` builds once the keys of `done`
      were copied: each one stored reversed, with its original record. */
  ghost predicate Flipped(edges: Dict<Edge, Attrs>, done: set<Edge>, recs: map<Edge, Attrs>)
  {
    (forall f :: f in edges.m <==> Reversed(f) in done) &&
    (forall f :: f in edges.m ==> Reversed(f) in recs && edges.m[f] == recs[Reversed(f)])
  }

  lemma FlipNone(recs: map<Edge, Attrs>)
    ensures Flipped(EmptyDict(), {}, recs)
  {
  }

  /** A key not copied yet has no reversed successor pair in the copy. */
  lemma FlipFresh(s1: Dict<Node, seq<Node>>, e1: Dict<Edge, Attrs>, done: set<Edge>, recs: map<Edge, Attrs>, e: Edge)
    requires Recorded(s1, e1) && Flipped(e1, done, recs) && e !in done && e.1 in s1.m
    ensures e.0 !in s1.m[e.1]
  {
    RecordIsStored(s1, e1, (e.1, e.0));
    assert Reversed((e.1, e.0)) == e;
  }

  /** One pass of the edge loop of `reverse` on a directed graph. */
  lemma FlipStep(e1: Dict<Edge, Attrs>, done: set<Edge>, recs: map<Edge, Attrs>, e: Edge)
    requires Flipped(e1, done, recs) && e in recs
    ensures Flipped(e1.Put(Reversed(e), recs[e]), done + {e}, recs)
  {
    assert Reversed(Reversed(e)) == e;
  }

  /** `e1` holds every key of `e0` turned around, with the same record. */
  ghost predicate RecordsReversed(e1: map<Edge, Attrs>, e0: map<Edge, Attrs>)
  {
    (forall f :: f in e1 <==> Reversed(f) in e0) &&
    (forall f :: f in e1 ==> e1[f] == e0[Reversed(f)])
  }

  /** On the same vertices, `v` succeeds `u` in `s1` exactly when `u`
      succeeds `v` in `s0`. */
  ghost predicate ListsReversed(s1: map<Node, seq<Node>>, s0: map<Node, seq<Node>>)
  {
    s1.Keys == s0.Keys &&
    forall u, v :: u in s0 && v in s0 ==> (u in s1[v] <==> v in s0[u])
  }

  /** Some record lacks a weight or a label or holds one of the wrong type. */
  ghost predicate SomeUntyped(recs: map<Edge, Attrs>)
  {
    exists f :: f in recs && !WellTyped(recs[f])
  }

  /** Reversed records on the same vertices give reversed successor lists. */
  lemma FlippedLists(succ0: Dict<Node, seq<Node>>, edges0: Dict<Edge, Attrs>,
                     succ1: Dict<Node, seq<Node>>, edges1: Dict<Edge, Attrs>)
    requires Recorded(succ0, edges0) && Recorded(succ1, edges1) && succ1.m.Keys == succ0.m.Keys
    requires forall f :: f in edges1.m <==> Reversed(f) in edges0.m
    ensures forall u, v :: u in succ0.m && v in succ0.m ==> (u in succ1.m[v] <==> v in succ0.m[u])
  {
    forall u, v | u in succ0.m && v in succ0.m ensures u in succ1.m[v] <==> v in succ0.m[u] {
      RecordIsStored(succ1, edges1, (v, u));
      RecordIsStored(succ0, edges0, (u, v));
      assert Reversed((v, u)) == (u, v);
    }
  }

  /** What the copy holds once the edge loop of `reverse` got through:
      the records reversed, and so the successor lists. */
  lemma ReverseState(succ0: Dict<Node, seq<Node>>, edges0: Dict<Edge, Attrs>, ks: seq<Edge>,
                     succ1: Dict<Node, seq<Node>>, edges1: Dict<Edge, Attrs>)
    requires Recorded(succ0, edges0) && Recorded(succ1, edges1) && succ1.m.Keys == succ0.m.Keys
    requires Elems(ks) == edges0.m.Keys && Flipped(edges1, Elems(ks), edges0.m)
    ensures RecordsReversed(edges1.m, edges0.m)
    ensures ListsReversed(succ1.m, succ0.m)
  {
    FlippedLists(succ0, edges0, succ1, edges1);
  }

  /** The edge loop of `reverse` fails exactly when some record cannot be
      copied. */
  lemma CopyFailsIffUntyped(ks: seq<Edge>, recs: map<Edge, Attrs>)
    requires Elems(ks) == recs.Keys
    ensures FirstCopyError(ks, recs).Some? <==> SomeUntyped(recs)
  {
    if FirstCopyError(ks, recs).Some? {
      var f :| f in ks && !WellTyped(recs[f]);
    }
  }

  /** Every key of the edge list has its record and names two vertices. */
  lemma EdgeListRecorded(succ: Dict<Node, seq<Node>>, pred: Dict<Node, seq<Node>>,
                         nodes: Dict<Node, Attrs>, edges: Dict<Edge, Attrs>)
    requires Inv(succ, pred, nodes, edges)
    ensures Distinct(EdgeList(succ, succ.keys))
    ensures forall f :: f in EdgeList(succ, succ.keys) ==> f in edges.m && f.0 in succ.keys && f.1 in succ.keys
  {
    EdgesAreRecords(succ, pred, nodes, edges);
    SuccClosed(succ, pred);
  }

  /** Records rewritten in place, or new ones added: the graph's shape is
      kept exactly when every record still names an edge. */
  lemma EdgeRecordsRewritten(succ: Dict<Node, seq<Node>>, pred: Dict<Node, seq<Node>>,
                             nodes: Dict<Node, Attrs>, edges: Dict<Edge, Attrs>, edges1: Dict<Edge, Attrs>)
    requires Inv(succ, pred, nodes, edges) && edges1.Valid() && edges.m.Keys <= edges1.m.Keys
    ensures Inv(succ, pred, nodes, edges1) <==> forall e :: e in edges1.m ==> e.0 in succ.m && e.1 in succ.m[e.0]
  {
    assert Tables(succ, pred, nodes, edges1);
    RecordedGrown(succ, edges, edges1);
  }

  lemma RecordedGrown(succ: Dict<Node, seq<Node>>, edges: Dict<Edge, Attrs>, edges1: Dict<Edge, Attrs>)
    requires Recorded(succ, edges) && edges.m.Keys <= edges1.m.Keys
    ensures Recorded(succ, edges1) <==> forall e :: e in edges1.m ==> e.0 in succ.m && e.1 in succ.m[e.0]
  {
  }

  /** One attribute written on edge `e` keeps the invariant exactly when
      `e` is an edge of the graph: a write to any other pair creates a
      record without an edge. */
  lemma EdgeWriteKeepsInv(succ: Dict<Node, seq<Node>>, pred: Dict<Node, seq<Node>>,
                          nodes: Dict<Node, Attrs>, edges: Dict<Edge, Attrs>, e: Edge, key: string, value: Value)
    requires Inv(succ, pred, nodes, edges)
    ensures Inv(succ, pred, nodes, UpsertEdge(edges, e, key, value, true)) <==> e in edges.m
  {
    var d := UpsertEdge(edges, e, key, value, true);
    assert d.m.Keys == edges.m.Keys + {e};
    EdgeRecordsRewritten(succ, pred, nodes, edges, d);
  }

  /** Several attributes merged into edge `e`: as one write, unless there
      is nothing to merge. */
  lemma EdgeMergeKeepsInv(succ: Dict<Node, seq<Node>>, pred: Dict<Node, seq<Node>>,
                          nodes: Dict<Node, Attrs>, edges: Dict<Edge, Attrs>, e: Edge, attrs: Attrs)
    requires Inv(succ, pred, nodes, edges)
    ensures Inv(succ, pred, nodes, MergeEdge(edges, e, attrs, true)) <==> e in edges.m || attrs == map[]
  {
    var d := MergeEdge(edges, e, attrs, true);
    MergeEdgeKeys(edges, e, attrs);
    EdgeRecordsRewritten(succ, pred, nodes, edges, d);
  }

  /** The directed merge adds the record of `e`, unless there is nothing
      to merge. */
  lemma MergeEdgeKeys(edges: Dict<Edge, Attrs>, e: Edge, attrs: Attrs)
    requires edges.Valid()
    ensures MergeEdge(edges, e, attrs, true).Valid()
    ensures MergeEdge(edges, e, attrs, true).m.Keys == edges.m.Keys + (if attrs == map[] then {} else {e})
  {
  }

  /** One attribute written on vertex `n` keeps the invariant exactly when
      `n` is a vertex: otherwise a record without a vertex appears. */
  lemma NodeWriteKeepsInv(succ: Dict<Node, seq<Node>>, pred: Dict<Node, seq<Node>>,
                          nodes: Dict<Node, Attrs>, edges: Dict<Edge, Attrs>, n: Node, key: string, value: Value)
    requires Inv(succ, pred, nodes, edges)
    ensures Inv(succ, pred, Upsert(nodes, n, key, value), edges) <==> n in succ.m
  {
    NodeTableRewritten(succ, pred, nodes, edges, Upsert(nodes, n, key, value));
  }

  /** Several attributes merged into vertex `n`. */
  lemma NodeMergeKeepsInv(succ: Dict<Node, seq<Node>>, pred: Dict<Node, seq<Node>>,
                          nodes: Dict<Node, Attrs>, edges: Dict<Edge, Attrs>, n: Node, attrs: Attrs)
    requires Inv(succ, pred, nodes, edges)
    ensures Inv(succ, pred, Merge(nodes, n, attrs), edges) <==> n in succ.m || attrs == map[]
  {
    NodeTableRewritten(succ, pred, nodes, edges, Merge(nodes, n, attrs));
  }

  /** Vertex records rewritten in place, or new ones added: the graph's
      shape is kept exactly when no record without a vertex appears. */
  lemma NodeTableRewritten(succ: Dict<Node, seq<Node>>, pred: Dict<Node, seq<Node>>,
                           nodes: Dict<Node, Attrs>, edges: Dict<Edge, Attrs>, nodes1: Dict<Node, Attrs>)
    requires Inv(succ, pred, nodes, edges) && nodes1.Valid()
    ensures Inv(succ, pred, nodes1, edges) <==> nodes1.m.Keys == nodes.m.Keys
  {
    if nodes1.m.Keys == nodes.m.Keys {
      assert Tables(succ, pred, nodes1, edges);
    }
  }

  class DiGraph {
    /** `_neighbors`: each vertex with its successor list, in insertion order. */
    var succ: Dict<Node, seq<Node>>
    /** `_reverse_neighbors`: each vertex with its predecessor list. */
    var pred: Dict<Node, seq<Node>>
    /** The attribute tables (DataMixin). */
    const data: AttrStore

    ghost predicate Valid()
      reads this, data
    {
      data.Valid() && data.directed && Inv(succ, pred, data.nodesAttrs, data.edgesAttrs)
    }

    /** The graph as the algorithms read it. */
    function View(): View
      reads this, data
    {
      CommonMixin.View(true, succ.keys, succ.m, Edges(), data.nodesAttrs.m, data.edgesAttrs.m)
    }

    lemma ViewIsWellFormed()
      requires Valid()
      ensures View().WF() && View().Tidy()
    {
      ViewOfInv(succ, pred, data.nodesAttrs, data.edgesAttrs);
    }

    constructor ()
      ensures Valid() && fresh(data)
      ensures succ == EmptyDict() && pred == EmptyDict()
      ensures data.nodesAttrs == EmptyDict() && data.edgesAttrs == EmptyDict()
    {
      succ := EmptyDict();
      pred := EmptyDict();
      data := new AttrStore(true);
    }

    function Nodes(): seq<Node>
      reads this
    {
      succ.keys
    }

    predicate HasNode(n: Node)
      reads this
    {
      n in succ.m
    }

    /** `neighbors(node)`: KeyError for a missing vertex. */
    function Neighbors(n: Node): (r: Result<seq<Node>>)
      reads this
      ensures r.Ok? <==> n in succ.m
      ensures r.Ok? ==> r.value == succ.m[n]
      ensures r.Err? ==> r.error == KeyError
    {
      if n in succ.m then Ok(succ.m[n]) else Err(KeyError)
    }

    /** `reverse_neighbors(node)`: under the invariant, the vertices with
        an edge into `n`. */
    function ReverseNeighbors(n: Node): (r: Result<seq<Node>>)
      requires Valid()
      reads this, data
      ensures r.Ok? <==> n in succ.m
      ensures r.Err? ==> r.error == KeyError
      ensures r.Ok? ==> forall x :: x in r.value <==> x in succ.m && n in succ.m[x]
    {
      if n in pred.m then
        PredIsIncoming(succ, pred, n);
        Ok(pred.m[n])
      else Err(KeyError)
    }

    /** `edges()`: the successor pairs, vertex by vertex. */
    function Edges(): seq<Edge>
      reads this
    {
      EdgeList(succ, succ.keys)
    }

    /** `has_edge(e)`: looks the edge records up. */
    predicate HasEdge(e: Edge)
      reads data
    {
      e in data.edgesAttrs.m
    }

    /** `add_node_attribute` as the graph inherits it; `set_node_weight`
        and `set_node_label` are this write under "weight" and "label". The
        graph stays valid exactly when `node` is one of its vertices. */
    method AddNodeAttribute(node: Node, key: string, value: Value)
      requires Valid()
      modifies data
      ensures data.nodesAttrs == Upsert(old(data.nodesAttrs), node, key, value)
      ensures data.edgesAttrs == old(data.edgesAttrs)
      ensures Valid() <==> node in succ.m
    {
      data.AddNodeAttribute(node, key, value);
      NodeWriteKeepsInv(succ, pred, old(data.nodesAttrs), data.edgesAttrs, node, key, value);
    }

    /** `add_node_attributes` as the graph inherits it. */
    method AddNodeAttributes(node: Node, attrs: Attrs)
      requires Valid()
      modifies data
      ensures data.nodesAttrs == Merge(old(data.nodesAttrs), node, attrs)
      ensures data.edgesAttrs == old(data.edgesAttrs)
      ensures Valid() <==> node in succ.m || attrs == map[]
    {
      data.AddNodeAttributes(node, attrs);
      NodeMergeKeepsInv(succ, pred, old(data.nodesAttrs), data.edgesAttrs, node, attrs);
    }

    /** `add_edge_attribute` as the graph inherits it; `set_edge_weight`
        and `set_edge_label` are this write under "weight" and "label".
        Re-weighting an edge keeps the graph valid; a write to any other
        pair leaves a record without an edge. */
    method AddEdgeAttribute(e: Edge, key: string, value: Value)
      requires Valid()
      modifies data
      ensures data.edgesAttrs == UpsertEdge(old(data.edgesAttrs), e, key, value, true)
      ensures data.nodesAttrs == old(data.nodesAttrs)
      ensures Valid() <==> e in old(data.edgesAttrs.m)
    {
      data.AddEdgeAttribute(e, key, value);
      EdgeWriteKeepsInv(succ, pred, data.nodesAttrs, old(data.edgesAttrs), e, key, value);
    }

    /** `add_edge_attributes` as the graph inherits it. */
    method AddEdgeAttributes(e: Edge, attrs: Attrs)
      requires Valid()
      modifies data
      ensures data.edgesAttrs == MergeEdge(old(data.edgesAttrs), e, attrs, true)
      ensures data.nodesAttrs == old(data.nodesAttrs)
      ensures Valid() <==> e in old(data.edgesAttrs.m) || attrs == map[]
    {
      data.AddEdgeAttributes(e, attrs);
      EdgeMergeKeepsInv(succ, pred, data.nodesAttrs, old(data.edgesAttrs), e, attrs);
    }

    /** `add_node`: a new vertex gets two empty lists and the record
        `{weight, label}` overlaid with `attrs`; a duplicate raises
        AdditionError and changes nothing. */
    method AddNode(node: Node, weight: int, text: string, attrs: Attrs) returns (out: Outcome)
      requires Valid()
      modifies this, data
      ensures Valid()
      ensures out.Pass? <==> node !in old(succ.m)
      ensures out.Fail? ==> out.error == AdditionError && succ == old(succ) && pred == old(pred)
                            && data.nodesAttrs == old(data.nodesAttrs)
      ensures out.Pass? ==> succ == old(succ).Put(node, []) && pred == old(pred).Put(node, [])
                            && data.nodesAttrs == old(data.nodesAttrs).Put(node, DefaultRecord(weight, text) + attrs)
      ensures data.edgesAttrs == old(data.edgesAttrs)
    {
      if node in succ.m {
        return Fail(AdditionError);
      }
      succ := succ.Put(node, []);
      pred := pred.Put(node, []);
      data.SetNodeWeight(node, weight);
      data.SetNodeLabel(node, text);
      data.AddNodeAttributes(node, attrs);
      FreshRecordWritten(old(data.nodesAttrs), node, weight, text, attrs);
      AddNodeKeepsInv(old(succ), old(pred), old(data.nodesAttrs), old(data.edgesAttrs), node,
                      DefaultRecord(weight, text) + attrs);
      out := Pass;
    }

    /** `add_edge`: AdditionError, before any change, for a missing
        endpoint or an edge already stored; otherwise `v` is appended to
        the successors of `u`, `u` to the predecessors of `v`, and the
        record is written. */
    method AddEdge(e: Edge, weight: int, text: string, attrs: Attrs) returns (out: Outcome)
      requires Valid()
      modifies this, data
      ensures Valid()
      ensures out.Pass? <==> e.0 in old(succ.m) && e.1 in old(succ.m) && e.1 !in old(succ.m[e.0])
      ensures out.Fail? ==> out.error == AdditionError && succ == old(succ) && pred == old(pred)
                            && data.edgesAttrs == old(data.edgesAttrs)
      ensures out.Pass? ==> succ == Appended(old(succ), e.0, e.1) && e.1 in old(pred.m)
                            && pred == Appended(old(pred), e.1, e.0)
      ensures out.Pass? ==> e !in old(data.edgesAttrs.m)
                            && data.edgesAttrs == old(data.edgesAttrs).Put(e, DefaultRecord(weight, text) + attrs)
      ensures data.nodesAttrs == old(data.nodesAttrs)
    {
      var (u, v) := e;
      if u !in succ.m || u !in pred.m || v !in succ.m || v !in pred.m {
        return Fail(AdditionError);
      }
      if v in succ.m[u] && u in pred.m[v] {
        return Fail(AdditionError);
      }
      ghost var succ0, pred0, nodes0, edges0 := succ, pred, data.nodesAttrs, data.edgesAttrs;
      succ := succ.Put(u, succ.m[u] + [v]);
      pred := pred.Put(v, pred.m[v] + [u]);
      data.SetEdgeWeight(e, weight);
      data.SetEdgeLabel(e, text);
      data.AddEdgeAttributes(e, attrs);
      AddEdgeKeepsInv(succ0, pred0, nodes0, edges0, e, DefaultRecord(weight, text) + attrs);
      EdgeRecordWritten(edges0, e, weight, text, attrs);
      out := Pass;
    }

    /** `del_edge`: `_neighbors[u].remove(v)` raises KeyError for a missing
        `u` and ValueError when `v` is not a successor, before any change;
        otherwise both list entries and the record go. */
    method DelEdge(e: Edge) returns (out: Outcome)
      requires Valid()
      modifies this, data
      ensures Valid()
      ensures out.Pass? <==> e.0 in old(succ.m) && e.1 in old(succ.m[e.0])
      ensures e.0 !in old(succ.m) ==> out == Fail(KeyError)
      ensures e.0 in old(succ.m) && e.1 !in old(succ.m[e.0]) ==> out == Fail(ValueError)
      ensures out.Fail? ==> succ == old(succ) && pred == old(pred) && data.edgesAttrs == old(data.edgesAttrs)
      ensures out.Pass? ==> succ == Dropped(old(succ), e.0, e.1) && e.1 in old(pred.m)
                            && pred == Dropped(old(pred), e.1, e.0)
      ensures out.Pass? ==> e in old(data.edgesAttrs.m) && data.edgesAttrs == old(data.edgesAttrs).Remove(e)
      ensures data.nodesAttrs == old(data.nodesAttrs)
    {
      var (u, v) := e;
      if u !in succ.m {
        return Fail(KeyError);
      }
      if v !in succ.m[u] {
        return Fail(ValueError);
      }
      ghost var succ0, pred0, nodes0, edges0 := succ, pred, data.nodesAttrs, data.edgesAttrs;
      DroppedByRemoval(succ, pred, e);
      succ := succ.Put(u, RemoveFirst(succ.m[u], v));
      pred := pred.Put(v, RemoveFirst(pred.m[v], u));
      out := data.DelEdgeData(e);
      DelEdgeKeepsInv(succ0, pred0, nodes0, edges0, e);
    }
    /** One pass of the first loop of `del_node`: `del_edge((list[i], node))`. */
    method DropInAt(node: Node, list: seq<Node>, i: nat, ghost succ0: Dict<Node, seq<Node>>,
                    ghost pred0: Dict<Node, seq<Node>>, ghost edges0: Dict<Edge, Attrs>)
      requires Valid() && i < |list| && Distinct(list)
      requires node in pred0.m && list == pred0.m[node]
      requires forall x :: x in list ==> x in succ0.m && node in succ0.m[x] && (x, node) in edges0.m
      requires edges0.Valid()
      requires succ == Cleared(succ0, node, Taken(list, i))
      requires pred == pred0.Put(node, Filter(list, Taken(list, i)))
      requires data.edgesAttrs == edges0.Without(Into(node, Taken(list, i)))
      modifies this, data
      ensures Valid() && data.nodesAttrs == old(data.nodesAttrs)
      ensures succ == Cleared(succ0, node, Taken(list, i + 1))
      ensures pred == pred0.Put(node, Filter(list, Taken(list, i + 1)))
      ensures data.edgesAttrs == edges0.Without(Into(node, Taken(list, i + 1)))
    {
      var each := list[i];
      TakenStep(list, i);
      TakenFresh(list, i);
      ClearedStep(succ0, node, Taken(list, i), each);
      OwnStep(pred0, node, Taken(list, i), each);
      IntoStep(node, Taken(list, i), each);
      WithoutStep(edges0, Into(node, Taken(list, i)), (each, node));
      var out := DelEdge((each, node));
    }

    /** The first loop of `del_node`: `del_edge((each, node))` for every
        predecessor `each`, over a copy of the list. */
    method DropIncoming(node: Node)
      requires Valid() && node in succ.m
      modifies this, data
      ensures Valid() && data.nodesAttrs == old(data.nodesAttrs)
      ensures node in old(pred.m)
      ensures succ == Cleared(old(succ), node, Elems(old(pred.m[node])))
      ensures pred == old(pred).Put(node, [])
      ensures data.edgesAttrs == old(data.edgesAttrs).Without(Into(node, Elems(old(pred.m[node]))))
    {
      ghost var succ0, pred0, edges0 := succ, pred, data.edgesAttrs;
      var list := pred.m[node];
      IncomingFacts(succ0, pred0, edges0, node);
      ClearedNone(succ0, node);
      OwnNone(pred0, node);
      assert Into(node, {}) == {};
      WithoutNothing(edges0);
      assert Taken(list, 0) == {};
      var i := 0;
      while i < |list|
        invariant 0 <= i <= |list|
        invariant Valid() && data.nodesAttrs == old(data.nodesAttrs)
        invariant succ == Cleared(succ0, node, Taken(list, i))
        invariant pred == pred0.Put(node, Filter(list, Taken(list, i)))
        invariant data.edgesAttrs == edges0.Without(Into(node, Taken(list, i)))
      {
        DropInAt(node, list, i, succ0, pred0, edges0);
        i := i + 1;
      }
      TakenAll(list);
      FilterAll(list, Elems(list));
    }

    /** One pass of the second loop of `del_node`: `del_edge((node, list[i]))`. */
    method DropOutAt(node: Node, list: seq<Node>, i: nat, ghost succ0: Dict<Node, seq<Node>>,
                     ghost pred0: Dict<Node, seq<Node>>, ghost edges0: Dict<Edge, Attrs>)
      requires Valid() && i < |list| && Distinct(list)
      requires node in succ0.m && list == succ0.m[node]
      requires forall x :: x in list ==> x in pred0.m && node in pred0.m[x] && (node, x) in edges0.m
      requires edges0.Valid()
      requires succ == succ0.Put(node, Filter(list, Taken(list, i)))
      requires pred == Cleared(pred0, node, Taken(list, i))
      requires data.edgesAttrs == edges0.Without(OutOf(node, Taken(list, i)))
      modifies this, data
      ensures Valid() && data.nodesAttrs == old(data.nodesAttrs)
      ensures succ == succ0.Put(node, Filter(list, Taken(list, i + 1)))
      ensures pred == Cleared(pred0, node, Taken(list, i + 1))
      ensures data.edgesAttrs == edges0.Without(OutOf(node, Taken(list, i + 1)))
    {
      var each := list[i];
      TakenStep(list, i);
      TakenFresh(list, i);
      ClearedStep(pred0, node, Taken(list, i), each);
      OwnStep(succ0, node, Taken(list, i), each);
      OutOfStep(node, Taken(list, i), each);
      WithoutStep(edges0, OutOf(node, Taken(list, i)), (node, each));
      var out := DelEdge((node, each));
    }

    /** The second loop of `del_node`: `del_edge((node, each))` for every
        successor `each`, over a copy of the list. */
    method DropOutgoing(node: Node)
      requires Valid() && node in succ.m
      modifies this, data
      ensures Valid() && data.nodesAttrs == old(data.nodesAttrs)
      ensures node in old(pred.m)
      ensures succ == old(succ).Put(node, [])
      ensures pred == Cleared(old(pred), node, Elems(old(succ.m[node])))
      ensures data.edgesAttrs == old(data.edgesAttrs).Without(OutOf(node, Elems(old(succ.m[node]))))
    {
      ghost var succ0, pred0, edges0 := succ, pred, data.edgesAttrs;
      var list := succ.m[node];
      OutgoingFacts(succ0, pred0, edges0, node);
      ClearedNone(pred0, node);
      OwnNone(succ0, node);
      assert OutOf(node, {}) == {};
      WithoutNothing(edges0);
      assert Taken(list, 0) == {};
      var i := 0;
      while i < |list|
        invariant 0 <= i <= |list|
        invariant Valid() && data.nodesAttrs == old(data.nodesAttrs)
        invariant succ == succ0.Put(node, Filter(list, Taken(list, i)))
        invariant pred == Cleared(pred0, node, Taken(list, i))
        invariant data.edgesAttrs == edges0.Without(OutOf(node, Taken(list, i)))
      {
        DropOutAt(node, list, i, succ0, pred0, edges0);
        i := i + 1;
      }
      TakenAll(list);
      FilterAll(list, Elems(list));
    }

    /** The last statements of `del_node`: both entries of the vertex and
        its record are deleted. */
    method DropVertex(node: Node)
      requires Valid() && node in succ.m && succ.m[node] == [] && pred.m[node] == []
      modifies this, data
      ensures Valid()
      ensures node in old(pred.m) && node in old(data.nodesAttrs.m)
      ensures succ == old(succ).Remove(node) && pred == old(pred).Remove(node)
      ensures data.nodesAttrs == old(data.nodesAttrs).Remove(node) && data.edgesAttrs == old(data.edgesAttrs)
    {
      IsolatedRemoval(succ, pred, data.nodesAttrs, data.edgesAttrs, node);
      succ := succ.Remove(node);
      pred := pred.Remove(node);
      var out := data.DelNodeData(node);
    }

    /** `del_node`: KeyError for a missing vertex; otherwise every edge
        into the vertex, then every edge out of it, is deleted through
        `del_edge`, then the vertex itself: no list names it any more and
        every record touching it is gone. */
    method DelNode(node: Node) returns (out: Outcome)
      requires Valid()
      modifies this, data
      ensures Valid()
      ensures out.Pass? <==> node in old(succ.m)
      ensures out.Fail? ==> out.error == KeyError && succ == old(succ) && pred == old(pred)
                            && data.nodesAttrs == old(data.nodesAttrs) && data.edgesAttrs == old(data.edgesAttrs)
      ensures out.Pass? ==> succ == Detached(old(succ), node) && pred == Detached(old(pred), node)
      ensures out.Pass? ==> node in old(data.nodesAttrs.m) && data.nodesAttrs == old(data.nodesAttrs).Remove(node)
      ensures out.Pass? ==> data.edgesAttrs == old(data.edgesAttrs).Without(Touching(old(data.edgesAttrs), node))
    {
      if node !in pred.m {
        return Fail(KeyError);
      }
      ghost var succ0, pred0, edges0 := succ, pred, data.edgesAttrs;
      DropIncoming(node);
      DropOutgoing(node);
      DropVertex(node);
      PredIsIncoming(succ0, pred0, node);
      SuccIsOutgoing(succ0, pred0, node);
      SuccDetached(succ0, node, Elems(pred0.m[node]));
      OwnCovers(succ0, pred0, node);
      PredDetached(pred0, node, Elems(Cleared(succ0, node, Elems(pred0.m[node])).m[node]));
      DeletedRecords(succ0, pred0, edges0, node);
      WithoutWithout(edges0, Into(node, Elems(pred0.m[node])),
                     OutOf(node, Elems(Cleared(succ0, node, Elems(pred0.m[node])).m[node])));
      out := Pass;
    }
    /** The body of the inner loop of `complete`: `add_edge` with default
        attributes when the two vertices differ and have no record. */
    method LinkIfMissing(e: Edge)
      requires Valid() && e.0 in succ.m && e.1 in succ.m
      modifies this, data
      ensures Valid()
      ensures succ.keys == old(succ.keys) && succ.m.Keys == old(succ.m.Keys) && data.nodesAttrs == old(data.nodesAttrs)
      ensures Grown(old(data.edgesAttrs), data.edgesAttrs, succ.m.Keys)
      ensures SameLoops(old(succ), succ)
      ensures e.0 != e.1 ==> e in data.edgesAttrs.m
    {
      if e.0 != e.1 && !HasEdge(e) {
        RecordIsStored(succ, data.edgesAttrs, e);
        LinkStep(succ, data.edgesAttrs, e);
        var r := AddEdge(e, 1, "", map[]);
      }
    }

    /** The inner loop of `complete` for one vertex `each`. */
    method CompleteRow(each: Node)
      requires Valid() && each in succ.m
      modifies this, data
      ensures Valid()
      ensures succ.keys == old(succ.keys) && succ.m.Keys == old(succ.m.Keys) && data.nodesAttrs == old(data.nodesAttrs)
      ensures Grown(old(data.edgesAttrs), data.edgesAttrs, succ.m.Keys)
      ensures SameLoops(old(succ), succ)
      ensures forall v :: v in succ.m && v != each ==> (each, v) in data.edgesAttrs.m
    {
      ghost var succ0, edges0 := succ, data.edgesAttrs;
      var ns := succ.keys;
      var j := 0;
      while j < |ns|
        invariant 0 <= j <= |ns|
        invariant Valid()
        invariant succ.keys == ns && succ.m.Keys == succ0.m.Keys && data.nodesAttrs == old(data.nodesAttrs)
        invariant Grown(edges0, data.edgesAttrs, succ0.m.Keys)
        invariant SameLoops(succ0, succ)
        invariant forall v :: v in Seen(ns, j, each) ==> (each, v) in data.edgesAttrs.m
      {
        ghost var s1, e1 := succ, data.edgesAttrs;
        SeenStep(ns, j, each);
        LinkIfMissing((each, ns[j]));
        GrownTrans(edges0, e1, data.edgesAttrs, succ0.m.Keys);
        SameLoopsTrans(succ0, s1, succ);
        CoverStep(e1, data.edgesAttrs, succ0.m.Keys, ns, j, each);
        j := j + 1;
      }
      SeenAll(ns, each);
    }

    /** `complete` on a directed graph: afterwards every ordered pair of
        distinct vertices is an edge; the records already present are kept
        and the new ones carry weight 1 and the empty label; no self-loop
        is added or removed. */
    method Complete()
      requires Valid()
      modifies this, data
      ensures Valid()
      ensures succ.keys == old(succ.keys) && data.nodesAttrs == old(data.nodesAttrs)
      ensures Grown(old(data.edgesAttrs), data.edgesAttrs, succ.m.Keys)
      ensures SameLoops(old(succ), succ)
      ensures forall u, v :: u in succ.m && v in succ.m && u != v ==> (u, v) in data.edgesAttrs.m && v in succ.m[u]
    {
      ghost var succ0, edges0 := succ, data.edgesAttrs;
      var ns := succ.keys;
      assert Taken(ns, 0) == {};
      var i := 0;
      while i < |ns|
        invariant 0 <= i <= |ns|
        invariant Valid()
        invariant succ.keys == ns && succ.m.Keys == succ0.m.Keys && data.nodesAttrs == old(data.nodesAttrs)
        invariant Grown(edges0, data.edgesAttrs, succ0.m.Keys)
        invariant SameLoops(succ0, succ)
        invariant forall u, v :: u in Taken(ns, i) && v in succ0.m && v != u ==> (u, v) in data.edgesAttrs.m
      {
        ghost var s1, e1 := succ, data.edgesAttrs;
        CompleteRow(ns[i]);
        GrownTrans(edges0, e1, data.edgesAttrs, succ0.m.Keys);
        SameLoopsTrans(succ0, s1, succ);
        RowStep(e1, data.edgesAttrs, succ0.m.Keys, ns, i);
        i := i + 1;
      }
      TakenAll(ns);
      forall u, v | u in succ.m && v in succ.m && u != v ensures (u, v) in data.edgesAttrs.m && v in succ.m[u] {
        RecordIsStored(succ, data.edgesAttrs, (u, v));
      }
    }

    /** The first loop of `inverse` and of `reverse`: `add_node(n,
        attrs=recs[n])` for every `n` of `ns`, into a graph still empty. */
    method AddVertices(ns: seq<Node>, recs: map<Node, Attrs>)
      requires Valid() && succ == EmptyDict() && pred == EmptyDict()
      requires data.nodesAttrs == EmptyDict() && data.edgesAttrs == EmptyDict()
      requires Distinct(ns) && forall n :: n in ns ==> n in recs
      modifies this, data
      ensures Valid() && succ.keys == ns && data.edgesAttrs == EmptyDict()
      ensures Bare(succ, data.nodesAttrs, recs)
    {
      var k := 0;
      while k < |ns|
        invariant 0 <= k <= |ns|
        invariant Valid() && data.edgesAttrs == EmptyDict()
        invariant succ.keys == ns[..k]
        invariant Bare(succ, data.nodesAttrs, recs)
      {
        AddVertexAt(ns, recs, k);
        k := k + 1;
      }
      assert ns[..|ns|] == ns;
    }

    /** One pass of the loop of `AddVertices`. */
    method AddVertexAt(ns: seq<Node>, recs: map<Node, Attrs>, k: nat)
      requires Valid() && data.edgesAttrs == EmptyDict()
      requires k < |ns| && Distinct(ns) && forall n :: n in ns ==> n in recs
      requires succ.keys == ns[..k] && Bare(succ, data.nodesAttrs, recs)
      modifies this, data
      ensures Valid() && data.edgesAttrs == EmptyDict()
      ensures succ.keys == ns[..k + 1] && Bare(succ, data.nodesAttrs, recs)
    {
      ghost var s0, n0 := succ, data.nodesAttrs;
      PrefixStep(ns, k);
      var out := AddNode(ns[k], 1, "", recs[ns[k]]);
      BareStep(s0, n0, recs, ns[k]);
    }

    /** The last loop of `inverse`: `del_edge(each)` for every `each` of
        `ks` still recorded. */
    method DropEdges(ks: seq<Edge>)
      requires Valid()
      modifies this, data
      ensures Valid()
      ensures succ.keys == old(succ.keys) && data.nodesAttrs == old(data.nodesAttrs)
      ensures Kept(old(data.edgesAttrs), data.edgesAttrs, Elems(ks))
    {
      ghost var edges0 := data.edgesAttrs;
      KeptNone(edges0, ks);
      var i := 0;
      while i < |ks|
        invariant 0 <= i <= |ks|
        invariant Valid() && succ.keys == old(succ.keys) && data.nodesAttrs == old(data.nodesAttrs)
        invariant Kept(edges0, data.edgesAttrs, Taken(ks, i))
      {
        DropEdgeAt(ks, i, edges0);
        i := i + 1;
      }
      TakenAll(ks);
    }

    /** One pass of the last loop of `inverse`: `del_edge(ks[i])` when the
        edge is still recorded. */
    method DropEdgeAt(ks: seq<Edge>, i: nat, ghost edges0: Dict<Edge, Attrs>)
      requires i < |ks| && Valid()
      requires Kept(edges0, data.edgesAttrs, Taken(ks, i))
      modifies this, data
      ensures Valid() && succ.keys == old(succ.keys) && data.nodesAttrs == old(data.nodesAttrs)
      ensures Kept(edges0, data.edgesAttrs, Taken(ks, i + 1))
    {
      var e := ks[i];
      ghost var e1 := data.edgesAttrs;
      TakenStep(ks, i);
      if HasEdge(e) {
        RecordIsStored(succ, data.edgesAttrs, e);
        var r := DelEdge(e);
        DroppedLists(old(succ), e.0, e.1);
      }
      KeptStep(edges0, e1, data.edgesAttrs, Taken(ks, i), e);
    }

    /** The body of `inverse` after the new graph is created, run on that
        graph: the vertices `ns` with records overlaid with `recs`, then
        `complete`, then `del_edge` for every edge of `ks` still recorded. */
    method FillInverse(ns: seq<Node>, recs: map<Node, Attrs>, ks: seq<Edge>)
      requires Valid() && succ == EmptyDict() && pred == EmptyDict()
      requires data.nodesAttrs == EmptyDict() && data.edgesAttrs == EmptyDict()
      requires Distinct(ns) && forall n :: n in ns ==> n in recs
      modifies this, data
      ensures Valid() && succ.keys == ns
      ensures forall n :: n in succ.m ==> n in data.nodesAttrs.m && data.nodesAttrs.m[n] == DefaultRecord(1, "") + recs[n]
      ensures forall f :: f in data.edgesAttrs.m <==> f.0 in succ.m && f.1 in succ.m && f.0 != f.1 && f !in Elems(ks)
      ensures forall f :: f in data.edgesAttrs.m ==> data.edgesAttrs.m[f] == DefaultRecord(1, "")
    {
      AddVertices(ns, recs);
      BareRecords(succ, data.nodesAttrs, recs);
      Complete();
      ghost var e2 := data.edgesAttrs;
      assert Grown(EmptyDict(), e2, succ.m.Keys);
      DropEdges(ks);
    }

    /** `inverse` on a directed graph: a new graph on the same vertices,
        each with the record `{weight: 1, label: ""}` overlaid with its
        original record, holding exactly the ordered pairs of distinct
        vertices that are not edges here, with default records. Self-loops
        are dropped. */
    method Inverse() returns (inv: DiGraph)
      requires Valid()
      ensures fresh(inv) && fresh(inv.data) && inv.Valid()
      ensures inv.succ.keys == succ.keys
      ensures forall n :: n in succ.m ==> inv.data.nodesAttrs.m[n] == DefaultRecord(1, "") + data.nodesAttrs.m[n]
      ensures forall f :: f in inv.data.edgesAttrs.m <==> f.0 in succ.m && f.1 in succ.m && f.0 != f.1 && f !in data.edgesAttrs.m
      ensures forall f :: f in inv.data.edgesAttrs.m ==> inv.data.edgesAttrs.m[f] == DefaultRecord(1, "")
      ensures forall u, v :: u in succ.m && v in succ.m ==> (v in inv.succ.m[u] <==> u != v && v !in succ.m[u])
    {
      inv := new DiGraph();
      inv.FillInverse(succ.keys, data.nodesAttrs.m, Edges());
      SameKeys(inv.succ, succ);
      EdgeKeys(succ, pred, data.nodesAttrs, data.edgesAttrs);
      ComplementLists(succ, data.edgesAttrs, inv.succ, inv.data.edgesAttrs);
    }
    /** The body of the edge loop of `reverse` on a directed graph, for
        the reversed key `e` and the original record `rec`: KeyError from
        `get_edge_weight` or `get_edge_label` for a missing field, the
        AdditionError checks of `add_edge`, then the appends and the type
        checks of `set_edge_weight` and `set_edge_label`. A type error
        leaves the edge listed, without records for a bad weight and with
        only its weight written for a bad label. */
    method AddEdgeCopy(e: Edge, rec: Attrs) returns (out: Outcome)
      requires Valid()
      modifies this, data
      ensures out.Pass? || out == Fail(KeyError) || out == Fail(AdditionError) ==> Valid()
      ensures succ.keys == old(succ.keys) && succ.m.Keys == old(succ.m.Keys)
      ensures out == if "weight" !in rec || "label" !in rec then Fail(KeyError)
                     else if !(e.0 in old(succ.m) && e.1 in old(succ.m) && e.1 !in old(succ.m[e.0])) then Fail(AdditionError)
                     else if CopyError(rec).Some? then Fail(CopyError(rec).value)
                     else Pass
      ensures out == Fail(KeyError) || out == Fail(AdditionError) ==>
                succ == old(succ) && pred == old(pred) && data.edgesAttrs == old(data.edgesAttrs)
      ensures out == Fail(InvalidWeightError) || out == Fail(InvalidLabelError) ==>
                e.0 in old(succ.m) && e.1 in old(pred.m) &&
                succ == Appended(old(succ), e.0, e.1) && pred == Appended(old(pred), e.1, e.0)
      ensures out == Fail(InvalidWeightError) ==> data.edgesAttrs == old(data.edgesAttrs)
      ensures out == Fail(InvalidLabelError) ==>
                data.edgesAttrs == UpsertEdge(old(data.edgesAttrs), e, "weight", rec["weight"], true)
      ensures out.Pass? ==> succ == Appended(old(succ), e.0, e.1) && e.1 in old(pred.m)
                            && pred == Appended(old(pred), e.1, e.0)
      ensures out.Pass? ==> e !in old(data.edgesAttrs.m) && data.edgesAttrs == old(data.edgesAttrs).Put(e, rec)
      ensures data.nodesAttrs == old(data.nodesAttrs)
    {
      if "weight" !in rec || "label" !in rec {
        return Fail(KeyError);
      }
      var (u, v) := e;
      if u !in succ.m || u !in pred.m || v !in succ.m || v !in pred.m {
        return Fail(AdditionError);
      }
      SuccInPred(succ, pred, u, v);
      if v in succ.m[u] && u in pred.m[v] {
        return Fail(AdditionError);
      }
      ghost var s0 := succ;
      out := AddRecordEdge(e, rec);
      AppendedLists(s0, u, v);
    }

    /** `add_edge(e, weight, label, rec)` once its endpoints are known to be
        vertices and `e` is not an edge: the lists are appended, then
        `set_edge_weight` and `set_edge_label` check the types of the
        weight and the label in that order. */
    method AddRecordEdge(e: Edge, rec: Attrs) returns (out: Outcome)
      requires Valid() && "weight" in rec && "label" in rec
      requires e.0 in succ.m && e.0 in pred.m && e.1 in succ.m && e.1 in pred.m && e.1 !in succ.m[e.0]
      modifies this, data
      ensures out == if CopyError(rec).Some? then Fail(CopyError(rec).value) else Pass
      ensures out.Pass? ==> Valid()
      ensures succ == Appended(old(succ), e.0, e.1) && pred == Appended(old(pred), e.1, e.0)
      ensures out == Fail(InvalidWeightError) ==> data.edgesAttrs == old(data.edgesAttrs)
      ensures out == Fail(InvalidLabelError) ==>
                data.edgesAttrs == UpsertEdge(old(data.edgesAttrs), e, "weight", rec["weight"], true)
      ensures out.Pass? ==> e !in old(data.edgesAttrs.m) && data.edgesAttrs == old(data.edgesAttrs).Put(e, rec)
      ensures data.nodesAttrs == old(data.nodesAttrs)
    {
      if CopyError(rec).Some? {
        out := AddUntypedEdge(e, rec);
        return;
      }
      OverlayRecord(WeightInt(rec["weight"]), rec["label"].s, rec);
      out := AddEdge(e, WeightInt(rec["weight"]), rec["label"].s, rec);
    }

    /** The same for a record whose weight or label has the wrong type: the
        lists are appended and the first failing setter raises. */
    method AddUntypedEdge(e: Edge, rec: Attrs) returns (out: Outcome)
      requires data.Valid() && data.directed && "weight" in rec && "label" in rec && CopyError(rec).Some?
      requires e.0 in succ.m && e.1 in pred.m
      modifies this, data
      ensures out == Fail(CopyError(rec).value)
      ensures succ == Appended(old(succ), e.0, e.1) && pred == Appended(old(pred), e.1, e.0)
      ensures out == Fail(InvalidWeightError) ==> data.edgesAttrs == old(data.edgesAttrs)
      ensures out == Fail(InvalidLabelError) ==>
                data.edgesAttrs == UpsertEdge(old(data.edgesAttrs), e, "weight", rec["weight"], true)
      ensures data.nodesAttrs == old(data.nodesAttrs)
    {
      var (u, v) := e;
      succ, pred := Appended(succ, u, v), Appended(pred, v, u);
      if !IsWeight(rec["weight"]) {
        return Fail(InvalidWeightError);
      }
      data.AddEdgeAttribute(e, "weight", rec["weight"]);
      return Fail(InvalidLabelError);
    }

    /** One pass of the loop of `CopyEdges`: `ks[i]` is copied reversed. */
    method CopyEdgeAt(ks: seq<Edge>, recs: map<Edge, Attrs>, i: nat) returns (out: Outcome)
      requires Valid() && i < |ks| && Distinct(ks)
      requires forall f :: f in ks ==> f in recs && f.0 in succ.m && f.1 in succ.m
      requires Flipped(data.edgesAttrs, Taken(ks, i), recs)
      requires forall j :: 0 <= j < i ==> WellTyped(recs[ks[j]])
      modifies this, data
      ensures out.Pass? ==> Valid()
      ensures succ.keys == old(succ.keys) && succ.m.Keys == old(succ.m.Keys) && data.nodesAttrs == old(data.nodesAttrs)
      ensures out.Pass? <==> WellTyped(recs[ks[i]])
      ensures out.Fail? ==> Some(out.error) == CopyError(recs[ks[i]])
      ensures out.Pass? ==> Flipped(data.edgesAttrs, Taken(ks, i + 1), recs)
      ensures out.Pass? ==> forall j :: 0 <= j < i + 1 ==> WellTyped(recs[ks[j]])
    {
      var e := ks[i];
      ghost var s1, e1 := succ, data.edgesAttrs;
      TakenStep(ks, i);
      TakenFresh(ks, i);
      FlipFresh(succ, data.edgesAttrs, Taken(ks, i), recs, e);
      out := AddEdgeCopy(Reversed(e), recs[e]);
      if out.Pass? {
        AppendedLists(s1, e.1, e.0);
        FlipStep(e1, Taken(ks, i), recs, e);
      }
    }

    /** The edge loop of `reverse` on a directed graph, run on the copy:
        every key of `ks` is stored reversed with its record from `recs`,
        in order, and the first failure ends the loop. */
    method CopyEdges(ks: seq<Edge>, recs: map<Edge, Attrs>) returns (out: Outcome)
      requires Valid() && data.edgesAttrs == EmptyDict() && Distinct(ks)
      requires forall f :: f in ks ==> f in recs && f.0 in succ.m && f.1 in succ.m
      modifies this, data
      ensures out.Pass? ==> Valid()
      ensures succ.keys == old(succ.keys) && succ.m.Keys == old(succ.m.Keys) && data.nodesAttrs == old(data.nodesAttrs)
      ensures out.Pass? <==> FirstCopyError(ks, recs).None?
      ensures out.Fail? ==> Some(out.error) == FirstCopyError(ks, recs)
      ensures out.Pass? ==> Flipped(data.edgesAttrs, Elems(ks), recs)
    {
      ghost var vs := succ.m.Keys;
      FlipNone(recs);
      assert Taken(ks, 0) == {};
      var i := 0;
      while i < |ks|
        invariant 0 <= i <= |ks|
        invariant Valid() && succ.keys == old(succ.keys) && succ.m.Keys == vs && data.nodesAttrs == old(data.nodesAttrs)
        invariant Flipped(data.edgesAttrs, Taken(ks, i), recs)
        invariant forall j :: 0 <= j < i ==> WellTyped(recs[ks[j]])
      {
        out := CopyEdgeAt(ks, recs, i);
        if out.Fail? {
          FirstCopyErrorAt(ks, recs, i);
          return;
        }
        assert out.Pass? && Valid();
        i := i + 1;
      }
      TakenAll(ks);
      out := Pass;
    }

    /** The body of `reverse` after the copy is created, run on the copy:
        the vertices `ns` with default records, then the edge loop over the
        keys `ks` with the original records `recs`. */
    method FillReverse(ns: seq<Node>, ks: seq<Edge>, recs: map<Edge, Attrs>) returns (out: Outcome)
      requires Valid() && succ == EmptyDict() && pred == EmptyDict()
      requires data.nodesAttrs == EmptyDict() && data.edgesAttrs == EmptyDict()
      requires Distinct(ns) && Distinct(ks) && forall f :: f in ks ==> f in recs && f.0 in ns && f.1 in ns
      modifies this, data
      ensures out.Pass? ==> Valid()
      ensures succ.keys == ns
      ensures forall n :: n in succ.m ==> n in data.nodesAttrs.m && data.nodesAttrs.m[n] == DefaultRecord(1, "")
      ensures out.Pass? <==> FirstCopyError(ks, recs).None?
      ensures out.Fail? ==> Some(out.error) == FirstCopyError(ks, recs)
      ensures out.Pass? ==> Flipped(data.edgesAttrs, Elems(ks), recs)
    {
      var blank: map<Node, Attrs> := map n | n in ns :: map[];
      AddVertices(ns, blank);
      BareRecords(succ, data.nodesAttrs, blank);
      assert DefaultRecord(1, "") + map[] == DefaultRecord(1, "");
      assert forall n :: n in succ.m <==> n in ns;
      out := CopyEdges(ks, recs);
    }

    /** `reverse` on a directed graph: a new graph on the same vertices
        with default records, holding every edge turned around with its
        original record. The first edge, in the order of `edges()`, whose
        record lacks a weight or a label or holds one of the wrong type
        makes it fail with the error its copy raises. */
    method Reverse() returns (r: Result<DiGraph>)
      requires Valid()
      ensures r.Err? <==> SomeUntyped(data.edgesAttrs.m)
      ensures r.Err? ==> Some(r.error) == FirstCopyError(Edges(), data.edgesAttrs.m)
      ensures r.Ok? ==> fresh(r.value) && fresh(r.value.data) && r.value.Valid() && r.value.succ.keys == succ.keys
      ensures r.Ok? ==> forall n :: n in succ.m ==> r.value.data.nodesAttrs.m[n] == DefaultRecord(1, "")
      ensures r.Ok? ==> RecordsReversed(r.value.data.edgesAttrs.m, data.edgesAttrs.m)
      ensures r.Ok? ==> ListsReversed(r.value.succ.m, succ.m)
    {
      EdgeListRecorded(succ, pred, data.nodesAttrs, data.edgesAttrs);
      EdgeKeys(succ, pred, data.nodesAttrs, data.edgesAttrs);
      CopyFailsIffUntyped(Edges(), data.edgesAttrs.m);
      var copy := new DiGraph();
      var out := copy.FillReverse(succ.keys, Edges(), data.edgesAttrs.m);
      if out.Fail? {
        return Err(out.error);
      }
      SameKeys(copy.succ, succ);
      ReverseState(succ, data.edgesAttrs, Edges(), copy.succ, copy.data.edgesAttrs);
      r := Ok(copy);
    }
  }
}
