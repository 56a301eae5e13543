/** Helpers shared by both graph classes: the shape of an adjacency table,
    prefixes of the lists the loops walk, the bookkeeping of `complete`,
    and the attribute checks `reverse` runs on a copied record. */
module Adjacency {
  import opened Base
  import opened DataMixin

  /** Neighbour lists name vertices only. */
  ghost predicate Closed(adj: Dict<Node, seq<Node>>)
  {
    forall u, v :: u in adj.m && v in adj.m[u] ==> v in adj.m
  }

  ghost predicate ListsDistinct(adj: Dict<Node, seq<Node>>)
  {
    forall u :: u in adj.m ==> Distinct(adj.m[u])
  }

  /** The vertices other than `n` among the first `i` entries of `list`. */
  function Seen(list: seq<Node>, i: nat, n: Node): set<Node>
    requires i <= |list|
  {
    set k | 0 <= k < i && list[k] != n :: list[k]
  }

  lemma SeenStep(list: seq<Node>, i: nat, n: Node)
    requires i < |list| && Distinct(list)
    ensures list[i] != n ==> Seen(list, i + 1, n) == Seen(list, i, n) + {list[i]} && list[i] !in Seen(list, i, n)
    ensures list[i] == n ==> Seen(list, i + 1, n) == Seen(list, i, n)
    ensures forall x :: x in Seen(list, i, n) ==> x in list && x != n
  {
  }

  lemma SeenAll(list: seq<Node>, n: Node)
    ensures Seen(list, |list|, n) == Elems(list) - {n}
  {
    forall x | x in Elems(list) - {n} ensures x in Seen(list, |list|, n) {
      var k :| 0 <= k < |list| && list[k] == x;
    }
  }

  /** The first `i` entries of `list`. */
  function Taken<T>(list: seq<T>, i: nat): set<T>
    requires i <= |list|
  {
    set k | 0 <= k < i :: list[k]
  }

  lemma TakenStep<T>(ks: seq<T>, i: nat)
    requires i < |ks|
    ensures Taken(ks, i + 1) == Taken(ks, i) + {ks[i]}
  {
  }

  lemma TakenFresh<T>(ks: seq<T>, i: nat)
    requires i < |ks| && Distinct(ks)
    ensures ks[i] !in Taken(ks, i)
  {
  }

  lemma TakenAll<T(!new)>(ns: seq<T>)
    ensures Taken(ns, |ns|) == Elems(ns)
  {
    forall x | x in ns ensures x in Taken(ns, |ns|) {
      var k :| 0 <= k < |ns| && ns[k] == x;
    }
  }

  /** Extending a prefix of a duplicate-free list by its next element. */
  lemma PrefixStep<T>(ns: seq<T>, k: nat)
    requires k < |ns| && Distinct(ns)
    ensures ns[k] !in ns[..k] && ns[..k + 1] == ns[..k] + [ns[k]]
  {
  }

  /** What `complete` does to the edge table: every record is kept, and a
      record it adds joins two distinct vertices of `vs` and carries the
      default weight 1 and empty label. */
  ghost predicate Grown(e0: Dict<Edge, Attrs>, e1: Dict<Edge, Attrs>, vs: set<Node>)
  {
    (forall f :: f in e0.m ==> f in e1.m && e1.m[f] == e0.m[f]) &&
    (forall f :: f in e1.m && f !in e0.m ==> f.0 != f.1 && f.0 in vs && f.1 in vs && e1.m[f] == DefaultRecord(1, ""))
  }

  lemma GrownTrans(e0: Dict<Edge, Attrs>, e1: Dict<Edge, Attrs>, e2: Dict<Edge, Attrs>, vs: set<Node>)
    requires Grown(e0, e1, vs) && Grown(e1, e2, vs)
    ensures Grown(e0, e2, vs)
  {
  }

  /** Every vertex keeps its self-loop adjacency, or its absence. */
  ghost predicate SameLoops(a0: Dict<Node, seq<Node>>, a1: Dict<Node, seq<Node>>)
  {
    forall u :: u in a0.m ==> u in a1.m && (u in a1.m[u] <==> u in a0.m[u])
  }

  lemma SameLoopsTrans(a0: Dict<Node, seq<Node>>, a1: Dict<Node, seq<Node>>, a2: Dict<Node, seq<Node>>)
    requires SameLoops(a0, a1) && SameLoops(a1, a2)
    ensures SameLoops(a0, a2)
  {
  }

  lemma CoverStep(e1: Dict<Edge, Attrs>, e2: Dict<Edge, Attrs>, vs: set<Node>, ns: seq<Node>, j: nat, each: Node)
    requires j < |ns| && Distinct(ns) && Grown(e1, e2, vs)
    requires forall v :: v in Seen(ns, j, each) ==> (each, v) in e1.m
    requires ns[j] != each ==> (each, ns[j]) in e2.m
    ensures forall v :: v in Seen(ns, j + 1, each) ==> (each, v) in e2.m
  {
    SeenStep(ns, j, each);
  }

  lemma RowStep(e1: Dict<Edge, Attrs>, e2: Dict<Edge, Attrs>, vs: set<Node>, ns: seq<Node>, i: nat)
    requires i < |ns| && Grown(e1, e2, vs)
    requires forall u, v :: u in Taken(ns, i) && v in vs && v != u ==> (u, v) in e1.m
    requires forall v :: v in vs && v != ns[i] ==> (ns[i], v) in e2.m
    ensures forall u, v :: u in Taken(ns, i + 1) && v in vs && v != u ==> (u, v) in e2.m
  {
    assert Taken(ns, i + 1) == Taken(ns, i) + {ns[i]};
  }

  /** Vertices without neighbours whose records are the defaults overlaid
      with `recs`: the graph `inverse` and `reverse` build before adding
      edges. */
  ghost predicate Bare(adj: Dict<Node, seq<Node>>, nodes: Dict<Node, Attrs>, recs: map<Node, Attrs>)
  {
    forall n :: n in adj.m ==> adj.m[n] == [] && n in nodes.m && n in recs && nodes.m[n] == DefaultRecord(1, "") + recs[n]
  }

  lemma BareStep(adj: Dict<Node, seq<Node>>, nodes: Dict<Node, Attrs>, recs: map<Node, Attrs>, n: Node)
    requires Bare(adj, nodes, recs) && n in recs
    ensures Bare(adj.Put(n, []), nodes.Put(n, DefaultRecord(1, "") + recs[n]), recs)
  {
  }

  lemma BareRecords(adj: Dict<Node, seq<Node>>, nodes: Dict<Node, Attrs>, recs: map<Node, Attrs>)
    requires Bare(adj, nodes, recs)
    ensures forall n :: n in adj.m ==> n in nodes.m && nodes.m[n] == DefaultRecord(1, "") + recs[n]
  {
  }

  /** Python's `isinstance(w, int)`, which booleans pass too. */
  predicate IsWeight(v: Value)
  {
    v.IntVal? || v.BoolVal?
  }

  /** The integer a weight stands for (`True == 1`). */
  function WeightInt(v: Value): int
    requires IsWeight(v)
  {
    if v.IntVal? then v.i else if v.b then 1 else 0
  }

  /** A record `reverse` can copy: a weight `add_edge` accepts and a
      string label. */
  predicate WellTyped(rec: Attrs)
  {
    "weight" in rec && IsWeight(rec["weight"]) && "label" in rec && rec["label"].StrVal?
  }

  /** A record holding a weight and a label is unchanged by overlaying it
      on a default record. */
  lemma OverlayDefault(weight: int, text: string, rec: Attrs)
    requires "weight" in rec && "label" in rec
    ensures map[] + (DefaultRecord(weight, text) + rec) == rec
  {
  }

  /** The entries of `recs` whose keys are in `keep`. */
  function Restrict(recs: map<Edge, Attrs>, keep: set<Edge>): (r: map<Edge, Attrs>)
    ensures forall f :: f in r <==> f in recs && f in keep
    ensures forall f :: f in r ==> r[f] == recs[f]
  {
    map f | f in keep && f in recs :: recs[f]
  }

  /** A table after the weight, label and extra attributes of a new key
      were written: the record of a new vertex, or of a new directed edge. */
  lemma FreshRecordWritten<K(!new)>(d: Dict<K, Attrs>, n: K, weight: int, text: string, attrs: Attrs)
    requires n !in d.m
    ensures Merge(Upsert(Upsert(d, n, "weight", IntVal(weight)), n, "label", StrVal(text)), n, attrs)
         == d.Put(n, DefaultRecord(weight, text) + attrs)
  {
    var def := DefaultRecord(weight, text);
    assert map[]["weight" := IntVal(weight)]["label" := StrVal(text)] == def;
    if attrs == map[] {
      assert def + attrs == def;
    }
  }

  /** The adjacency after `del_node(n)`: `n` is gone from the vertex list
      and from every neighbour list. */
  function Detached(adj: Dict<Node, seq<Node>>, n: Node): Dict<Node, seq<Node>>
  {
    Dict(Filter(adj.keys, {n}), map x | x in adj.m && x != n :: Filter(adj.m[x], {n}))
  }
}
