/** The attribute layer shared by both graph classes: one attribute record
    per vertex and per edge, upserted key by key; on an undirected graph
    every write to a non-loop edge is mirrored to the reversed key. */
module DataMixin {
  import opened Base

  /** The record stored under `k`, or an empty one. */
  function RecordOf<K(==,!new)>(d: Dict<K, Attrs>, k: K): Attrs
  {
    if k in d.m then d.m[k] else map[]
  }

  function Reversed(e: Edge): Edge
  {
    (e.1, e.0)
  }

  /** Whether a write to edge `e` is repeated on the reversed key. */
  predicate Mirrored(directed: bool, e: Edge)
  {
    !directed && e.0 != e.1
  }

  /** `table[k][key] = value`, creating the record if needed. */
  function Upsert<K(==,!new)>(d: Dict<K, Attrs>, k: K, key: string, value: Value): (r: Dict<K, Attrs>)
    ensures k in r.m && r.m[k] == RecordOf(d, k)[key := value]
    ensures forall j :: j != k ==> (j in r.m <==> j in d.m) && (j in d.m ==> r.m[j] == d.m[j])
  {
    d.Put(k, RecordOf(d, k)[key := value])
  }

  /** One attribute write to an edge, mirrored when the graph is undirected. */
  function UpsertEdge(d: Dict<Edge, Attrs>, e: Edge, key: string, value: Value, directed: bool): Dict<Edge, Attrs>
  {
    var d1 := Upsert(d, e, key, value);
    if Mirrored(directed, e) then Upsert(d1, Reversed(e), key, value) else d1
  }

  /** All of `attrs` written into the record under `k`; nothing is created
      when `attrs` is empty. */
  function Merge<K(==,!new)>(d: Dict<K, Attrs>, k: K, attrs: Attrs): Dict<K, Attrs>
  {
    if attrs == map[] then d else d.Put(k, RecordOf(d, k) + attrs)
  }

  function MergeEdge(d: Dict<Edge, Attrs>, e: Edge, attrs: Attrs, directed: bool): Dict<Edge, Attrs>
  {
    var d1 := Merge(d, e, attrs);
    if Mirrored(directed, e) then Merge(d1, Reversed(e), attrs) else d1
  }

  /** Looks one attribute up in a record (Python's `record[key]`). */
  function Field(rec: Attrs, key: string): (r: Result<Value>)
    ensures r.Ok? <==> key in rec
    ensures r.Ok? ==> r.value == rec[key]
    ensures r.Err? ==> r.error == KeyError
  {
    if key in rec then Ok(rec[key]) else Err(KeyError)
  }

  /** Writing the attributes one key at a time is merging them. */
  lemma MergeStep<K(!new)>(d: Dict<K, Attrs>, k: K, done: Attrs, key: string, value: Value)
    ensures Merge(d, k, done[key := value]) == Upsert(Merge(d, k, done), k, key, value)
  {
    var rec := RecordOf(d, k);
    if done == map[] {
      assert done[key := value] == map[key := value];
      assert key in done[key := value];
      assert rec + map[key := value] == rec[key := value];
    } else {
      assert rec + done[key := value] == (rec + done)[key := value];
    }
  }

  /** Writing one key of the record under `e` and merging into the record
      under another key `r` commute, once `e` has a record. */
  lemma UpsertMergeCommute<K(!new)>(d: Dict<K, Attrs>, e: K, r: K, done: Attrs, key: string, value: Value)
    requires e in d.m && e != r && done != map[]
    ensures Merge(Upsert(d, e, key, value), r, done) == Upsert(Merge(d, r, done), e, key, value)
  {
    var x, y := RecordOf(d, e)[key := value], RecordOf(d, r) + done;
    assert RecordOf(d.Put(e, x), r) == RecordOf(d, r);
    assert RecordOf(d.Put(r, y), e) == RecordOf(d, e);
    PutCommute(d, e, x, r, y);
  }

  lemma MergeEdgeStep(d: Dict<Edge, Attrs>, e: Edge, done: Attrs, key: string, value: Value, directed: bool)
    ensures MergeEdge(d, e, done[key := value], directed)
         == UpsertEdge(MergeEdge(d, e, done, directed), e, key, value, directed)
  {
    var done' := done[key := value];
    MergeStep(d, e, done, key, value);
    if Mirrored(directed, e) {
      var r := Reversed(e);
      var d1 := Merge(d, e, done);
      MergeStep(d1, r, done, key, value);
      var u1 := Upsert(d1, e, key, value);
      assert Merge(d, e, done') == u1;
      assert RecordOf(u1, r) == RecordOf(d1, r);
      if done == map[] {
        assert Merge(u1, r, done') == Upsert(u1, r, key, value);
        assert Merge(d1, r, done) == d1;
      } else {
        MergeStep(u1, r, done, key, value);
        UpsertMergeCommute(d1, e, r, done, key, value);
      }
    }
  }

  /** The entries of `attrs` whose keys are no longer in `todo`. */
  function Handled(attrs: Attrs, todo: set<string>): Attrs
  {
    map k | k in attrs && k !in todo :: attrs[k]
  }

  lemma HandledNone(attrs: Attrs)
    ensures Handled(attrs, attrs.Keys) == map[]
  {
  }

  lemma HandledStep(attrs: Attrs, todo: set<string>, key: string)
    requires key in todo && todo <= attrs.Keys
    ensures Handled(attrs, todo - {key}) == Handled(attrs, todo)[key := attrs[key]]
  {
  }

  lemma HandledAll(attrs: Attrs)
    ensures Handled(attrs, {}) == attrs
  {
  }

  /** Python's `==` on attribute values: a boolean equals the integer it
      stands for (`True == 1`, `False == 0`); otherwise only values of the
      same kind can be equal. */
  predicate ValueEq(x: Value, y: Value)
  {
    match (x, y)
    case (IntVal(i), BoolVal(b)) => i == (if b then 1 else 0)
    case (BoolVal(b), IntVal(i)) => i == (if b then 1 else 0)
    case _ => x == y
  }

  /** A value as a comparison sees it: a boolean becomes its integer. */
  function Numeric(v: Value): (r: Value)
    ensures !r.BoolVal?
  {
    if v.BoolVal? then IntVal(if v.b then 1 else 0) else v
  }

  /** A record with every boolean replaced by its integer. */
  function NormalRecord(rec: Attrs): (r: Attrs)
    ensures r.Keys == rec.Keys
  {
    map k | k in rec :: Numeric(rec[k])
  }

  /** A table of records, each one normalised. */
  function NormalTable<K>(t: map<K, Attrs>): (r: map<K, Attrs>)
    ensures r.Keys == t.Keys
  {
    map k | k in t :: NormalRecord(t[k])
  }

  /** Python's attribute-record equality, checked key by key both ways. */
  predicate AttrsEq(a: Attrs, b: Attrs)
  {
    (forall k :: k in a ==> k in b && ValueEq(a[k], b[k])) &&
    (forall k :: k in b ==> k in a && ValueEq(a[k], b[k]))
  }

  /** Two values compare equal exactly when they are the same number or
      the same string. */
  lemma ValueEqMeans(x: Value, y: Value)
    ensures ValueEq(x, y) <==> Numeric(x) == Numeric(y)
  {
  }

  /** `attrs_eq` is equality of the records once booleans are read as
      integers: it is symmetric, and it holds for equal records. */
  lemma AttrsEqIsEquality(a: Attrs, b: Attrs)
    ensures AttrsEq(a, b) <==> NormalRecord(a) == NormalRecord(b)
    ensures AttrsEq(a, b) == AttrsEq(b, a)
    ensures a == b ==> AttrsEq(a, b)
  {
    forall k | k in a && k in b
      ensures ValueEq(a[k], b[k]) <==> NormalRecord(a)[k] == NormalRecord(b)[k]
    {
      ValueEqMeans(a[k], b[k]);
    }
    if AttrsEq(a, b) {
      assert a.Keys == b.Keys;
      assert NormalRecord(a).Keys == NormalRecord(b).Keys;
    }
    if NormalRecord(a) == NormalRecord(b) {
      assert a.Keys == b.Keys;
    }
  }

  /** `attrs_eq` is coarser than record equality: `{"x": 1}` and
      `{"x": True}` compare equal. */
  lemma OneEqualsTrue()
    ensures AttrsEq(map["x" := IntVal(1)], map["x" := BoolVal(true)])
    ensures map["x" := IntVal(1)] != map["x" := BoolVal(true)]
  {
    assert map["x" := IntVal(1)]["x"] != map["x" := BoolVal(true)]["x"];
  }

  /** The vertex and edge attribute tables of one graph. */
  class AttrStore {
    const directed: bool
    var nodesAttrs: Dict<Node, Attrs>
    var edgesAttrs: Dict<Edge, Attrs>

    ghost predicate Valid()
      reads this
    {
      nodesAttrs.Valid() && edgesAttrs.Valid()
    }

    constructor (directed: bool)
      ensures Valid() && this.directed == directed
      ensures nodesAttrs == EmptyDict() && edgesAttrs == EmptyDict()
    {
      this.directed := directed;
      nodesAttrs := EmptyDict();
      edgesAttrs := EmptyDict();
    }

    function GetNodeAttributes(node: Node): (r: Result<Attrs>)
      reads this
      ensures r.Ok? <==> node in nodesAttrs.m
      ensures r.Ok? ==> r.value == nodesAttrs.m[node]
      ensures r.Err? ==> r.error == NodeNotFoundError
    {
      if node in nodesAttrs.m then Ok(nodesAttrs.m[node]) else Err(NodeNotFoundError)
    }

    function GetEdgeAttributes(edge: Edge): (r: Result<Attrs>)
      reads this
      ensures r.Ok? <==> edge in edgesAttrs.m
      ensures r.Ok? ==> r.value == edgesAttrs.m[edge]
      ensures r.Err? ==> r.error == EdgeNotFoundError
    {
      if edge in edgesAttrs.m then Ok(edgesAttrs.m[edge]) else Err(EdgeNotFoundError)
    }

    /** The weight getters and label getters: NodeNotFoundError or
        EdgeNotFoundError without a record, KeyError when the record has lost
        the key. */
    function GetNodeWeight(node: Node): (r: Result<Value>)
      reads this
      ensures node !in nodesAttrs.m ==> r == Err(NodeNotFoundError)
      ensures r.Ok? <==> node in nodesAttrs.m && "weight" in nodesAttrs.m[node]
      ensures r.Ok? ==> r.value == nodesAttrs.m[node]["weight"]
    {
      if node !in nodesAttrs.m then Err(NodeNotFoundError) else Field(nodesAttrs.m[node], "weight")
    }

    function GetNodeLabel(node: Node): (r: Result<Value>)
      reads this
      ensures node !in nodesAttrs.m ==> r == Err(NodeNotFoundError)
      ensures r.Ok? <==> node in nodesAttrs.m && "label" in nodesAttrs.m[node]
      ensures r.Ok? ==> r.value == nodesAttrs.m[node]["label"]
    {
      if node !in nodesAttrs.m then Err(NodeNotFoundError) else Field(nodesAttrs.m[node], "label")
    }

    function GetEdgeWeight(edge: Edge): (r: Result<Value>)
      reads this
      ensures edge !in edgesAttrs.m ==> r == Err(EdgeNotFoundError)
      ensures r.Ok? <==> edge in edgesAttrs.m && "weight" in edgesAttrs.m[edge]
      ensures r.Ok? ==> r.value == edgesAttrs.m[edge]["weight"]
    {
      if edge !in edgesAttrs.m then Err(EdgeNotFoundError) else Field(edgesAttrs.m[edge], "weight")
    }

    function GetEdgeLabel(edge: Edge): (r: Result<Value>)
      reads this
      ensures edge !in edgesAttrs.m ==> r == Err(EdgeNotFoundError)
      ensures r.Ok? <==> edge in edgesAttrs.m && "label" in edgesAttrs.m[edge]
      ensures r.Ok? ==> r.value == edgesAttrs.m[edge]["label"]
    {
      if edge !in edgesAttrs.m then Err(EdgeNotFoundError) else Field(edgesAttrs.m[edge], "label")
    }

    /** Upserts one attribute of a vertex; keys are strings by type, so the
        invalid-key error cannot arise. */
    method AddNodeAttribute(node: Node, key: string, value: Value)
      requires Valid()
      modifies this
      ensures Valid()
      ensures nodesAttrs == Upsert(old(nodesAttrs), node, key, value)
      ensures edgesAttrs == old(edgesAttrs)
    {
      nodesAttrs := nodesAttrs.Put(node, RecordOf(nodesAttrs, node)[key := value]);
    }

    /** Upserts one attribute of an edge and, on an undirected graph, of the
        reversed edge. */
    method AddEdgeAttribute(edge: Edge, key: string, value: Value)
      requires Valid()
      modifies this
      ensures Valid()
      ensures edgesAttrs == UpsertEdge(old(edgesAttrs), edge, key, value, directed)
      ensures nodesAttrs == old(nodesAttrs)
    {
      edgesAttrs := edgesAttrs.Put(edge, RecordOf(edgesAttrs, edge)[key := value]);
      if !directed && edge.0 != edge.1 {
        var back := (edge.1, edge.0);
        edgesAttrs := edgesAttrs.Put(back, RecordOf(edgesAttrs, back)[key := value]);
      }
    }

    /** The weight and label setters; their runtime type checks are
        discharged by the parameter types. */
    method SetNodeWeight(node: Node, weight: int)
      requires Valid()
      modifies this
      ensures Valid()
      ensures nodesAttrs == Upsert(old(nodesAttrs), node, "weight", IntVal(weight))
      ensures edgesAttrs == old(edgesAttrs)
    {
      AddNodeAttribute(node, "weight", IntVal(weight));
    }

    method SetNodeLabel(node: Node, text: string)
      requires Valid()
      modifies this
      ensures Valid()
      ensures nodesAttrs == Upsert(old(nodesAttrs), node, "label", StrVal(text))
      ensures edgesAttrs == old(edgesAttrs)
    {
      AddNodeAttribute(node, "label", StrVal(text));
    }

    method SetEdgeWeight(edge: Edge, weight: int)
      requires Valid()
      modifies this
      ensures Valid()
      ensures edgesAttrs == UpsertEdge(old(edgesAttrs), edge, "weight", IntVal(weight), directed)
      ensures nodesAttrs == old(nodesAttrs)
    {
      AddEdgeAttribute(edge, "weight", IntVal(weight));
    }

    method SetEdgeLabel(edge: Edge, text: string)
      requires Valid()
      modifies this
      ensures Valid()
      ensures edgesAttrs == UpsertEdge(old(edgesAttrs), edge, "label", StrVal(text), directed)
      ensures nodesAttrs == old(nodesAttrs)
    {
      AddEdgeAttribute(edge, "label", StrVal(text));
    }

    /** Upserts every attribute of `attrs`, in whatever order the dictionary
        yields them; the result does not depend on that order. */
    method AddNodeAttributes(node: Node, attrs: Attrs)
      requires Valid()
      modifies this
      ensures Valid()
      ensures nodesAttrs == Merge(old(nodesAttrs), node, attrs)
      ensures edgesAttrs == old(edgesAttrs)
    {
      var todo := attrs.Keys;
      ghost var done: Attrs := map[];
      HandledNone(attrs);
      while todo != {}
        invariant Valid()
        invariant todo <= attrs.Keys
        invariant done == Handled(attrs, todo)
        invariant nodesAttrs == Merge(old(nodesAttrs), node, done)
        invariant edgesAttrs == old(edgesAttrs)
        decreases todo
      {
        var key :| key in todo;
        AddNodeAttribute(node, key, attrs[key]);
        MergeStep(old(nodesAttrs), node, done, key, attrs[key]);
        HandledStep(attrs, todo, key);
        done := done[key := attrs[key]];
        todo := todo - {key};
      }
      HandledAll(attrs);
    }

    method AddEdgeAttributes(edge: Edge, attrs: Attrs)
      requires Valid()
      modifies this
      ensures Valid()
      ensures edgesAttrs == MergeEdge(old(edgesAttrs), edge, attrs, directed)
      ensures nodesAttrs == old(nodesAttrs)
    {
      var todo := attrs.Keys;
      ghost var done: Attrs := map[];
      HandledNone(attrs);
      while todo != {}
        invariant Valid()
        invariant todo <= attrs.Keys
        invariant done == Handled(attrs, todo)
        invariant edgesAttrs == MergeEdge(old(edgesAttrs), edge, done, directed)
        invariant nodesAttrs == old(nodesAttrs)
        decreases todo
      {
        var key :| key in todo;
        AddEdgeAttribute(edge, key, attrs[key]);
        MergeEdgeStep(old(edgesAttrs), edge, done, key, attrs[key], directed);
        HandledStep(attrs, todo, key);
        done := done[key := attrs[key]];
        todo := todo - {key};
      }
      HandledAll(attrs);
    }

    /** Deletes one attribute of a vertex: NodeNotFoundError without a
        record, InvalidAttrKeyError when the key is absent. */
    method DelNodeAttribute(node: Node, key: string) returns (out: Outcome)
      requires Valid()
      modifies this
      ensures Valid() && edgesAttrs == old(edgesAttrs)
      ensures node !in old(nodesAttrs.m) ==> out == Fail(NodeNotFoundError)
      ensures node in old(nodesAttrs.m) && key !in old(nodesAttrs.m[node]) ==> out == Fail(InvalidAttrKeyError)
      ensures out.Fail? ==> nodesAttrs == old(nodesAttrs)
      ensures out.Pass? <==> node in old(nodesAttrs.m) && key in old(nodesAttrs.m[node])
      ensures out.Pass? ==> nodesAttrs == old(nodesAttrs).Put(node, old(nodesAttrs.m[node]) - {key})
    {
      if node !in nodesAttrs.m {
        return Fail(NodeNotFoundError);
      }
      if key !in nodesAttrs.m[node] {
        return Fail(InvalidAttrKeyError);
      }
      nodesAttrs := nodesAttrs.Put(node, nodesAttrs.m[node] - {key});
      out := Pass;
    }

    /** Deletes one attribute of one edge key; the reversed key of an
        undirected edge is not touched. */
    method DelEdgeAttribute(edge: Edge, key: string) returns (out: Outcome)
      requires Valid()
      modifies this
      ensures Valid() && nodesAttrs == old(nodesAttrs)
      ensures edge !in old(edgesAttrs.m) ==> out == Fail(EdgeNotFoundError)
      ensures edge in old(edgesAttrs.m) && key !in old(edgesAttrs.m[edge]) ==> out == Fail(InvalidAttrKeyError)
      ensures out.Fail? ==> edgesAttrs == old(edgesAttrs)
      ensures out.Pass? <==> edge in old(edgesAttrs.m) && key in old(edgesAttrs.m[edge])
      ensures out.Pass? ==> edgesAttrs == old(edgesAttrs).Put(edge, old(edgesAttrs.m[edge]) - {key})
    {
      if edge !in edgesAttrs.m {
        return Fail(EdgeNotFoundError);
      }
      if key !in edgesAttrs.m[edge] {
        return Fail(InvalidAttrKeyError);
      }
      edgesAttrs := edgesAttrs.Put(edge, edgesAttrs.m[edge] - {key});
      out := Pass;
    }

    /** Drops the whole record of a vertex. */
    method DelNodeData(node: Node) returns (out: Outcome)
      requires Valid()
      modifies this
      ensures Valid() && edgesAttrs == old(edgesAttrs)
      ensures out.Pass? <==> node in old(nodesAttrs.m)
      ensures out.Fail? ==> out.error == NodeNotFoundError && nodesAttrs == old(nodesAttrs)
      ensures out.Pass? ==> nodesAttrs == old(nodesAttrs).Remove(node)
    {
      if node in nodesAttrs.m {
        nodesAttrs := nodesAttrs.Remove(node);
        out := Pass;
      } else {
        out := Fail(NodeNotFoundError);
      }
    }

    /** Drops the record of an edge and, for an undirected non-loop edge,
        the record of the reversed key; a missing reversed record raises
        after the first record is already gone. */
    method DelEdgeData(edge: Edge) returns (out: Outcome)
      requires Valid()
      modifies this
      ensures Valid() && nodesAttrs == old(nodesAttrs)
      ensures edge !in old(edgesAttrs.m) ==> out == Fail(EdgeNotFoundError) && edgesAttrs == old(edgesAttrs)
      ensures edge in old(edgesAttrs.m) && !Mirrored(directed, edge) ==>
                out == Pass && edgesAttrs == old(edgesAttrs).Remove(edge)
      ensures edge in old(edgesAttrs.m) && Mirrored(directed, edge) && Reversed(edge) !in old(edgesAttrs.m) ==>
                out == Fail(EdgeNotFoundError) && edgesAttrs == old(edgesAttrs).Remove(edge)
      ensures edge in old(edgesAttrs.m) && Mirrored(directed, edge) && Reversed(edge) in old(edgesAttrs.m) ==>
                out == Pass && edgesAttrs == old(edgesAttrs).Remove(edge).Remove(Reversed(edge))
    {
      if edge !in edgesAttrs.m {
        return Fail(EdgeNotFoundError);
      }
      edgesAttrs := edgesAttrs.Remove(edge);
      if !directed && edge.0 != edge.1 {
        var back := (edge.1, edge.0);
        if back !in edgesAttrs.m {
          return Fail(EdgeNotFoundError);
        }
        edgesAttrs := edgesAttrs.Remove(back);
      }
      out := Pass;
    }
  }
}
