/** Shared vocabulary of the graph library: vertex identifiers, edges,
    attribute values, the error kinds the library raises, and the
    insertion-ordered dictionary every table of the library is kept in. */
module Base {

  /** Vertex identifiers are opaque strings. */
  type Node = string

  /** An edge is an ordered pair of vertices; an undirected graph stores
      both orientations of a non-loop edge. */
  type Edge = (Node, Node)

  /** Attribute values: the library stores weights (integers), labels
      (strings) and arbitrary extra values; the tagged union keeps the
      integer/string distinction visible. */
  datatype Value = IntVal(i: int) | StrVal(s: string) | BoolVal(b: bool)

  /** An attribute record: attribute name to value. */
  type Attrs = map<string, Value>

  /** The exception kinds the library raises, including the built-in
      KeyError, ValueError and IndexError that escape from dictionary and
      list operations. */
  datatype Error =
    | AdditionError
    | NodeNotFoundError
    | EdgeNotFoundError
    | InvalidAttrKeyError
    | InvalidWeightError
    | InvalidLabelError
    | KeyError
    | ValueError
    | IndexError

  /** A value or the exception raised while computing it. */
  datatype Result<T> = Ok(value: T) | Err(error: Error)

  /** The outcome of an operation that returns nothing. */
  datatype Outcome = Pass | Fail(error: Error)

  datatype Option<T> = None | Some(value: T)

  /** The record of a freshly created vertex or edge before its extra
      attributes are merged in. */
  function DefaultRecord(weight: int, text: string): (r: Attrs)
    ensures r.Keys == {"weight", "label"}
  {
    map["weight" := IntVal(weight), "label" := StrVal(text)]
  }

  /** No element occurs twice. */
  predicate Distinct<T(==)>(s: seq<T>)
  {
    forall i, j :: 0 <= i < j < |s| ==> s[i] != s[j]
  }

  lemma AppendDistinct<T>(s: seq<T>, x: T)
    requires Distinct(s) && x !in s
    ensures Distinct(s + [x])
  {
  }

  /** Two lists without duplicates and without common elements concatenate
      to a list without duplicates. */
  lemma DistinctConcat<T>(a: seq<T>, b: seq<T>)
    requires Distinct(a) && Distinct(b) && forall x :: x in a ==> x !in b
    ensures Distinct(a + b)
  {
    forall i, j | 0 <= i < j < |a + b| ensures (a + b)[i] != (a + b)[j] {
      if i < |a| && j >= |a| {
        assert (a + b)[i] in a && (a + b)[j] in b;
      }
    }
  }

  /** The elements of `s` (a list's `set(...)`). */
  function Elems<T(!new)>(s: seq<T>): (r: set<T>)
    ensures forall x :: x in r <==> x in s
  {
    set x | x in s
  }

  /** Position of the first occurrence of `x` in `s`. */
  function IndexOf<T(==)>(s: seq<T>, x: T): (i: nat)
    requires x in s
    ensures i < |s| && s[i] == x && x !in s[..i]
  {
    if s[0] == x then 0 else
      assert x in s[1..];
      var j := IndexOf(s[1..], x);
      assert s[..j + 1] == [s[0]] + s[1..][..j];
      j + 1
  }

  /** Python's `list.remove(x)`: drop the first occurrence of `x`. */
  function RemoveFirst<T(==)>(s: seq<T>, x: T): (r: seq<T>)
    requires x in s
    ensures |r| == |s| - 1
    ensures multiset(r) == multiset(s) - multiset{x}
  {
    var i := IndexOf(s, x);
    assert s == s[..i] + [s[i]] + s[i + 1..];
    s[..i] + s[i + 1..]
  }

  /** The elements of `s` that are not in `drop`, in their original order. */
  function Filter<T(==,!new)>(s: seq<T>, drop: set<T>): (r: seq<T>)
    ensures forall x :: x in r <==> x in s && x !in drop
    ensures |r| <= |s|
  {
    if s == [] then []
    else if s[0] in drop then Filter(s[1..], drop)
    else [s[0]] + Filter(s[1..], drop)
  }

  lemma {:induction false} FilterDistinct<T(!new)>(s: seq<T>, drop: set<T>)
    ensures Distinct(s) ==> Distinct(Filter(s, drop))
  {
    if s != [] && Distinct(s) {
      assert Distinct(s[1..]);
      FilterDistinct(s[1..], drop);
      assert s[0] !in s[1..];
    }
  }

  lemma {:induction false} FilterNothing<T(!new)>(s: seq<T>, drop: set<T>)
    requires forall x :: x in s ==> x !in drop
    ensures Filter(s, drop) == s
  {
    if s != [] {
      FilterNothing(s[1..], drop);
    }
  }

  /** Removing an element just appended to a list without it. */
  lemma FilterDropLast<T(!new)>(s: seq<T>, x: T)
    requires x !in s
    ensures Filter(s + [x], {x}) == s
  {
    FilterAppend(s, [x], {x});
    FilterNothing(s, {x});
    assert Filter([x], {x}) == [];
  }

  lemma {:induction false} FilterFilter<T(!new)>(s: seq<T>, a: set<T>, b: set<T>)
    ensures Filter(Filter(s, a), b) == Filter(s, a + b)
  {
    if s != [] {
      FilterFilter(s[1..], a, b);
    }
  }

  lemma {:induction false} FilterAppend<T(!new)>(s: seq<T>, t: seq<T>, drop: set<T>)
    ensures Filter(s + t, drop) == Filter(s, drop) + Filter(t, drop)
  {
    if s == [] {
      assert s + t == t;
    } else {
      assert (s + t)[1..] == s[1..] + t;
      FilterAppend(s[1..], t, drop);
    }
  }

  /** On a list without duplicates `list.remove(x)` is filtering `x` out. */
  lemma {:induction false} RemoveFirstIsFilter<T(!new)>(s: seq<T>, x: T)
    requires Distinct(s) && x in s
    ensures RemoveFirst(s, x) == Filter(s, {x})
  {
    var i := IndexOf(s, x);
    var pre, post := s[..i], s[i + 1..];
    assert s == pre + ([x] + post);
    assert x !in post by {
      forall k | 0 <= k < |post| ensures post[k] != x {
        assert post[k] == s[i + 1 + k];
      }
    }
    FilterAppend(pre, [x] + post, {x});
    FilterNothing(pre, {x});
    assert ([x] + post)[1..] == post;
    assert Filter([x] + post, {x}) == Filter(post, {x});
    FilterNothing(post, {x});
  }

  /** A list without duplicates is as long as its set of elements. */
  lemma {:induction false} DistinctCard<T(!new)>(s: seq<T>)
    requires Distinct(s)
    ensures |Elems(s)| == |s|
  {
    if s != [] {
      assert Distinct(s[1..]);
      DistinctCard(s[1..]);
      assert Elems(s) == Elems(s[1..]) + {s[0]};
      assert s[0] !in Elems(s[1..]);
    }
  }

  /** Python's insertion-ordered `dict`: `keys` lists the keys in insertion
      order and `m` holds the entries. */
  datatype Dict<K(==,!new), V> = Dict(keys: seq<K>, m: map<K, V>)
  {
    ghost predicate Valid()
    {
      Distinct(keys) && (forall k :: k in m <==> k in keys)
    }

    /** `d[k] = v`: a new key goes to the end, an existing one keeps its place. */
    function Put(k: K, v: V): (d: Dict<K, V>)
      ensures d.m == m[k := v]
      ensures Valid() ==> d.Valid()
    {
      Dict(if k in m then keys else keys + [k], m[k := v])
    }

    /** Every key of `ks` deleted, the others keeping their order. */
    function Without(ks: set<K>): (d: Dict<K, V>)
      ensures d.m == m - ks
      ensures d.keys == Filter(keys, ks)
      ensures Valid() ==> d.Valid()
    {
      FilterDistinct(keys, ks);
      Dict(Filter(keys, ks), m - ks)
    }

    /** `del d[k]`. */
    function Remove(k: K): (d: Dict<K, V>)
      requires Valid() && k in m
      ensures d.Valid() && d.m == m - {k}
      ensures d.keys == Filter(keys, {k})
    {
      FilterDistinct(keys, {k});
      Dict(Filter(keys, {k}), m - {k})
    }
  }

  /** Dropping two sets of keys in turn is dropping their union. */
  lemma WithoutWithout<K(!new), V>(d: Dict<K, V>, a: set<K>, b: set<K>)
    ensures d.Without(a).Without(b) == d.Without(a + b)
  {
    FilterFilter(d.keys, a, b);
    assert d.m - a - b == d.m - (a + b);
  }

  /** Dropping no keys changes nothing. */
  lemma WithoutNothing<K(!new), V>(d: Dict<K, V>)
    ensures d.Without({}) == d
  {
    FilterNothing(d.keys, {});
    assert d.m - {} == d.m;
  }

  /** Two well-formed dictionaries with the same key list have the same keys. */
  lemma SameKeys<K(!new), V, W>(a: Dict<K, V>, b: Dict<K, W>)
    requires a.Valid() && b.Valid() && a.keys == b.keys
    ensures a.m.Keys == b.m.Keys
  {
  }

  /** `del d[k]` drops the one-key set `{k}`. */
  lemma RemoveIsWithout<K(!new), V>(d: Dict<K, V>, k: K)
    requires d.Valid() && k in d.m
    ensures d.Remove(k) == d.Without({k})
  {
  }

  function EmptyDict<K(==,!new), V>(): (d: Dict<K, V>)
    ensures d.Valid() && d.keys == [] && d.m == map[]
  {
    Dict([], map[])
  }

  /** Filtering out an element absent from a prefix leaves that prefix. */
  lemma FilterFreshPrefix<T(!new)>(s: seq<T>, t: seq<T>, x: T)
    requires x !in s
    ensures Filter(s + t, {x}) == s + Filter(t, {x})
  {
    FilterAppend(s, t, {x});
    FilterNothing(s, {x});
  }

  /** Deleting a key just inserted restores the dictionary. */
  /** Writing back a key's old value undoes an overwrite. */
  lemma PutRestore<K(!new), V>(d: Dict<K, V>, k: K, x: V)
    requires k in d.m
    ensures d.Put(k, x).Put(k, d.m[k]) == d
  {
    assert d.m[k := x][k := d.m[k]] == d.m;
  }

  lemma PutPutRestore<K(!new), V>(d: Dict<K, V>, k: K, x: V, j: K, y: V)
    requires k in d.m && j in d.m && k != j
    ensures d.Put(k, x).Put(j, y).Put(k, d.m[k]).Put(j, d.m[j]) == d
  {
    assert d.m[k := x][j := y][k := d.m[k]][j := d.m[j]] == d.m;
  }

  /** Writes to two different keys commute once the first key exists. */
  lemma PutCommute<K(!new), V>(d: Dict<K, V>, k: K, x: V, j: K, y: V)
    requires k in d.m && k != j
    ensures d.Put(k, x).Put(j, y) == d.Put(j, y).Put(k, x)
  {
    assert d.m[k := x][j := y] == d.m[j := y][k := x];
  }

  lemma PutThenRemove<K(!new), V>(d: Dict<K, V>, k: K, v: V)
    requires d.Valid() && k !in d.m
    ensures d.Put(k, v).Remove(k) == d
  {
    var p := d.Put(k, v);
    FilterFreshPrefix(d.keys, [k], k);
    assert Filter([k], {k}) == [];
    assert p.keys == d.keys + [k];
    assert p.Remove(k).keys == d.keys;
    assert p.Remove(k).m == d.m;
  }

  /** Filtering out the first of two fresh elements appended to `s`. */
  lemma FilterOlder<T(!new)>(s: seq<T>, k: T, j: T)
    requires k !in s && k != j
    ensures Filter(s + [k, j], {k}) == s + [j]
  {
    FilterFreshPrefix(s, [k, j], k);
    assert [k, j][1..] == [j];
    assert Filter([j], {k}) == [j] by {
      assert [j][1..] == [];
    }
  }

  /** Deleting the older of two keys just inserted leaves the newer one. */
  lemma PutPutThenRemoveFirst<K(!new), V>(d: Dict<K, V>, k: K, v: V, j: K, w: V)
    requires d.Valid() && k !in d.m && j !in d.m && k != j
    ensures d.Put(k, v).Put(j, w).Remove(k) == d.Put(j, w)
  {
    var p1 := d.Put(k, v);
    assert p1 == Dict(d.keys + [k], d.m[k := v]);
    var p := p1.Put(j, w);
    assert p == Dict(d.keys + [k] + [j], d.m[k := v][j := w]);
    assert d.keys + [k] + [j] == d.keys + [k, j];
    FilterOlder(d.keys, k, j);
    PutPutMinus(d.m, k, v, j, w);
    assert d.Put(j, w) == Dict(d.keys + [j], d.m[j := w]);
  }

  lemma PutPutMinus<K, V>(m: map<K, V>, k: K, v: V, j: K, w: V)
    requires k !in m && k != j
    ensures m[k := v][j := w] - {k} == m[j := w]
  {
  }

}
