/** The first stages of `isomorphism`: every vertex of both graphs gets a
    characteristic that renumbering cannot change (its degree and the
    degrees of its neighbours), the vertices are grouped by it, the
    groups are checked for equal sizes, and they are sorted the way
    Python sorts the tuples `(len(A), A, B)`. */
module Characteristics {
  import opened Base
  import opened CommonMixin

  /** `(v_pow, a_pov)`: a vertex's degree and its neighbours' degrees. The
      source keeps the latter as a sorted tuple; two sorted tuples are
      equal exactly when their multisets are. */
  datatype Characteristic = Characteristic(degree: nat, around: multiset<nat>)

  /** `[A, B]`: the vertices of the first and of the second graph that
      share one characteristic. */
  type Group = (seq<Node>, seq<Node>)

  /** Every vertex of `ys` is a vertex of `g`. */
  ghost predicate Within(g: View, ys: seq<Node>)
  {
    forall y :: y in ys ==> y in g.adj
  }

  /** The degrees of the vertices of `ys`, as a multiset. */
  function Degrees(g: View, ys: seq<Node>): (d: multiset<nat>)
    requires Within(g, ys)
    ensures |d| == |ys|
  {
    if ys == [] then multiset{} else Degrees(g, ys[..|ys| - 1]) + multiset{|g.adj[ys[|ys| - 1]]|}
  }

  /** The characteristic of vertex `x`: `len(graph.neighbors(x))` and the
      lengths of the neighbour lists of its neighbours. */
  function Char(g: View, x: Node): Characteristic
    requires g.WF() && x in g.adj
  {
    Characteristic(|g.adj[x]|, Degrees(g, g.adj[x]))
  }

  /** The vertices of `ns` with characteristic `c`, in the order of `ns`. */
  function Members(g: View, ns: seq<Node>, c: Characteristic): (r: seq<Node>)
    requires g.WF() && Within(g, ns)
    ensures forall x :: x in r <==> x in ns && Char(g, x) == c
    ensures Distinct(ns) ==> Distinct(r)
  {
    if ns == [] then []
    else
      var x := ns[|ns| - 1];
      Members(g, ns[..|ns| - 1], c) + (if Char(g, x) == c then [x] else [])
  }

  /** The group of `c`, or `[[], []]` when `c` has none yet. */
  function Get(groups: Dict<Characteristic, Group>, c: Characteristic): Group
  {
    if c in groups.m then groups.m[c] else ([], [])
  }

  /** `xs` appended to the list of side `side` (0 for the first graph). */
  function Side(p: Group, side: nat, xs: seq<Node>): Group
  {
    if side == 0 then (p.0 + xs, p.1) else (p.0, p.1 + xs)
  }

  /** One pass of the grouping loop: `groups[c] = [[], []]` when `c` is
      new, then `groups[c][side].append(x)`. */
  function Enter(groups: Dict<Characteristic, Group>, c: Characteristic, side: nat, x: Node): Dict<Characteristic, Group>
  {
    groups.Put(c, Side(Get(groups, c), side, [x]))
  }

  /** The grouping loop over the vertices `ns` of one graph. */
  function Collected(groups: Dict<Characteristic, Group>, g: View, side: nat, ns: seq<Node>): Dict<Characteristic, Group>
    requires g.WF() && Within(g, ns)
  {
    if ns == [] then groups
    else
      var x := ns[|ns| - 1];
      Enter(Collected(groups, g, side, ns[..|ns| - 1]), Char(g, x), side, x)
  }

  /** `groups` after both passes: over the first graph's vertices, then
      over the second's. */
  function Grouped(g1: View, g2: View): Dict<Characteristic, Group>
    requires g1.WF() && g2.WF()
  {
    Collected(Collected(EmptyDict(), g1, 0, g1.nodes), g2, 1, g2.nodes)
  }

  /** Entering `x` under `c2` changes only the group of `c2`. */
  lemma EnterGet(groups: Dict<Characteristic, Group>, c2: Characteristic, side: nat, x: Node, c: Characteristic)
    ensures Get(Enter(groups, c2, side, x), c) == if c == c2 then Side(Get(groups, c), side, [x]) else Get(groups, c)
    ensures c in Enter(groups, c2, side, x).m <==> c in groups.m || c == c2
  {
  }

  /** Appending twice to one side appends the concatenation. */
  lemma SideTwice(p: Group, side: nat, xs: seq<Node>, ys: seq<Node>)
    ensures Side(Side(p, side, xs), side, ys) == Side(p, side, xs + ys)
  {
    assert p.0 + xs + ys == p.0 + (xs + ys);
    assert p.1 + xs + ys == p.1 + (xs + ys);
  }

  /** The grouping loop keeps a well-formed dictionary. */
  lemma {:induction false} CollectedValid(groups: Dict<Characteristic, Group>, g: View, side: nat, ns: seq<Node>)
    requires g.WF() && Within(g, ns) && groups.Valid()
    ensures Collected(groups, g, side, ns).Valid()
    decreases |ns|
  {
    if ns != [] {
      CollectedValid(groups, g, side, ns[..|ns| - 1]);
    }
  }

  /** The grouping loop appends to each characteristic's group exactly
      the vertices of `ns` that have it, in order. */
  lemma {:induction false} CollectedGet(groups: Dict<Characteristic, Group>, g: View, side: nat, ns: seq<Node>, c: Characteristic)
    requires g.WF() && Within(g, ns)
    ensures Get(Collected(groups, g, side, ns), c) == Side(Get(groups, c), side, Members(g, ns, c))
    decreases |ns|
  {
    var p := Get(groups, c);
    if ns == [] {
      assert p.0 + [] == p.0 && p.1 + [] == p.1;
    } else {
      var x, init := ns[|ns| - 1], ns[..|ns| - 1];
      var before := Collected(groups, g, side, init);
      assert Collected(groups, g, side, ns) == Enter(before, Char(g, x), side, x);
      CollectedGet(groups, g, side, init, c);
      EnterGet(before, Char(g, x), side, x, c);
      if Char(g, x) == c {
        assert Members(g, ns, c) == Members(g, init, c) + [x];
        SideTwice(p, side, Members(g, init, c), [x]);
      } else {
        assert Members(g, ns, c) == Members(g, init, c) + [];
        assert Members(g, init, c) + [] == Members(g, init, c);
      }
    }
  }

  /** The grouping loop adds the characteristics of the vertices of `ns`
      and no others. */
  lemma {:induction false} CollectedKeys(groups: Dict<Characteristic, Group>, g: View, side: nat, ns: seq<Node>, c: Characteristic)
    requires g.WF() && Within(g, ns)
    ensures c in Collected(groups, g, side, ns).m <==> c in groups.m || Members(g, ns, c) != []
    decreases |ns|
  {
    if ns != [] {
      var x, init := ns[|ns| - 1], ns[..|ns| - 1];
      CollectedKeys(groups, g, side, init, c);
      EnterGet(Collected(groups, g, side, init), Char(g, x), side, x, c);
      if Char(g, x) == c {
        assert x in Members(g, ns, c);
      } else {
        assert Members(g, ns, c) == Members(g, init, c) + [];
      }
    }
  }

  /** After both passes, the group of `c` lists, in vertex order, the
      vertices of each graph with characteristic `c`, and `c` is present
      exactly when some vertex of either graph has it. */
  lemma GroupedAt(g1: View, g2: View, c: Characteristic)
    requires g1.WF() && g2.WF()
    ensures c in Grouped(g1, g2).m <==> Members(g1, g1.nodes, c) != [] || Members(g2, g2.nodes, c) != []
    ensures Get(Grouped(g1, g2), c) == (Members(g1, g1.nodes, c), Members(g2, g2.nodes, c))
  {
    var first := Collected(EmptyDict(), g1, 0, g1.nodes);
    var m1, m2 := Members(g1, g1.nodes, c), Members(g2, g2.nodes, c);
    CollectedKeys(EmptyDict(), g1, 0, g1.nodes, c);
    CollectedKeys(first, g2, 1, g2.nodes, c);
    CollectedGet(EmptyDict(), g1, 0, g1.nodes, c);
    assert [] + m1 == m1 && [] + m2 == m2;
    assert Get(first, c) == (m1, []);
    CollectedGet(first, g2, 1, g2.nodes, c);
  }

  /** After both passes, the characteristics present are those of some
      vertex of either graph, and each one's group lists, in vertex order,
      the vertices of each graph that have it. */
  lemma GroupedMeaning(g1: View, g2: View)
    requires g1.WF() && g2.WF()
    ensures Grouped(g1, g2).Valid()
    ensures forall c :: c in Grouped(g1, g2).m <==> Members(g1, g1.nodes, c) != [] || Members(g2, g2.nodes, c) != []
    ensures forall c :: c in Grouped(g1, g2).m ==> Grouped(g1, g2).m[c] == (Members(g1, g1.nodes, c), Members(g2, g2.nodes, c))
  {
    var first := Collected(EmptyDict(), g1, 0, g1.nodes);
    CollectedValid(EmptyDict(), g1, 0, g1.nodes);
    CollectedValid(first, g2, 1, g2.nodes);
    forall c ensures c in Grouped(g1, g2).m <==> Members(g1, g1.nodes, c) != [] || Members(g2, g2.nodes, c) != [] {
      GroupedAt(g1, g2, c);
    }
    forall c | c in Grouped(g1, g2).m
      ensures Grouped(g1, g2).m[c] == (Members(g1, g1.nodes, c), Members(g2, g2.nodes, c))
    {
      GroupedAt(g1, g2, c);
    }
  }

  /** Creating an empty group first and then appending to it is one
      `Enter`. */
  lemma EnterSteps(groups: Dict<Characteristic, Group>, c: Characteristic, side: nat, x: Node)
    ensures var d := if c in groups.m then groups else groups.Put(c, ([], []));
            d.Put(c, Side(d.m[c], side, [x])) == Enter(groups, c, side, x)
  {
  }

  /** The inner grouping loop of `isomorphism` over the vertices of one
      graph. */
  method Collect(groups: Dict<Characteristic, Group>, g: View, side: nat) returns (r: Dict<Characteristic, Group>)
    requires g.WF()
    ensures r == Collected(groups, g, side, g.nodes)
  {
    r := groups;
    for i := 0 to |g.nodes|
      invariant r == Collected(groups, g, side, g.nodes[..i])
    {
      var x := g.nodes[i];
      var c := Char(g, x);
      EnterSteps(r, c, side, x);
      if c !in r.m {
        r := r.Put(c, ([], []));
      }
      r := r.Put(c, Side(r.m[c], side, [x]));
      assert g.nodes[..i + 1][..i] == g.nodes[..i];
    }
    assert g.nodes[..|g.nodes|] == g.nodes;
  }

  /** The grouping loops of `isomorphism`: the first graph's vertices,
      then the second's. */
  method BuildGroups(g1: View, g2: View) returns (groups: Dict<Characteristic, Group>)
    requires g1.WF() && g2.WF()
    ensures groups == Grouped(g1, g2)
  {
    groups := EmptyDict();
    for side := 0 to 2
      invariant side == 0 ==> groups == EmptyDict()
      invariant side == 1 ==> groups == Collected(EmptyDict(), g1, 0, g1.nodes)
      invariant side == 2 ==> groups == Grouped(g1, g2)
    {
      var graph := if side == 0 then g1 else g2;
      groups := Collect(groups, graph, side);
    }
  }

  /** Every group has as many vertices in the first graph as in the
      second. */
  ghost predicate AllBalanced(groups: Dict<Characteristic, Group>)
  {
    forall c :: c in groups.m ==> |groups.m[c].0| == |groups.m[c].1|
  }

  /** The size check of `isomorphism`: false as soon as some group has
      different sizes in the two graphs. */
  method CheckBalanced(groups: Dict<Characteristic, Group>) returns (ok: bool)
    requires groups.Valid()
    ensures ok <==> AllBalanced(groups)
  {
    for k := 0 to |groups.keys|
      invariant forall j :: 0 <= j < k ==> |groups.m[groups.keys[j]].0| == |groups.m[groups.keys[j]].1|
    {
      var p := groups.m[groups.keys[k]];
      if |p.0| != |p.1| {
        return false;
      }
    }
    forall c | c in groups.m ensures |groups.m[c].0| == |groups.m[c].1| {
      var j := IndexOf(groups.keys, c);
    }
    return true;
  }

  /** `groups.values()`, in key order. */
  function Values(groups: Dict<Characteristic, Group>): (r: seq<Group>)
    requires groups.Valid()
    ensures |r| == |groups.keys|
    ensures forall k :: 0 <= k < |r| ==> r[k] == groups.m[groups.keys[k]]
  {
    seq(|groups.keys|, k requires 0 <= k < |groups.keys| => groups.m[groups.keys[k]])
  }

  /** Python's `a < b` on strings: by code point, a proper prefix first. */
  predicate StrBefore(a: string, b: string)
  {
    if a == [] then b != []
    else if b == [] then false
    else if a[0] != b[0] then a[0] < b[0]
    else StrBefore(a[1..], b[1..])
  }

  /** Python's `a < b` on lists of strings: the first differing entries
      decide, a proper prefix first. */
  predicate ListBefore(a: seq<Node>, b: seq<Node>)
  {
    if a == [] then b != []
    else if b == [] then false
    else if a[0] != b[0] then StrBefore(a[0], b[0])
    else ListBefore(a[1..], b[1..])
  }

  /** Python's `<` on the tuples `(len(A), A, B)` that `isomorphism`
      sorts. */
  predicate GroupBefore(p: Group, q: Group)
  {
    |p.0| < |q.0| || (|p.0| == |q.0| && (ListBefore(p.0, q.0) || (p.0 == q.0 && ListBefore(p.1, q.1))))
  }

  lemma {:induction false} StrIrreflexive(a: string)
    ensures !StrBefore(a, a)
    decreases |a|
  {
    if a != [] {
      StrIrreflexive(a[1..]);
    }
  }

  lemma {:induction false} StrAsymmetric(a: string, b: string)
    ensures StrBefore(a, b) ==> !StrBefore(b, a)
    decreases |a|
  {
    if a != [] && b != [] && a[0] == b[0] {
      StrAsymmetric(a[1..], b[1..]);
    }
  }

  lemma {:induction false} StrTotal(a: string, b: string)
    ensures a != b ==> StrBefore(a, b) || StrBefore(b, a)
    decreases |a|
  {
    if a != [] && b != [] && a[0] == b[0] {
      StrTotal(a[1..], b[1..]);
      if a[1..] == b[1..] {
        assert a == [a[0]] + a[1..] && b == [b[0]] + b[1..];
      }
    }
  }

  lemma {:induction false} StrTransitive(a: string, b: string, c: string)
    ensures StrBefore(a, b) && StrBefore(b, c) ==> StrBefore(a, c)
    decreases |a|
  {
    if a != [] && b != [] && c != [] && a[0] == b[0] && b[0] == c[0] {
      StrTransitive(a[1..], b[1..], c[1..]);
    }
  }

  lemma {:induction false} ListIrreflexive(a: seq<Node>)
    ensures !ListBefore(a, a)
    decreases |a|
  {
    if a != [] {
      ListIrreflexive(a[1..]);
    }
  }

  lemma {:induction false} ListAsymmetric(a: seq<Node>, b: seq<Node>)
    ensures ListBefore(a, b) ==> !ListBefore(b, a)
    decreases |a|
  {
    if a != [] && b != [] {
      if a[0] == b[0] {
        ListAsymmetric(a[1..], b[1..]);
      } else {
        StrAsymmetric(a[0], b[0]);
      }
    }
  }

  lemma {:induction false} ListTotal(a: seq<Node>, b: seq<Node>)
    ensures a != b ==> ListBefore(a, b) || ListBefore(b, a)
    decreases |a|
  {
    if a != [] && b != [] {
      if a[0] == b[0] {
        ListTotal(a[1..], b[1..]);
        if a[1..] == b[1..] {
          assert a == [a[0]] + a[1..] && b == [b[0]] + b[1..];
        }
      } else {
        StrTotal(a[0], b[0]);
      }
    }
  }

  lemma {:induction false} ListTransitive(a: seq<Node>, b: seq<Node>, c: seq<Node>)
    ensures ListBefore(a, b) && ListBefore(b, c) ==> ListBefore(a, c)
    decreases |a|
  {
    if a != [] && b != [] && c != [] {
      if a[0] == b[0] && b[0] == c[0] {
        ListTransitive(a[1..], b[1..], c[1..]);
      } else {
        StrTransitive(a[0], b[0], c[0]);
        StrAsymmetric(a[0], b[0]);
        StrAsymmetric(b[0], c[0]);
      }
    }
  }

  /** Python's tuple order on the groups is a strict total order. */
  lemma GroupBeforeOrder(p: Group, q: Group, r: Group)
    ensures !GroupBefore(p, p)
    ensures GroupBefore(p, q) ==> !GroupBefore(q, p)
    ensures p != q ==> GroupBefore(p, q) || GroupBefore(q, p)
    ensures GroupBefore(p, q) && GroupBefore(q, r) ==> GroupBefore(p, r)
  {
    ListIrreflexive(p.0);
    ListIrreflexive(p.1);
    ListAsymmetric(p.0, q.0);
    ListAsymmetric(p.1, q.1);
    ListTotal(p.0, q.0);
    ListTotal(p.1, q.1);
    ListTransitive(p.0, q.0, r.0);
    ListTransitive(p.1, q.1, r.1);
  }

  /** No entry comes after a later one in Python's order. */
  ghost predicate Ascending(s: seq<Group>)
  {
    forall i, j :: 0 <= i < j < |s| ==> !GroupBefore(s[j], s[i])
  }

  /** One step of insertion: `p` goes in front of the first entry that
      does not come before it. */
  function Insert(p: Group, qs: seq<Group>): (r: seq<Group>)
    ensures multiset(r) == multiset(qs) + multiset{p}
  {
    if qs == [] || !GroupBefore(qs[0], p) then [p] + qs
    else
      assert qs == [qs[0]] + qs[1..];
      [qs[0]] + Insert(p, qs[1..])
  }

  /** `sorted(...)`: an insertion sort that keeps equal entries in their
      original order, as Python's stable sort does. */
  function Sort(ps: seq<Group>): (r: seq<Group>)
    ensures multiset(r) == multiset(ps)
  {
    if ps == [] then []
    else
      assert ps == [ps[0]] + ps[1..];
      Insert(ps[0], Sort(ps[1..]))
  }

  lemma {:induction false} InsertAscending(p: Group, qs: seq<Group>)
    requires Ascending(qs)
    ensures Ascending(Insert(p, qs))
    decreases |qs|
  {
    if qs == [] || !GroupBefore(qs[0], p) {
      var r := [p] + qs;
      forall i, j | 0 <= i < j < |r| ensures !GroupBefore(r[j], r[i]) {
        if i == 0 {
          GroupBeforeOrder(p, qs[0], r[j]);
          GroupBeforeOrder(r[j], qs[0], p);
          GroupBeforeOrder(qs[0], r[j], p);
          if j > 1 {
            assert !GroupBefore(r[j], qs[0]);
          }
        }
      }
    } else {
      InsertAscending(p, qs[1..]);
      var rest := Insert(p, qs[1..]);
      var r := [qs[0]] + rest;
      forall i, j | 0 <= i < j < |r| ensures !GroupBefore(r[j], r[i]) {
        if i == 0 {
          assert r[j] in multiset(rest);
          assert r[j] in multiset(qs[1..]) + multiset{p};
          if r[j] == p {
            GroupBeforeOrder(qs[0], p, p);
          } else {
            assert r[j] in qs[1..];
            var m :| 0 <= m < |qs[1..]| && qs[1..][m] == r[j];
            assert qs[m + 1] == r[j];
          }
        }
      }
    }
  }

  /** The sort returns its input rearranged into Python's order. */
  lemma {:induction false} SortAscending(ps: seq<Group>)
    ensures Ascending(Sort(ps))
    decreases |ps|
  {
    if ps != [] {
      SortAscending(ps[1..]);
      InsertAscending(ps[0], Sort(ps[1..]));
    }
  }
}
