/** `isomorphism`: after grouping the vertices of both graphs by their
    characteristic, a backtracking search assigns to each vertex of the
    first graph, group by group, an unused vertex of the second graph of
    the same group, checking adjacency against the vertices already
    assigned. The search keeps the partial assignment in two
    dictionaries, `phi` and its inverse `rev`, that it updates in place
    and undoes on backtracking. */
module Isomorphism {
  import opened Base
  import opened CommonMixin
  import opened Characteristics
  import opened Renaming

  /** The partial assignment: `phi` from the first graph to the second,
      `rev` back. */
  datatype Match = Match(phi: map<Node, Node>, rev: map<Node, Node>)

  /** `phi[x] = y` and `rev[y] = x`. */
  function Extend(st: Match, x: Node, y: Node): Match
  {
    Match(st.phi[x := y], st.rev[y := x])
  }

  /** `phi.pop(x)` and `rev.pop(y)`. */
  function Retract(st: Match, x: Node, y: Node): Match
  {
    Match(st.phi - {x}, st.rev - {y})
  }

  /** Every group lists vertices of the right graph. */
  ghost predicate Placed(g1: View, g2: View, groups: seq<Group>)
  {
    forall k :: 0 <= k < |groups| ==> Within(g1, groups[k].0) && Within(g2, groups[k].1)
  }

  /** No vertex of the first graph is listed twice. */
  ghost predicate Separate(groups: seq<Group>)
  {
    (forall k :: 0 <= k < |groups| ==> Distinct(groups[k].0)) &&
    (forall k, l :: 0 <= k < l < |groups| ==> Elems(groups[k].0) !! Elems(groups[l].0))
  }

  /** `rec(k, i)` is about to place the `i`-th vertex of group `k`. */
  predicate At(groups: seq<Group>, k: nat, i: nat)
  {
    k <= |groups| && if k == |groups| then i == 0 else i <= |groups[k].0|
  }

  /** The first-graph vertices of group `k` and of every later group. */
  function Later(groups: seq<Group>, k: nat): set<Node>
    requires k <= |groups|
    decreases |groups| - k
  {
    if k == |groups| then {} else Elems(groups[k].0) + Later(groups, k + 1)
  }

  /** The number of first-graph vertices of group `k` and later ones. */
  function Total(groups: seq<Group>, k: nat): nat
    requires k <= |groups|
    decreases |groups| - k
  {
    if k == |groups| then 0 else |groups[k].0| + Total(groups, k + 1)
  }

  /** The first-graph vertices `rec(k, i)` and the calls it makes still
      have to place. */
  function Unplaced(groups: seq<Group>, k: nat, i: nat): set<Node>
    requires At(groups, k, i)
  {
    if k == |groups| then {} else Elems(groups[k].0[i..]) + Later(groups, k + 1)
  }

  /** `good(x, y)`, asked right after `phi[x] = y` and `rev[y] = x`: every
      assigned neighbour of `x` has an image joined by an edge to the
      image of `x`, and every assigned neighbour of `y` a preimage joined
      to the preimage of `y`. */
  predicate Fits(g1: View, g2: View, st: Match, x: Node, y: Node)
    requires x in g1.adj && y in g2.adj && x in st.phi && y in st.rev
  {
    (forall z :: z in g1.adj[x] && z in st.phi ==> g2.HasEdge((st.phi[x], st.phi[z]))) &&
    (forall z :: z in g2.adj[y] && z in st.rev ==> g1.HasEdge((st.rev[y], st.rev[z])))
  }

  /** What `rec(k, i)` returns from the assignment `st`, and the
      assignment it leaves when it succeeds. */
  function Search(g1: View, g2: View, groups: seq<Group>, k: nat, i: nat, st: Match): Option<Match>
    requires Placed(g1, g2, groups) && At(groups, k, i)
    decreases Total(groups, k) - i, |groups| - k, 1, 0
  {
    if k == |groups| then Some(st)
    else if i == |groups[k].0| then Search(g1, g2, groups, k + 1, 0, st)
    else Try(g1, g2, groups, k, i, 0, st)
  }

  /** The loop of `rec(k, i)` over the candidates `B[j..]` for `x = A[i]`. */
  function Try(g1: View, g2: View, groups: seq<Group>, k: nat, i: nat, j: nat, st: Match): Option<Match>
    requires Placed(g1, g2, groups) && k < |groups| && i < |groups[k].0| && j <= |groups[k].1|
    decreases Total(groups, k) - i, |groups| - k, 0, |groups[k].1| - j
  {
    if j == |groups[k].1| then None
    else
      var x, y := groups[k].0[i], groups[k].1[j];
      if y in st.rev then Try(g1, g2, groups, k, i, j + 1, st)
      else
        var next := Extend(st, x, y);
        var r := if Fits(g1, g2, next, x, y) then Search(g1, g2, groups, k, i + 1, next) else None;
        if r.Some? then r else Try(g1, g2, groups, k, i, j + 1, Retract(next, x, y))
  }

  /** A vertex is in `Later(groups, k)` exactly when some group from `k`
      on lists it. */
  lemma {:induction false} LaterMeans(groups: seq<Group>, k: nat, x: Node)
    requires k <= |groups|
    ensures x in Later(groups, k) <==> exists l :: k <= l < |groups| && x in groups[l].0
    decreases |groups| - k
  {
    if k < |groups| {
      LaterMeans(groups, k + 1, x);
      if x in groups[k].0 {
        assert k <= k < |groups| && x in groups[k].0;
      }
    }
  }

  /** Placing `A[i]` removes exactly it from the vertices still to be
      placed. */
  lemma UnplacedStep(groups: seq<Group>, k: nat, i: nat)
    requires Separate(groups) && k < |groups| && i < |groups[k].0|
    ensures Unplaced(groups, k, i) == {groups[k].0[i]} + Unplaced(groups, k, i + 1)
    ensures groups[k].0[i] !in Unplaced(groups, k, i + 1)
  {
    var a, x := groups[k].0, groups[k].0[i];
    assert a[i..] == [x] + a[i + 1..];
    assert x !in a[i + 1..];
    forall l | k + 1 <= l < |groups| ensures x !in groups[l].0 {
      assert Elems(groups[k].0) !! Elems(groups[l].0);
    }
    LaterMeans(groups, k + 1, x);
  }

  /** The vertex to place next is unassigned and belongs to the first
      graph. */
  lemma NextFree(g1: View, g2: View, groups: seq<Group>, k: nat, i: nat, st: Match)
    requires Placed(g1, g2, groups) && Separate(groups) && k < |groups| && i < |groups[k].0|
    requires Partial(g1, g2, groups, k, i, st)
    ensures groups[k].0[i] !in st.phi && groups[k].0[i] in g1.adj
  {
    UnplacedStep(groups, k, i);
    assert groups[k].0[i] in Unplaced(groups, k, i);
    assert Within(g1, groups[k].0);
  }

  /** Finishing group `k` moves on to group `k + 1` with the same
      vertices left. */
  lemma UnplacedNext(groups: seq<Group>, k: nat)
    requires k < |groups|
    ensures Unplaced(groups, k, |groups[k].0|) == Unplaced(groups, k + 1, 0)
  {
    if k + 1 < |groups| {
      assert groups[k + 1].0[0..] == groups[k + 1].0;
    }
  }

  /** `rev` is the inverse of `phi`. */
  ghost predicate Inverse(st: Match)
  {
    (forall x :: x in st.phi ==> st.phi[x] in st.rev && st.rev[st.phi[x]] == x) &&
    (forall y :: y in st.rev ==> st.rev[y] in st.phi && st.phi[st.rev[y]] == y)
  }

  /** What holds of the assignment whenever `rec(k, i)` is entered: it
      covers exactly the first-graph vertices placed so far, sends them
      one to one into the second graph, and `rev` inverts it. */
  ghost predicate Partial(g1: View, g2: View, groups: seq<Group>, k: nat, i: nat, st: Match)
    requires At(groups, k, i)
  {
    st.phi.Keys !! Unplaced(groups, k, i) &&
    st.phi.Keys + Unplaced(groups, k, i) == Later(groups, 0) &&
    st.phi.Keys <= g1.adj.Keys && st.rev.Keys <= g2.adj.Keys &&
    Inverse(st)
  }

  /** The start of the search: nothing assigned. */
  lemma PartialStart(g1: View, g2: View, groups: seq<Group>)
    requires Placed(g1, g2, groups)
    ensures Partial(g1, g2, groups, 0, 0, Match(map[], map[]))
  {
    if groups != [] {
      assert groups[0].0[0..] == groups[0].0;
    }
  }

  /** A fresh pair keeps `rev` the inverse of `phi`. */
  lemma InverseExtend(st: Match, x: Node, y: Node)
    requires Inverse(st) && x !in st.phi && y !in st.rev
    ensures Inverse(Extend(st, x, y))
  {
    var next := Extend(st, x, y);
    forall u | u in next.phi ensures next.phi[u] in next.rev && next.rev[next.phi[u]] == u {
      if u != x {
        assert st.phi[u] in st.rev;
      }
    }
    forall v | v in next.rev ensures next.rev[v] in next.phi && next.phi[next.rev[v]] == v {
      if v != y {
        assert st.rev[v] in st.phi;
      }
    }
  }

  /** A fresh key adds itself to the keys. */
  lemma AddKey(m: map<Node, Node>, x: Node, y: Node)
    requires x !in m
    ensures m[x := y].Keys == m.Keys + {x}
  {
  }

  /** Assigning `y` to `A[i]` keeps the assignment partial at the next
      position. */
  lemma Assign(g1: View, g2: View, groups: seq<Group>, k: nat, i: nat, st: Match, y: Node)
    requires Placed(g1, g2, groups) && Separate(groups)
    requires k < |groups| && i < |groups[k].0| && y in groups[k].1 && y !in st.rev
    requires Partial(g1, g2, groups, k, i, st)
    ensures groups[k].0[i] !in st.phi
    ensures Partial(g1, g2, groups, k, i + 1, Extend(st, groups[k].0[i], y))
  {
    var x := groups[k].0[i];
    var next := Extend(st, x, y);
    UnplacedStep(groups, k, i);
    var before, after := Unplaced(groups, k, i), Unplaced(groups, k, i + 1);
    assert x in before;
    InverseExtend(st, x, y);
    AddKey(st.phi, x, y);
    AddKey(st.rev, y, x);
    MoveOne(st.phi.Keys, before, after, x, Later(groups, 0));
    assert Within(g1, groups[k].0) && Within(g2, groups[k].1);
    assert x in groups[k].0;
  }

  /** Moving `x` from the unplaced vertices to the placed ones keeps the
      two apart and their union the same. */
  lemma MoveOne(placed: set<Node>, before: set<Node>, after: set<Node>, x: Node, all: set<Node>)
    requires placed !! before && placed + before == all && before == {x} + after && x !in after
    ensures x !in placed && placed + {x} !! after && (placed + {x}) + after == all
  {
  }

  /** Undoing an assignment just made restores the assignment before it. */
  lemma RetractExtend(st: Match, x: Node, y: Node)
    requires x !in st.phi && y !in st.rev
    ensures Retract(Extend(st, x, y), x, y) == st
  {
    assert st.phi[x := y] - {x} == st.phi;
    assert st.rev[y := x] - {y} == st.rev;
  }

  /** A candidate that already has a preimage is passed over. */
  lemma TrySkip(g1: View, g2: View, groups: seq<Group>, k: nat, i: nat, j: nat, st: Match)
    requires Placed(g1, g2, groups) && k < |groups| && i < |groups[k].0| && j < |groups[k].1|
    requires groups[k].1[j] in st.rev
    ensures Try(g1, g2, groups, k, i, j, st) == Try(g1, g2, groups, k, i, j + 1, st)
  {
  }

  /** A fresh candidate is kept when it fits and the rest of the search
      succeeds from it; otherwise the loop goes on from the assignment it
      started with. */
  lemma TryFresh(g1: View, g2: View, groups: seq<Group>, k: nat, i: nat, j: nat, st: Match)
    requires Placed(g1, g2, groups) && k < |groups| && i < |groups[k].0| && j < |groups[k].1|
    requires groups[k].0[i] in g1.adj && groups[k].1[j] in g2.adj
    requires groups[k].0[i] !in st.phi && groups[k].1[j] !in st.rev
    ensures var x, y := groups[k].0[i], groups[k].1[j];
            var next := Extend(st, x, y);
            Try(g1, g2, groups, k, i, j, st) ==
              if Fits(g1, g2, next, x, y) && Search(g1, g2, groups, k, i + 1, next).Some?
              then Search(g1, g2, groups, k, i + 1, next)
              else Try(g1, g2, groups, k, i, j + 1, st)
  {
    RetractExtend(st, groups[k].0[i], groups[k].1[j]);
  }

  /** After `phi[x] = y` the keys of `phi` still avoid the vertices left
      to place. */
  lemma FreshAfter(m: map<Node, Node>, x: Node, y: Node, before: set<Node>, after: set<Node>)
    requires m.Keys !! before && before == {x} + after && x !in after
    ensures x !in m && m[x := y].Keys !! after
  {
    AddKey(m, x, y);
  }

  /** One step of insertion keeps the groups apart when the new group is
      apart from all the others. */
  lemma {:induction false} InsertSeparate(p: Group, qs: seq<Group>)
    requires Distinct(p.0) && Separate(qs)
    requires forall q :: q in qs ==> Elems(p.0) !! Elems(q.0)
    ensures Separate(Insert(p, qs))
    decreases |qs|
  {
    var r := Insert(p, qs);
    forall q | q in r ensures Distinct(q.0) {
      assert q in multiset(qs) + multiset{p};
      if q != p {
        var m :| 0 <= m < |qs| && qs[m] == q;
      }
    }
    if qs == [] || !GroupBefore(qs[0], p) {
      forall k, l | 0 <= k < l < |r| ensures Elems(r[k].0) !! Elems(r[l].0) {
        if k == 0 {
          assert r[l] == qs[l - 1];
        } else {
          assert r[k] == qs[k - 1] && r[l] == qs[l - 1];
        }
      }
    } else {
      assert Separate(qs[1..]);
      InsertSeparate(p, qs[1..]);
      var rest := Insert(p, qs[1..]);
      forall k, l | 0 <= k < l < |r| ensures Elems(r[k].0) !! Elems(r[l].0) {
        if k == 0 {
          assert r[l] == rest[l - 1];
          assert r[l] in multiset(qs[1..]) + multiset{p};
          if r[l] != p {
            var m :| 0 <= m < |qs[1..]| && qs[1..][m] == r[l];
            assert qs[m + 1] == r[l];
          }
        } else {
          assert r[k] == rest[k - 1] && r[l] == rest[l - 1];
        }
      }
    }
  }

  /** Sorting keeps the groups apart. */
  lemma {:induction false} SortSeparate(ps: seq<Group>)
    requires Separate(ps)
    ensures Separate(Sort(ps))
    decreases |ps|
  {
    if ps != [] {
      assert Separate(ps[1..]);
      SortSeparate(ps[1..]);
      forall q | q in Sort(ps[1..]) ensures Elems(ps[0].0) !! Elems(q.0) {
        assert q in multiset(ps[1..]);
        var m :| 0 <= m < |ps[1..]| && ps[1..][m] == q;
        assert ps[m + 1] == q;
      }
      InsertSeparate(ps[0], Sort(ps[1..]));
    }
  }

  /** The groups of both graphs, in the order `rec` visits them. */
  function Layout(g1: View, g2: View): (s: seq<Group>)
    requires g1.WF() && g2.WF()
    ensures Placed(g1, g2, s) && Separate(s) && Later(s, 0) == g1.adj.Keys
  {
    GroupedMeaning(g1, g2);
    LayoutShape(g1, g2);
    Sort(Values(Grouped(g1, g2)))
  }

  /** Every group of the layout is the pair of member lists of one
      characteristic. */
  lemma GroupOf(g1: View, g2: View, p: Group) returns (c: Characteristic)
    requires g1.WF() && g2.WF() && Grouped(g1, g2).Valid()
    requires p in Sort(Values(Grouped(g1, g2)))
    ensures p == (Members(g1, g1.nodes, c), Members(g2, g2.nodes, c))
  {
    var groups := Grouped(g1, g2);
    var vs := Values(groups);
    SortedFrom(vs, p);
    var k := IndexOf(vs, p);
    c := groups.keys[k];
    GroupedMeaning(g1, g2);
  }

  /** Sorting brings in nothing new. */
  lemma SortedFrom(ps: seq<Group>, p: Group)
    requires p in Sort(ps)
    ensures p in ps
  {
    assert p in multiset(Sort(ps));
  }

  /** The group of the characteristic of a vertex is in the layout. */
  lemma GroupAt(g1: View, g2: View, x: Node) returns (l: nat)
    requires g1.WF() && g2.WF() && Grouped(g1, g2).Valid() && x in g1.adj
    ensures l < |Sort(Values(Grouped(g1, g2)))| && x in Sort(Values(Grouped(g1, g2)))[l].0
  {
    var groups := Grouped(g1, g2);
    var c := Char(g1, x);
    GroupedMeaning(g1, g2);
    assert x in Members(g1, g1.nodes, c);
    var k := IndexOf(groups.keys, c);
    assert Values(groups)[k] in multiset(Sort(Values(groups)));
    l :| 0 <= l < |Sort(Values(groups))| && Sort(Values(groups))[l] == Values(groups)[k];
  }

  /** The groups in key order are apart: a vertex has one
      characteristic. */
  lemma ValuesSeparate(g1: View, g2: View)
    requires g1.WF() && g2.WF() && Grouped(g1, g2).Valid()
    ensures Separate(Values(Grouped(g1, g2)))
  {
    var groups := Grouped(g1, g2);
    var vs := Values(groups);
    GroupedMeaning(g1, g2);
    forall k | 0 <= k < |vs| ensures Distinct(vs[k].0) {
      assert vs[k] == (Members(g1, g1.nodes, groups.keys[k]), Members(g2, g2.nodes, groups.keys[k]));
    }
    forall k, l | 0 <= k < l < |vs| ensures Elems(vs[k].0) !! Elems(vs[l].0) {
      assert groups.keys[k] != groups.keys[l];
      assert vs[k].0 == Members(g1, g1.nodes, groups.keys[k]);
      assert vs[l].0 == Members(g1, g1.nodes, groups.keys[l]);
    }
  }

  /** The layout lists every vertex of `g1` exactly once and only
      vertices of the graph each side belongs to. */
  lemma LayoutShape(g1: View, g2: View)
    requires g1.WF() && g2.WF() && Grouped(g1, g2).Valid()
    ensures Placed(g1, g2, Sort(Values(Grouped(g1, g2))))
    ensures Separate(Sort(Values(Grouped(g1, g2))))
    ensures Later(Sort(Values(Grouped(g1, g2))), 0) == g1.adj.Keys
  {
    var s := Sort(Values(Grouped(g1, g2)));
    forall k | 0 <= k < |s| ensures Within(g1, s[k].0) && Within(g2, s[k].1) {
      var c := GroupOf(g1, g2, s[k]);
    }
    ValuesSeparate(g1, g2);
    SortSeparate(Values(Grouped(g1, g2)));
    forall x ensures x in Later(s, 0) <==> x in g1.adj {
      LaterMeans(s, 0, x);
      if x in g1.adj {
        var l := GroupAt(g1, g2, x);
      }
      if x in Later(s, 0) {
        var l :| 0 <= l < |s| && x in s[l].0;
        var c := GroupOf(g1, g2, s[l]);
      }
    }
  }

  /** What `isomorphism` returns: None (the source's `False`) when the
      orders differ, when some group has different sizes in the two
      graphs or when the search fails; otherwise the assignment found. */
  ghost function Outcome(g1: View, g2: View): Option<map<Node, Node>>
    requires g1.WF() && g2.WF()
  {
    if g1.Order() != g2.Order() || !AllBalanced(Grouped(g1, g2)) then None
    else
      match Search(g1, g2, Layout(g1, g2), 0, 0, Match(map[], map[]))
      case Some(st) => Some(st.phi)
      case None => None
  }

  /** `isomorphism(graph_1, graph_2)`. */
  method Isomorphism(g1: View, g2: View) returns (r: Option<map<Node, Node>>)
    requires g1.WF() && g2.WF()
    ensures r == Outcome(g1, g2)
  {
    if g1.Order() != g2.Order() {
      return None;
    }
    var groups := BuildGroups(g1, g2);
    GroupedMeaning(g1, g2);
    var balanced := CheckBalanced(groups);
    if !balanced {
      return None;
    }
    var sorted := Sort(Values(groups));
    assert sorted == Layout(g1, g2);
    var m := new Matcher(g1, g2, sorted);
    var ok := m.Rec(0, 0);
    if ok {
      return Some(m.phi);
    }
    return None;
  }

  /** With edge records that agree with adjacency, a fit pair `x -> y`
      joins `x` to an assigned vertex exactly when `y` is joined to its
      image. */
  lemma FitsEdge(g1: View, g2: View, st: Match, x: Node, y: Node, v: Node)
    requires g1.Tidy() && g2.Tidy() && Inverse(st)
    requires st.phi.Keys <= g1.adj.Keys && st.rev.Keys <= g2.adj.Keys
    requires x in st.phi && st.phi[x] == y && y in g2.adj && v in st.phi
    requires Fits(g1, g2, st, x, y)
    ensures g1.Adjacent(x, v) <==> g2.Adjacent(y, st.phi[v])
  {
    var w := st.phi[v];
    assert st.rev[y] == x && st.rev[w] == v;
    if g1.Adjacent(x, v) {
      assert g2.HasEdge((y, w));
    }
    if g2.Adjacent(y, w) {
      assert g1.HasEdge((x, v));
    }
  }

  /** Adding a fit pair to an assignment that keeps adjacency keeps it,
      for graphs whose adjacency is symmetric and agrees with the edge
      records. */
  lemma ConsistentStep(g1: View, g2: View, st: Match, x: Node, y: Node)
    requires g1.Symmetric() && g2.Symmetric() && g1.Tidy() && g2.Tidy()
    requires Consistent(g1, g2, st.phi) && x !in st.phi
    requires Inverse(Extend(st, x, y))
    requires Extend(st, x, y).phi.Keys <= g1.adj.Keys && Extend(st, x, y).rev.Keys <= g2.adj.Keys
    requires y in g2.adj && Fits(g1, g2, Extend(st, x, y), x, y)
    ensures Consistent(g1, g2, Extend(st, x, y).phi)
  {
    var next := Extend(st, x, y);
    forall u, v | u in next.phi && v in next.phi
      ensures g1.Adjacent(u, v) <==> g2.Adjacent(next.phi[u], next.phi[v])
    {
      if u == x {
        FitsEdge(g1, g2, next, x, y, v);
      } else if v == x {
        FitsEdge(g1, g2, next, x, y, u);
        assert g1.Adjacent(u, x) <==> g1.Adjacent(x, u);
        assert g2.Adjacent(next.phi[u], y) <==> g2.Adjacent(y, next.phi[u]);
      } else {
        assert next.phi[u] == st.phi[u] && next.phi[v] == st.phi[v];
      }
    }
  }

  /** Every assignment the search returns from a partial one covers all
      of the first graph's vertices; for graphs with symmetric adjacency
      that agrees with the edge records, it also keeps adjacency whenever
      the partial one did. */
  lemma {:induction false} SearchSound(g1: View, g2: View, groups: seq<Group>, k: nat, i: nat, st: Match)
    requires Placed(g1, g2, groups) && Separate(groups) && At(groups, k, i)
    requires Partial(g1, g2, groups, k, i, st)
    ensures Search(g1, g2, groups, k, i, st).Some? ==>
              Partial(g1, g2, groups, |groups|, 0, Search(g1, g2, groups, k, i, st).value)
    ensures Search(g1, g2, groups, k, i, st).Some? &&
            g1.Symmetric() && g2.Symmetric() && g1.Tidy() && g2.Tidy() && Consistent(g1, g2, st.phi) ==>
              Consistent(g1, g2, Search(g1, g2, groups, k, i, st).value.phi)
    decreases Total(groups, k) - i, |groups| - k, 1, 0
  {
    if k == |groups| {
    } else if i == |groups[k].0| {
      UnplacedNext(groups, k);
      SearchSound(g1, g2, groups, k + 1, 0, st);
    } else {
      TrySound(g1, g2, groups, k, i, 0, st);
    }
  }

  /** The loop over the candidates `B[j..]` keeps the same promise. */
  lemma {:induction false} TrySound(g1: View, g2: View, groups: seq<Group>, k: nat, i: nat, j: nat, st: Match)
    requires Placed(g1, g2, groups) && Separate(groups)
    requires k < |groups| && i < |groups[k].0| && j <= |groups[k].1|
    requires Partial(g1, g2, groups, k, i, st)
    ensures Try(g1, g2, groups, k, i, j, st).Some? ==>
              Partial(g1, g2, groups, |groups|, 0, Try(g1, g2, groups, k, i, j, st).value)
    ensures Try(g1, g2, groups, k, i, j, st).Some? &&
            g1.Symmetric() && g2.Symmetric() && g1.Tidy() && g2.Tidy() && Consistent(g1, g2, st.phi) ==>
              Consistent(g1, g2, Try(g1, g2, groups, k, i, j, st).value.phi)
    decreases Total(groups, k) - i, |groups| - k, 0, |groups[k].1| - j
  {
    if j < |groups[k].1| {
      var x, y := groups[k].0[i], groups[k].1[j];
      if y in st.rev {
        TrySkip(g1, g2, groups, k, i, j, st);
        TrySound(g1, g2, groups, k, i, j + 1, st);
      } else {
        var next := Extend(st, x, y);
        Assign(g1, g2, groups, k, i, st, y);
        assert Within(g1, groups[k].0) && Within(g2, groups[k].1);
        TryFresh(g1, g2, groups, k, i, j, st);
        if Fits(g1, g2, next, x, y) && Search(g1, g2, groups, k, i + 1, next).Some? {
          SearchSound(g1, g2, groups, k, i + 1, next);
          if g1.Symmetric() && g2.Symmetric() && g1.Tidy() && g2.Tidy() && Consistent(g1, g2, st.phi) {
            ConsistentStep(g1, g2, st, x, y);
          }
        } else {
          TrySound(g1, g2, groups, k, i, j + 1, st);
        }
      }
    }
  }

  /** The assignment agrees with `sigma` wherever it is defined. */
  ghost predicate Agrees(st: Match, sigma: map<Node, Node>)
  {
    forall x :: x in st.phi ==> x in sigma && st.phi[x] == sigma[x]
  }

  /** `sigma` sends the first-graph vertices of every group to
      second-graph vertices of the same group. */
  ghost predicate Respects(groups: seq<Group>, sigma: map<Node, Node>)
  {
    forall k, x :: 0 <= k < |groups| && x in groups[k].0 ==> x in sigma && sigma[x] in groups[k].1
  }

  /** An isomorphism that extends the assignment passes `good` on the
      pair just added, when the edge records agree with adjacency. */
  lemma FitsFromIso(g1: View, g2: View, st: Match, x: Node, y: Node, sigma: map<Node, Node>)
    requires g1.Tidy() && g2.Tidy() && IsIsomorphism(g1, g2, sigma)
    requires Agrees(st, sigma) && Inverse(st)
    requires x in g1.adj && y in g2.adj && x in st.phi && st.phi[x] == y
    ensures y in st.rev && Fits(g1, g2, st, x, y)
  {
    forall z | z in g1.adj[x] && z in st.phi ensures g2.HasEdge((st.phi[x], st.phi[z])) {
      assert g1.Adjacent(x, z);
      assert sigma[z] in g2.adj;
    }
    forall z | z in g2.adj[y] && z in st.rev ensures g1.HasEdge((st.rev[y], st.rev[z])) {
      var w := st.rev[z];
      assert st.phi[w] == z && sigma[w] == z;
      assert g2.Adjacent(sigma[x], sigma[w]);
    }
  }

  /** When an isomorphism respecting the groups extends the partial
      assignment, the search succeeds. */
  lemma {:induction false} SearchFinds(g1: View, g2: View, groups: seq<Group>, k: nat, i: nat, st: Match, sigma: map<Node, Node>)
    requires g1.Tidy() && g2.Tidy() && IsIsomorphism(g1, g2, sigma)
    requires Placed(g1, g2, groups) && Separate(groups) && At(groups, k, i)
    requires Partial(g1, g2, groups, k, i, st) && Respects(groups, sigma) && Agrees(st, sigma)
    ensures Search(g1, g2, groups, k, i, st).Some?
    decreases Total(groups, k) - i, |groups| - k, 1, 0, 0
  {
    if k == |groups| {
    } else if i == |groups[k].0| {
      UnplacedNext(groups, k);
      SearchFinds(g1, g2, groups, k + 1, 0, st, sigma);
    } else {
      assert groups[k].1[0..] == groups[k].1;
      TryFinds(g1, g2, groups, k, i, 0, st, sigma);
    }
  }

  /** A candidate already taken by another vertex is not the image of
      an unplaced vertex under an injective `sigma` that the assignment
      agrees with. */
  lemma TakenNotImage(st: Match, sigma: map<Node, Node>, x: Node, y: Node)
    requires Inverse(st) && Agrees(st, sigma) && Injective(sigma)
    requires x in sigma && x !in st.phi && sigma[x] == y
    ensures y !in st.rev
  {
    forall z | z in st.rev ensures z != y {
      var w := st.rev[z];
      assert w in st.phi && sigma[w] == z && w != x;
    }
  }

  lemma NextCandidate(b: seq<Node>, j: nat, t: Node)
    requires j < |b| && t in b[j..] && t != b[j]
    ensures t in b[j + 1..]
  {
    assert b[j..] == [b[j]] + b[j + 1..];
  }

  lemma AgreesExtend(st: Match, sigma: map<Node, Node>, x: Node)
    requires Agrees(st, sigma) && x in sigma
    ensures Agrees(Extend(st, x, sigma[x]), sigma)
  {
  }

  /** The same for the loop over `B[j..]`, while the image of `A[i]` is
      among the candidates left. */
  lemma {:induction false} TryFinds(g1: View, g2: View, groups: seq<Group>, k: nat, i: nat, j: nat, st: Match, sigma: map<Node, Node>)
    requires g1.Tidy() && g2.Tidy() && IsIsomorphism(g1, g2, sigma)
    requires Placed(g1, g2, groups) && Separate(groups)
    requires k < |groups| && i < |groups[k].0| && j <= |groups[k].1|
    requires Partial(g1, g2, groups, k, i, st) && Respects(groups, sigma) && Agrees(st, sigma)
    requires groups[k].0[i] in sigma && sigma[groups[k].0[i]] in groups[k].1[j..]
    ensures Try(g1, g2, groups, k, i, j, st).Some?
    decreases Total(groups, k) - i, |groups| - k, 0, |groups[k].1| - j, 1
  {
    var x, y := groups[k].0[i], groups[k].1[j];
    if sigma[x] == y {
      NextFree(g1, g2, groups, k, i, st);
      HitStep(g1, g2, st, sigma, x, y);
      Assign(g1, g2, groups, k, i, st, y);
      SearchFinds(g1, g2, groups, k, i + 1, Extend(st, x, y), sigma);
      assert Within(g2, groups[k].1);
      TryFresh(g1, g2, groups, k, i, j, st);
    } else if y in st.rev {
      NextCandidate(groups[k].1, j, sigma[x]);
      TrySkip(g1, g2, groups, k, i, j, st);
      TryFinds(g1, g2, groups, k, i, j + 1, st, sigma);
    } else {
      TryPass(g1, g2, groups, k, i, j, st, sigma);
    }
  }

  /** A free candidate other than the image of `A[i]`: whether or not it
      leads anywhere, a later candidate does. */
  lemma {:induction false} TryPass(g1: View, g2: View, groups: seq<Group>, k: nat, i: nat, j: nat, st: Match, sigma: map<Node, Node>)
    requires g1.Tidy() && g2.Tidy() && IsIsomorphism(g1, g2, sigma)
    requires Placed(g1, g2, groups) && Separate(groups)
    requires k < |groups| && i < |groups[k].0| && j < |groups[k].1|
    requires Partial(g1, g2, groups, k, i, st) && Respects(groups, sigma) && Agrees(st, sigma)
    requires groups[k].0[i] in sigma && sigma[groups[k].0[i]] in groups[k].1[j..]
    requires sigma[groups[k].0[i]] != groups[k].1[j] && groups[k].1[j] !in st.rev
    ensures Try(g1, g2, groups, k, i, j, st).Some?
    decreases Total(groups, k) - i, |groups| - k, 0, |groups[k].1| - j, 0
  {
    var x, y := groups[k].0[i], groups[k].1[j];
    var next := Extend(st, x, y);
    NextCandidate(groups[k].1, j, sigma[x]);
    Assign(g1, g2, groups, k, i, st, y);
    assert Within(g1, groups[k].0) && Within(g2, groups[k].1);
    TryFresh(g1, g2, groups, k, i, j, st);
    if !(Fits(g1, g2, next, x, y) && Search(g1, g2, groups, k, i + 1, next).Some?) {
      TryFinds(g1, g2, groups, k, i, j + 1, st, sigma);
    }
  }

  /** Giving an unplaced vertex its image under `sigma` keeps agreement
      and passes `good`. */
  lemma HitStep(g1: View, g2: View, st: Match, sigma: map<Node, Node>, x: Node, y: Node)
    requires g1.Tidy() && g2.Tidy() && IsIsomorphism(g1, g2, sigma)
    requires Agrees(st, sigma) && Inverse(st) && x in g1.adj && x !in st.phi
    requires x in sigma && sigma[x] == y
    ensures y !in st.rev && Agrees(Extend(st, x, y), sigma) && Fits(g1, g2, Extend(st, x, y), x, y)
  {
    assert y in sigma.Values;
    TakenNotImage(st, sigma, x, y);
    InverseExtend(st, x, y);
    AgreesExtend(st, sigma, x);
    FitsFromIso(g1, g2, Extend(st, x, y), x, y, sigma);
  }

  /** The state `good` and `rec` share: the two graphs, the sorted groups
      and the assignment under construction. */
  class Matcher {
    const g1: View
    const g2: View
    const groups: seq<Group>
    var phi: map<Node, Node>
    var rev: map<Node, Node>

    constructor (g1: View, g2: View, groups: seq<Group>)
      ensures this.g1 == g1 && this.g2 == g2 && this.groups == groups
      ensures phi == map[] && rev == map[]
    {
      this.g1 := g1;
      this.g2 := g2;
      this.groups := groups;
      phi := map[];
      rev := map[];
    }

    /** `good(x, y)`: false at the first assigned neighbour whose image,
        or preimage, is not joined by an edge. */
    method Good(x: Node, y: Node) returns (ok: bool)
      requires x in g1.adj && y in g2.adj && x in phi && y in rev
      ensures ok == Fits(g1, g2, Match(phi, rev), x, y)
    {
      var xs := g1.adj[x];
      for n := 0 to |xs|
        invariant forall z :: z in xs[..n] && z in phi ==> g2.HasEdge((phi[x], phi[z]))
      {
        if xs[n] in phi && !g2.HasEdge((phi[x], phi[xs[n]])) {
          return false;
        }
      }
      assert xs[..|xs|] == xs;
      var ys := g2.adj[y];
      for n := 0 to |ys|
        invariant forall z :: z in ys[..n] && z in rev ==> g1.HasEdge((rev[y], rev[z]))
      {
        if ys[n] in rev && !g1.HasEdge((rev[y], rev[ys[n]])) {
          return false;
        }
      }
      assert ys[..|ys|] == ys;
      return true;
    }

    /** `rec(k, i)`: succeeds once every group is done, moves to the next
        group when this one is, and otherwise tries candidates for the
        `i`-th vertex of group `k`. When it fails it leaves the
        assignment as it found it. */
    method Rec(k: nat, i: nat) returns (ok: bool)
      requires Placed(g1, g2, groups) && Separate(groups) && At(groups, k, i)
      requires phi.Keys !! Unplaced(groups, k, i)
      modifies this
      ensures ok == Search(g1, g2, groups, k, i, old(Match(phi, rev))).Some?
      ensures ok ==> Match(phi, rev) == Search(g1, g2, groups, k, i, old(Match(phi, rev))).value
      ensures !ok ==> phi == old(phi) && rev == old(rev)
      decreases Total(groups, k) - i, |groups| - k, 2
    {
      if k == |groups| {
        return true;
      }
      if i == |groups[k].0| {
        UnplacedNext(groups, k);
        ok := Rec(k + 1, 0);
        return;
      }
      ok := Place(k, i);
    }

    /** The loop of `rec(k, i)`: tries the candidates of group `k` for its
        `i`-th vertex in order, skips those already used, and stops at the
        first that fits and lets the rest of the search succeed. */
    method Place(k: nat, i: nat) returns (ok: bool)
      requires Placed(g1, g2, groups) && Separate(groups) && k < |groups| && i < |groups[k].0|
      requires phi.Keys !! Unplaced(groups, k, i)
      modifies this
      ensures ok == Try(g1, g2, groups, k, i, 0, old(Match(phi, rev))).Some?
      ensures ok ==> Match(phi, rev) == Try(g1, g2, groups, k, i, 0, old(Match(phi, rev))).value
      ensures !ok ==> phi == old(phi) && rev == old(rev)
      decreases Total(groups, k) - i, |groups| - k, 1
    {
      var b := groups[k].1;
      ghost var start := Match(phi, rev);
      ghost var outcome := Try(g1, g2, groups, k, i, 0, start);
      for j := 0 to |b|
        invariant Match(phi, rev) == start
        invariant Try(g1, g2, groups, k, i, j, start) == outcome
      {
        if b[j] in rev {
          TrySkip(g1, g2, groups, k, i, j, start);
        } else {
          ok := Attempt(k, i, j);
          if ok {
            return;
          }
        }
      }
      return false;
    }

    /** One pass of that loop on a fresh candidate `y = B[j]`: `phi[x] = y`
        and `rev[y] = x`, then `good(x, y) and rec(k, i + 1)`, and
        `phi.pop(x)` and `rev.pop(y)` when that fails. */
    method Attempt(k: nat, i: nat, j: nat) returns (ok: bool)
      requires Placed(g1, g2, groups) && Separate(groups) && k < |groups| && i < |groups[k].0| && j < |groups[k].1|
      requires phi.Keys !! Unplaced(groups, k, i) && groups[k].1[j] !in rev
      modifies this
      ensures ok ==> Try(g1, g2, groups, k, i, j, old(Match(phi, rev))) == Some(Match(phi, rev))
      ensures !ok ==> phi == old(phi) && rev == old(rev) &&
                      Try(g1, g2, groups, k, i, j, old(Match(phi, rev))) == Try(g1, g2, groups, k, i, j + 1, old(Match(phi, rev)))
      decreases Total(groups, k) - i, |groups| - k, 0
    {
      var x, y := groups[k].0[i], groups[k].1[j];
      ghost var start := Match(phi, rev);
      UnplacedStep(groups, k, i);
      assert Within(g1, groups[k].0) && Within(g2, groups[k].1);
      assert x in Unplaced(groups, k, i);
      TryFresh(g1, g2, groups, k, i, j, start);
      FreshAfter(phi, x, y, Unplaced(groups, k, i), Unplaced(groups, k, i + 1));
      phi := phi[x := y];
      rev := rev[y := x];
      var fits := Good(x, y);
      if fits {
        ok := Rec(k, i + 1);
        if ok {
          return;
        }
      }
      phi := phi - {x};
      rev := rev - {y};
      RetractExtend(start, x, y);
      return false;
    }
  }

  /** The layout groups vertices by characteristic, and an isomorphism
      keeps characteristics, so it sends every group into itself. */
  lemma LayoutRespects(g1: View, g2: View, sigma: map<Node, Node>)
    requires g1.WF() && g2.WF() && IsIsomorphism(g1, g2, sigma)
    ensures Respects(Layout(g1, g2), sigma)
  {
    var s := Layout(g1, g2);
    GroupedMeaning(g1, g2);
    forall k, x | 0 <= k < |s| && x in s[k].0 ensures x in sigma && sigma[x] in s[k].1 {
      var c := GroupOf(g1, g2, s[k]);
      MemberImage(g1, g2, sigma, c, x);
    }
  }

  /** A set inside another of the same size is all of it. */
  lemma SubsetFull(a: set<Node>, b: set<Node>)
    requires a <= b && |a| == |b|
    ensures a == b
  {
    assert b == a + (b - a);
    assert |b| == |a| + |b - a|;
  }

  /** A finished assignment is a one-to-one map from all the first
      graph's vertices onto all the second graph's, when the graphs have
      the same order. */
  lemma FinishedBijection(g1: View, g2: View, st: Match)
    requires g1.WF() && g2.WF() && g1.Order() == g2.Order()
    requires st.phi.Keys == g1.adj.Keys && st.rev.Keys <= g2.adj.Keys && Inverse(st)
    ensures Bijection(g1, g2, st.phi)
  {
    forall u, v | u in st.phi && v in st.phi && u != v ensures st.phi[u] != st.phi[v] {
      assert st.rev[st.phi[u]] == u && st.rev[st.phi[v]] == v;
    }
    forall w | w in st.phi.Values ensures w in g2.adj {
      var u :| u in st.phi && st.phi[u] == w;
    }
    InjectiveCard(st.phi);
    OrderIsVertexCount(g1);
    OrderIsVertexCount(g2);
    SubsetFull(st.phi.Values, g2.adj.Keys);
  }

  /** A search from nothing over the layout that succeeds ends with an
      assignment of every first-graph vertex, inverted by `rev`. */
  lemma SearchCovers(g1: View, g2: View, s: seq<Group>)
    requires Placed(g1, g2, s) && Separate(s) && Later(s, 0) == g1.adj.Keys
    ensures var r := Search(g1, g2, s, 0, 0, Match(map[], map[]));
            r.Some? ==> r.value.phi.Keys == g1.adj.Keys && r.value.rev.Keys <= g2.adj.Keys && Inverse(r.value)
  {
    PartialStart(g1, g2, s);
    SearchSound(g1, g2, s, 0, 0, Match(map[], map[]));
  }

  /** Whatever `isomorphism` returns for two well-formed graphs, directed
      or not, is a one-to-one map from all the vertices of the first onto
      all the vertices of the second. */
  lemma OutcomeBijection(g1: View, g2: View)
    requires g1.WF() && g2.WF()
    ensures Outcome(g1, g2).Some? ==> Bijection(g1, g2, Outcome(g1, g2).value)
  {
    if Outcome(g1, g2).Some? {
      SearchCovers(g1, g2, Layout(g1, g2));
      FinishedBijection(g1, g2, Search(g1, g2, Layout(g1, g2), 0, 0, Match(map[], map[])).value);
    }
  }

  /** For undirected graphs (adjacency symmetric and in agreement with
      the edge records), what `isomorphism` returns is an isomorphism. */
  lemma OutcomeSound(g1: View, g2: View)
    requires g1.WF() && g2.WF()
    requires g1.Symmetric() && g2.Symmetric() && g1.Tidy() && g2.Tidy()
    ensures Outcome(g1, g2).Some? ==> IsIsomorphism(g1, g2, Outcome(g1, g2).value)
  {
    OutcomeBijection(g1, g2);
    if Outcome(g1, g2).Some? {
      var s := Layout(g1, g2);
      var empty := Match(map[], map[]);
      PartialStart(g1, g2, s);
      SearchSound(g1, g2, s, 0, 0, empty);
    }
  }

  /** When the edge records agree with adjacency, `isomorphism` finds a
      map whenever an isomorphism exists, directed or not. */
  lemma OutcomeComplete(g1: View, g2: View, sigma: map<Node, Node>)
    requires g1.WF() && g2.WF() && g1.Tidy() && g2.Tidy()
    requires IsIsomorphism(g1, g2, sigma)
    ensures Outcome(g1, g2).Some?
  {
    IsomorphicOrder(g1, g2, sigma);
    IsomorphicBalanced(g1, g2, sigma);
    var s := Layout(g1, g2);
    LayoutRespects(g1, g2, sigma);
    PartialStart(g1, g2, s);
    SearchFinds(g1, g2, s, 0, 0, Match(map[], map[]), sigma);
  }

  /** Every vertex the assignment covers is sent into the second-graph
      list of the group that lists it. */
  ghost predicate InGroups(groups: seq<Group>, phi: map<Node, Node>)
  {
    forall k, x :: 0 <= k < |groups| && x in groups[k].0 && x in phi ==> phi[x] in groups[k].1
  }

  /** Assigning `x = A[i]` of group `k` a candidate `y` of the same group
      keeps every pair inside one group. */
  lemma ExtendInGroups(groups: seq<Group>, phi: map<Node, Node>, k: nat, x: Node, y: Node)
    requires Separate(groups) && k < |groups| && x in groups[k].0 && y in groups[k].1
    requires InGroups(groups, phi)
    ensures InGroups(groups, phi[x := y])
  {
    forall l, z | 0 <= l < |groups| && z in groups[l].0 && z in phi[x := y] ensures phi[x := y][z] in groups[l].1 {
      if z == x {
        assert x in Elems(groups[k].0) && x in Elems(groups[l].0);
      }
    }
  }

  /** Whatever `rec(k, i)` returns keeps every pair inside one group. */
  lemma {:induction false} SearchInGroups(g1: View, g2: View, groups: seq<Group>, k: nat, i: nat, st: Match)
    requires Placed(g1, g2, groups) && Separate(groups) && At(groups, k, i)
    requires InGroups(groups, st.phi)
    ensures Search(g1, g2, groups, k, i, st).Some? ==> InGroups(groups, Search(g1, g2, groups, k, i, st).value.phi)
    decreases Total(groups, k) - i, |groups| - k, 1, 0
  {
    if k == |groups| {
    } else if i == |groups[k].0| {
      SearchInGroups(g1, g2, groups, k + 1, 0, st);
    } else {
      TryInGroups(g1, g2, groups, k, i, 0, st);
    }
  }

  /** The loop over the candidates `B[j..]` keeps the same promise. */
  lemma {:induction false} TryInGroups(g1: View, g2: View, groups: seq<Group>, k: nat, i: nat, j: nat, st: Match)
    requires Placed(g1, g2, groups) && Separate(groups)
    requires k < |groups| && i < |groups[k].0| && j <= |groups[k].1|
    requires InGroups(groups, st.phi)
    ensures Try(g1, g2, groups, k, i, j, st).Some? ==> InGroups(groups, Try(g1, g2, groups, k, i, j, st).value.phi)
    decreases Total(groups, k) - i, |groups| - k, 0, |groups[k].1| - j
  {
    if j < |groups[k].1| {
      var x, y := groups[k].0[i], groups[k].1[j];
      if y in st.rev {
        TryInGroups(g1, g2, groups, k, i, j + 1, st);
      } else {
        var next := Extend(st, x, y);
        ExtendInGroups(groups, st.phi, k, x, y);
        SearchInGroups(g1, g2, groups, k, i + 1, next);
        assert Retract(next, x, y).phi == st.phi[x := y] - {x};
        TryInGroups(g1, g2, groups, k, i, j + 1, Retract(next, x, y));
      }
    }
  }

  /** `isomorphism` only ever pairs vertices of the same characteristic
      (degree and sorted neighbour degrees), directed or not. */
  lemma OutcomeRespects(g1: View, g2: View)
    requires g1.WF() && g2.WF()
    ensures Outcome(g1, g2).Some? ==>
              forall x :: x in g1.adj ==>
                x in Outcome(g1, g2).value && Outcome(g1, g2).value[x] in g2.adj &&
                Char(g1, x) == Char(g2, Outcome(g1, g2).value[x])
  {
    if Outcome(g1, g2).Some? {
      var s := Layout(g1, g2);
      var st := Search(g1, g2, s, 0, 0, Match(map[], map[])).value;
      SearchCovers(g1, g2, s);
      SearchInGroups(g1, g2, s, 0, 0, Match(map[], map[]));
      GroupedMeaning(g1, g2);
      forall x | x in g1.adj ensures x in st.phi && st.phi[x] in g2.adj && Char(g1, x) == Char(g2, st.phi[x]) {
        var l := GroupAt(g1, g2, x);
        var c := GroupOf(g1, g2, s[l]);
        assert st.phi[x] in Members(g2, g2.nodes, c);
      }
    }
  }

  /** For undirected graphs, `isomorphism` returns a map exactly when the
      graphs are isomorphic. */
  lemma OutcomeIffIsomorphic(g1: View, g2: View)
    requires g1.WF() && g2.WF()
    requires g1.Symmetric() && g2.Symmetric() && g1.Tidy() && g2.Tidy()
    ensures Outcome(g1, g2).Some? <==> Isomorphic(g1, g2)
  {
    OutcomeSound(g1, g2);
    if Isomorphic(g1, g2) {
      var sigma :| IsIsomorphism(g1, g2, sigma);
      OutcomeComplete(g1, g2, sigma);
    }
  }
}
