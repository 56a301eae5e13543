/** Walks, routes and reachability in a graph snapshot, and the pieces the
    breadth-first and depth-first traversals share: the arbitrary order in
    which a Python `set` is iterated, the extension of a popped path by its
    unvisited neighbours, and the measure that bounds a worklist of paths
    that repeat no vertex. */
module Walks {
  import opened Base
  import opened CommonMixin

  /** `p` follows the adjacency lists of `g`: every entry is a vertex and
      lists the next entry as a neighbour. */
  ghost predicate IsWalk(g: View, p: seq<Node>)
  {
    |p| >= 1 &&
    (forall i :: 0 <= i < |p| ==> p[i] in g.adj) &&
    (forall i :: 0 <= i < |p| - 1 ==> p[i + 1] in g.adj[p[i]])
  }

  /** Some walk leads from `s` to `t`. */
  ghost predicate Reaches(g: View, s: Node, t: Node)
  {
    exists p :: IsWalk(g, p) && p[0] == s && p[|p| - 1] == t
  }

  /** A route from `s` to `t`: a walk along at least one edge that repeats
      no vertex. These are the paths the searches return. */
  ghost predicate Route(g: View, s: Node, t: Node, w: seq<Node>)
  {
    IsWalk(g, w) && Distinct(w) && |w| >= 2 && w[0] == s && w[|w| - 1] == t
  }

  /** A path a search holds in its worklist: a walk from `s` that repeats
      no vertex and meets `t` at most at its start. */
  ghost predicate Pending(g: View, s: Node, t: Node, p: seq<Node>)
  {
    IsWalk(g, p) && Distinct(p) && p[0] == s && t !in p[1..]
  }

  /** Every neighbour of a vertex of `r` is in `r`. */
  ghost predicate ClosedUnder(g: View, r: set<Node>)
  {
    forall u, v :: u in r && u in g.adj && v in g.adj[u] ==> v in r
  }

  lemma WalkExtend(g: View, p: seq<Node>, v: Node)
    requires g.WF() && IsWalk(g, p) && v in g.adj[p[|p| - 1]]
    ensures IsWalk(g, p + [v])
  {
  }

  lemma ReachSelf(g: View, s: Node)
    requires s in g.adj
    ensures Reaches(g, s, s)
  {
    assert IsWalk(g, [s]);
  }

  /** A neighbour of a reachable vertex is reachable. */
  lemma ReachStep(g: View, s: Node, u: Node, v: Node)
    requires g.WF() && Reaches(g, s, u) && u in g.adj && v in g.adj[u]
    ensures Reaches(g, s, v)
  {
    var p :| IsWalk(g, p) && p[0] == s && p[|p| - 1] == u;
    WalkExtend(g, p, v);
    assert (p + [v])[0] == s;
  }

  /** A walk that starts in a set closed under adjacency stays in it. */
  lemma {:induction false} WalkStaysInside(g: View, p: seq<Node>, r: set<Node>)
    requires IsWalk(g, p) && p[0] in r && ClosedUnder(g, r)
    ensures p[|p| - 1] in r
    decreases |p|
  {
    if |p| > 1 {
      var q := p[..|p| - 1];
      assert IsWalk(g, q);
      WalkStaysInside(g, q, r);
      assert p[|p| - 2] == q[|q| - 1];
    }
  }

  /** A set that holds `s` and is closed under adjacency holds every vertex
      reachable from `s`. */
  lemma ClosedHoldsReach(g: View, s: Node, r: set<Node>)
    requires s in r && ClosedUnder(g, r)
    ensures forall t :: Reaches(g, s, t) ==> t in r
  {
    forall t | Reaches(g, s, t) ensures t in r {
      var p :| IsWalk(g, p) && p[0] == s && p[|p| - 1] == t;
      WalkStaysInside(g, p, r);
    }
  }

  /** Cutting the closed loop `p[i..j]` out of a walk, where `p[i] == p[j]`,
      leaves a walk between the same ends. */
  lemma CutLoop(g: View, p: seq<Node>, i: nat, j: nat)
    requires IsWalk(g, p) && i < j < |p| && p[i] == p[j]
    ensures IsWalk(g, p[..i] + p[j..])
    ensures (p[..i] + p[j..])[0] == p[0] && (p[..i] + p[j..])[|p| - (j - i) - 1] == p[|p| - 1]
    ensures |p[..i] + p[j..]| == |p| - (j - i)
  {
    var r := p[..i] + p[j..];
    assert forall k :: 0 <= k < i ==> r[k] == p[k];
    assert forall k :: i <= k < |r| ==> r[k] == p[k + j - i];
    forall k | 0 <= k < |r| - 1 ensures r[k + 1] in g.adj[r[k]] {
      if k + 1 < i {
        assert r[k] == p[k] && r[k + 1] == p[k + 1];
      } else if k + 1 == i {
        assert r[k] == p[i - 1] && r[k + 1] == p[j] == p[i];
      } else {
        assert r[k] == p[k + j - i] && r[k + 1] == p[k + 1 + j - i];
      }
    }
  }

  /** Loop erasure: a walk can be shortened to one between the same ends
      that repeats no vertex. */
  lemma {:induction false} Shorten(g: View, p: seq<Node>) returns (q: seq<Node>)
    requires IsWalk(g, p)
    ensures IsWalk(g, q) && Distinct(q) && q[0] == p[0] && q[|q| - 1] == p[|p| - 1]
    decreases |p|
  {
    if Distinct(p) {
      q := p;
    } else {
      var i, j :| 0 <= i < j < |p| && p[i] == p[j];
      CutLoop(g, p, i, j);
      q := Shorten(g, p[..i] + p[j..]);
    }
  }

  /** A route from `s` to `t` exists exactly when `t` is another vertex
      that `s` reaches. */
  lemma RouteIffReach(g: View, s: Node, t: Node)
    ensures (exists w :: Route(g, s, t, w)) <==> s != t && Reaches(g, s, t)
  {
    if s != t && Reaches(g, s, t) {
      var p :| IsWalk(g, p) && p[0] == s && p[|p| - 1] == t;
      var q := Shorten(g, p);
      assert Route(g, s, t, q);
    }
    if w :| Route(g, s, t, w) {
      assert w[0] != w[|w| - 1];
    }
  }

  /** Iterating a Python `set`: its elements once each, in an order the
      language leaves open. */
  method SetOrder(s: set<Node>) returns (r: seq<Node>)
    ensures Distinct(r) && Elems(r) == s
  {
    r := [];
    var rest := s;
    while rest != {}
      invariant Distinct(r) && Elems(r) !! rest && Elems(r) + rest == s
      decreases |rest|
    {
      var x :| x in rest;
      r := r + [x];
      rest := rest - {x};
    }
  }

  /** A list without duplicates drawn from `s` is no longer than `s` is
      large. */
  lemma DistinctBound(xs: seq<Node>, s: set<Node>)
    requires Distinct(xs) && Elems(xs) <= s
    ensures |xs| <= |s|
  {
    DistinctCard(xs);
    assert |Elems(xs)| <= |s| by {
      SubsetCard(Elems(xs), s);
    }
  }

  lemma SubsetCard(a: set<Node>, b: set<Node>)
    requires a <= b
    ensures |a| <= |b|
  {
    assert b == a + (b - a);
  }

  /** `p + [v]` for every `v` of `vs`, in order. */
  function Extensions(p: seq<Node>, vs: seq<Node>): (r: seq<seq<Node>>)
    ensures |r| == |vs|
    ensures forall i :: 0 <= i < |vs| ==> r[i] == p + [vs[i]]
  {
    if vs == [] then [] else Extensions(p, vs[..|vs| - 1]) + [p + [vs[|vs| - 1]]]
  }

  lemma ExtensionsAppend(p: seq<Node>, a: seq<Node>, b: seq<Node>)
    ensures Extensions(p, a + b) == Extensions(p, a) + Extensions(p, b)
  {
  }

  /** The neighbours of the end of `p` that `p` does not visit yet, in the
      order `ns` gives them. */
  ghost predicate Unvisited(g: View, p: seq<Node>, ns: seq<Node>)
  {
    |p| >= 1 && p[|p| - 1] in g.adj && Distinct(ns) && Elems(ns) == Elems(g.adj[p[|p| - 1]]) - Elems(p)
  }

  /** The inner loop of the path searches on a popped path `p`: each
      unvisited neighbour is either the target, which ends the search with
      `p + [target]`, or queued as `p` extended by it. */
  method ExtendUntil(p: seq<Node>, ns: seq<Node>, target: Node, queue: seq<seq<Node>>)
    returns (hit: Option<seq<Node>>, q: seq<seq<Node>>)
    ensures hit.Some? <==> target in ns
    ensures hit.Some? ==> hit.value == p + [target]
    ensures hit.None? ==> q == queue + Extensions(p, ns)
  {
    q := queue;
    var j := 0;
    while j < |ns|
      invariant j <= |ns| && target !in ns[..j] && q == queue + Extensions(p, ns[..j])
    {
      if ns[j] == target {
        return Some(p + [ns[j]]), q;
      }
      assert ns[..j + 1] == ns[..j] + [ns[j]];
      ExtensionsAppend(p, ns[..j], [ns[j]]);
      q := q + [p + [ns[j]]];
      j := j + 1;
    }
    assert ns[..j] == ns;
    hit := None;
  }

  /** The inner loop of the all-paths searches on a popped path `p`: an
      unvisited neighbour that is the target completes the route
      `p + [target]`, every other one is queued as `p` extended by it. */
  method ExtendAll(p: seq<Node>, ns: seq<Node>, target: Node, queue: seq<seq<Node>>, found: seq<seq<Node>>)
    returns (q: seq<seq<Node>>, f: seq<seq<Node>>)
    requires Distinct(ns)
    ensures q == queue + Extensions(p, Filter(ns, {target}))
    ensures f == found + (if target in ns then [p + [target]] else [])
  {
    q, f := queue, found;
    var j := 0;
    while j < |ns|
      invariant j <= |ns|
      invariant q == queue + Extensions(p, Filter(ns[..j], {target}))
      invariant f == found + (if target in ns[..j] then [p + [target]] else [])
    {
      ExtendAllStep(p, ns, j, target);
      if ns[j] == target {
        f := f + [p + [ns[j]]];
      } else {
        q := q + [p + [ns[j]]];
      }
      j := j + 1;
    }
    assert ns[..j] == ns;
  }

  lemma ExtendAllStep(p: seq<Node>, ns: seq<Node>, j: nat, target: Node)
    requires j < |ns| && Distinct(ns)
    ensures ns[j] == target ==> Filter(ns[..j + 1], {target}) == Filter(ns[..j], {target})
    ensures ns[j] != target ==> Extensions(p, Filter(ns[..j + 1], {target})) ==
                                Extensions(p, Filter(ns[..j], {target})) + [p + [ns[j]]]
    ensures target in ns[..j + 1] <==> target in ns[..j] || ns[j] == target
    ensures ns[j] == target ==> target !in ns[..j]
  {
    assert ns[..j + 1] == ns[..j] + [ns[j]];
    FilterAppend(ns[..j], [ns[j]], {target});
    if ns[j] != target {
      assert Filter([ns[j]], {target}) == [ns[j]];
      ExtensionsAppend(p, Filter(ns[..j], {target}), [ns[j]]);
    } else {
      assert Filter([ns[j]], {target}) == [];
    }
  }

  /** The measure of a path of `len` vertices in a graph of `n` vertices:
      `(n + 1)` to the power `n - len`, so that a path outweighs all of its
      at most `n` one-vertex extensions together. */
  function Weight(n: nat, len: nat): (w: nat)
    ensures w >= 1
    decreases n - len
  {
    if len >= n then 1 else (n + 1) * Weight(n, len + 1)
  }

  /** The total measure of a worklist of paths. */
  function QueueWeight(n: nat, qs: seq<seq<Node>>): nat
  {
    if qs == [] then 0 else QueueWeight(n, qs[..|qs| - 1]) + Weight(n, |qs[|qs| - 1]|)
  }

  lemma {:induction false} QueueWeightAppend(n: nat, a: seq<seq<Node>>, b: seq<seq<Node>>)
    ensures QueueWeight(n, a + b) == QueueWeight(n, a) + QueueWeight(n, b)
    decreases |b|
  {
    if b == [] {
      assert a + b == a;
    } else {
      assert (a + b)[..|a + b| - 1] == a + b[..|b| - 1];
      QueueWeightAppend(n, a, b[..|b| - 1]);
    }
  }

  lemma QueueWeightFront(n: nat, qs: seq<seq<Node>>)
    requires qs != []
    ensures QueueWeight(n, qs) == Weight(n, |qs[0]|) + QueueWeight(n, qs[1..])
  {
    assert qs == [qs[0]] + qs[1..];
    QueueWeightAppend(n, [qs[0]], qs[1..]);
    assert QueueWeight(n, [qs[0]]) == QueueWeight(n, []) + Weight(n, |qs[0]|);
  }

  lemma {:induction false} ExtensionsWeight(n: nat, p: seq<Node>, vs: seq<Node>)
    ensures QueueWeight(n, Extensions(p, vs)) == |vs| * Weight(n, |p| + 1)
    decreases |vs|
  {
    if vs != [] {
      var k, w := |vs| - 1, Weight(n, |p| + 1);
      ExtensionsWeight(n, p, vs[..k]);
      var e := Extensions(p, vs);
      assert e[..|e| - 1] == Extensions(p, vs[..k]);
      assert |e[|e| - 1]| == |p| + 1;
      assert QueueWeight(n, e) == k * w + w;
      MulSucc(k, w);
    }
  }

  /** A path repeats no vertex, and its unvisited neighbours add up to at
      most the vertices it has not visited: replacing it by its extensions
      lowers the measure. */
  lemma ExpandShrinks(g: View, p: seq<Node>, vs: seq<Node>)
    requires IsWalk(g, p) && Distinct(p) && Distinct(vs)
    requires Elems(vs) <= g.adj.Keys && Elems(vs) !! Elems(p)
    ensures |vs| * Weight(|g.adj.Keys|, |p| + 1) < Weight(|g.adj.Keys|, |p|)
  {
    RoomLeft(g.adj.Keys, p, vs);
    if |vs| > 0 {
      WeightDrop(|g.adj.Keys|, |p|, |vs|);
    }
  }

  /** Two lists without duplicates or common elements, drawn from `s`,
      together are no longer than `s` is large. */
  lemma RoomLeft(s: set<Node>, p: seq<Node>, vs: seq<Node>)
    requires Distinct(p) && Distinct(vs) && Elems(p) <= s && Elems(vs) <= s && Elems(vs) !! Elems(p)
    ensures |p| + |vs| <= |s|
  {
    DistinctConcat(p, vs);
    assert Elems(p + vs) <= s;
    DistinctBound(p + vs, s);
  }

  /** With room for `k >= 1` more vertices, `k` paths one vertex longer
      weigh less than one path. */
  lemma WeightDrop(n: nat, len: nat, k: nat)
    requires 1 <= k && len + k <= n
    ensures k * Weight(n, len + 1) < Weight(n, len)
  {
    var w := Weight(n, len + 1);
    assert Weight(n, len) == (n + 1) * w;
    MulLe(k, n, w);
    assert (n + 1) * w == n * w + w;
  }

  lemma MulSucc(k: nat, w: nat)
    ensures k * w + w == (k + 1) * w
  {
  }

  lemma MulLe(a: nat, b: nat, c: nat)
    requires a <= b
    ensures a * c <= b * c
  {
  }

  /** The state of a bypass loop: `visited` lists reachable vertices once
      each, the worklist holds reachable vertices, and every neighbour of a
      visited vertex is visited or waiting in the worklist. */
  ghost predicate Frontier(g: View, start: Node, visited: seq<Node>, work: seq<Node>)
  {
    Distinct(visited) &&
    (forall v :: v in visited ==> v in g.adj && Reaches(g, start, v)) &&
    (forall v :: v in work ==> v in g.adj && Reaches(g, start, v)) &&
    (forall u, v :: u in visited && u in g.adj && v in g.adj[u] ==> v in visited || v in work)
  }

  lemma FrontierStart(g: View, start: Node)
    requires start in g.adj
    ensures Frontier(g, start, [], [start])
  {
    ReachSelf(g, start);
  }

  /** Popping a vertex already visited. */
  lemma FrontierSkip(g: View, start: Node, visited: seq<Node>, work: seq<Node>, node: Node, rest: seq<Node>)
    requires Frontier(g, start, visited, work) && node in visited
    requires forall x :: x in work ==> x == node || x in rest
    requires forall x :: x in rest ==> x in work
    ensures Frontier(g, start, visited, rest)
  {
  }

  /** Popping a vertex not visited yet: it is visited and its neighbours
      not visited yet join the worklist. */
  lemma FrontierVisit(g: View, start: Node, visited: seq<Node>, work: seq<Node>, node: Node, rest: seq<Node>, ns: seq<Node>)
    requires g.WF() && Frontier(g, start, visited, work) && node in work && node !in visited
    requires forall x :: x in work ==> x == node || x in rest
    requires forall x :: x in rest ==> x in work
    requires Elems(ns) == Elems(g.adj[node]) - Elems(visited + [node])
    ensures Frontier(g, start, visited + [node], rest + ns)
  {
    forall v | v in ns ensures v in g.adj && Reaches(g, start, v) {
      ReachStep(g, start, node, v);
    }
  }

  /** Once the worklist is empty, the visited vertices are exactly those
      reachable from `start`. */
  lemma FrontierDone(g: View, start: Node, visited: seq<Node>)
    requires Frontier(g, start, visited, []) && start in visited
    ensures forall v :: v in visited <==> Reaches(g, start, v)
  {
    ClosedHoldsReach(g, start, Elems(visited));
  }

  /** One more vertex fits among the visited ones. */
  lemma VisitBound(g: View, visited: seq<Node>, node: Node)
    requires Distinct(visited) && (forall v :: v in visited ==> v in g.adj) && node in g.adj && node !in visited
    ensures |visited| + 1 <= |g.adj.Keys|
  {
    AppendDistinct(visited, node);
    DistinctBound(visited + [node], g.adj.Keys);
  }

  /** Every route from `s` to `t` has been found, or a proper prefix of it
      waits in the worklist. */
  ghost predicate Covered(g: View, s: Node, t: Node, found: seq<seq<Node>>, work: seq<seq<Node>>)
  {
    forall w :: Route(g, s, t, w) ==> w in found || exists k :: 1 <= k < |w| && w[..k] in work
  }

  lemma CoveredStart(g: View, s: Node, t: Node)
    ensures Covered(g, s, t, [], [[s]])
  {
    forall w | Route(g, s, t, w) ensures exists k :: 1 <= k < |w| && w[..k] in [[s]] {
      assert w[..1] == [s];
    }
  }

  /** With the worklist empty, every route has been found. */
  lemma CoveredDone(g: View, s: Node, t: Node, found: seq<seq<Node>>)
    requires Covered(g, s, t, found, [])
    ensures forall w :: Route(g, s, t, w) ==> w in found
  {
  }

  /** Expanding the popped path `p`: the route through `p` and an
      unvisited neighbour is found when that neighbour is `t`, and has a
      longer prefix queued otherwise. */
  lemma CoveredStep(g: View, s: Node, t: Node, found: seq<seq<Node>>, work: seq<seq<Node>>,
                    p: seq<Node>, rest: seq<seq<Node>>, ns: seq<Node>)
    requires Covered(g, s, t, found, work) && Unvisited(g, p, ns)
    requires forall x :: x in work ==> x == p || x in rest
    ensures Covered(g, s, t, found + (if t in ns then [p + [t]] else []), rest + Extensions(p, Filter(ns, {t})))
  {
    var f := found + (if t in ns then [p + [t]] else []);
    var q := rest + Extensions(p, Filter(ns, {t}));
    forall w | Route(g, s, t, w) && w !in f ensures exists k :: 1 <= k < |w| && w[..k] in q {
      var k :| 1 <= k < |w| && w[..k] in work;
      if w[..k] == p {
        PrefixNext(g, s, t, w, p, ns);
      } else {
        assert w[..k] in q;
      }
    }
  }

  /** A route whose proper prefix is the popped path `p` continues with an
      unvisited neighbour of `p`: the route itself when that is `t`, a
      queued extension of `p` otherwise. */
  lemma PrefixNext(g: View, s: Node, t: Node, w: seq<Node>, p: seq<Node>, ns: seq<Node>)
    requires Route(g, s, t, w) && Unvisited(g, p, ns) && |p| < |w| && w[..|p|] == p
    ensures w[|p|] == t ==> t in ns && w == p + [t]
    ensures w[|p|] != t ==> |p| + 1 < |w| && w[..|p| + 1] in Extensions(p, Filter(ns, {t}))
  {
    var k := |p|;
    var v := w[k];
    assert p[k - 1] == w[k - 1];
    assert v in g.adj[p[k - 1]];
    assert v in ns;
    assert w[..k + 1] == p + [v];
    if v == t {
      assert k == |w| - 1;
      assert w == w[..k + 1];
    } else {
      assert k + 1 < |w|;
      var xs := Filter(ns, {t});
      assert v in xs;
      var i :| 0 <= i < |xs| && xs[i] == v;
      assert Extensions(p, xs)[i] == p + [v];
    }
  }

  /** The extensions of a pending path by its unvisited neighbours other
      than `t` are pending. */
  lemma PendingStep(g: View, s: Node, t: Node, p: seq<Node>, ns: seq<Node>)
    requires g.WF() && Pending(g, s, t, p) && Unvisited(g, p, ns)
    ensures forall c :: c in Extensions(p, Filter(ns, {t})) ==> Pending(g, s, t, c)
  {
    forall c | c in Extensions(p, Filter(ns, {t})) ensures Pending(g, s, t, c) {
      var xs := Filter(ns, {t});
      var i :| 0 <= i < |xs| && Extensions(p, xs)[i] == c;
      var v := xs[i];
      assert c == p + [v];
      assert v in ns && v in Elems(ns);
      WalkExtend(g, p, v);
      AppendDistinct(p, v);
      assert c[1..] == p[1..] + [v];
    }
  }

  /** A pending path extended by the target as an unvisited neighbour is a
      route. */
  lemma FoundRoute(g: View, s: Node, t: Node, p: seq<Node>, ns: seq<Node>)
    requires g.WF() && Pending(g, s, t, p) && Unvisited(g, p, ns) && t in ns
    ensures Route(g, s, t, p + [t])
  {
    WalkExtend(g, p, t);
    AppendDistinct(p, t);
  }

  /** Expanding a pending path lowers the measure of the worklist. */
  lemma WorkShrinks(g: View, s: Node, t: Node, p: seq<Node>, ns: seq<Node>)
    requires g.WF() && Pending(g, s, t, p) && Unvisited(g, p, ns)
    ensures QueueWeight(|g.adj.Keys|, Extensions(p, Filter(ns, {t}))) < Weight(|g.adj.Keys|, |p|)
  {
    var xs := Filter(ns, {t});
    FilterDistinct(ns, {t});
    ExtensionsWeight(|g.adj.Keys|, p, xs);
    ExpandShrinks(g, p, xs);
  }

  /** The last entry of a non-empty worklist and the entries before it
      hold all of it. */
  lemma PopLast<T>(work: seq<T>)
    requires work != []
    ensures forall x :: x in work ==> x == work[|work| - 1] || x in work[..|work| - 1]
    ensures forall x :: x in work[..|work| - 1] ==> x in work
  {
    assert work == work[..|work| - 1] + [work[|work| - 1]];
  }

  /** The first entry of a non-empty worklist and the entries after it
      hold all of it. */
  lemma PopFirst<T>(work: seq<T>)
    requires work != []
    ensures forall x :: x in work ==> x == work[0] || x in work[1..]
    ensures forall x :: x in work[1..] ==> x in work
  {
    assert work == [work[0]] + work[1..];
  }

  /** Every path of a worklist is pending. */
  ghost predicate AllPending(g: View, s: Node, t: Node, work: seq<seq<Node>>)
  {
    forall p :: p in work ==> Pending(g, s, t, p)
  }

  /** Every listed path is a route. */
  ghost predicate AllRoutes(g: View, s: Node, t: Node, found: seq<seq<Node>>)
  {
    forall w :: w in found ==> Route(g, s, t, w)
  }

  /** The state the path searches keep: the worklist holds pending paths,
      the list holds routes, and together they cover every route. */
  ghost predicate Tracking(g: View, s: Node, t: Node, found: seq<seq<Node>>, work: seq<seq<Node>>)
  {
    AllPending(g, s, t, work) && AllRoutes(g, s, t, found) && Covered(g, s, t, found, work)
  }

  lemma TrackingStart(g: View, s: Node, t: Node)
    requires s in g.adj
    ensures Tracking(g, s, t, [], [[s]])
  {
    assert IsWalk(g, [s]);
    CoveredStart(g, s, t);
  }

  /** Expanding the popped path `p` keeps every worklist path pending and
      every listed path a route. */
  lemma ExpandRoutes(g: View, s: Node, t: Node, found: seq<seq<Node>>, p: seq<Node>, rest: seq<seq<Node>>, ns: seq<Node>)
    requires g.WF() && Pending(g, s, t, p) && Unvisited(g, p, ns)
    requires AllPending(g, s, t, rest) && AllRoutes(g, s, t, found)
    ensures AllPending(g, s, t, rest + Extensions(p, Filter(ns, {t})))
    ensures AllRoutes(g, s, t, found + (if t in ns then [p + [t]] else []))
  {
    if t in ns {
      FoundRoute(g, s, t, p, ns);
    }
    PendingStep(g, s, t, p, ns);
  }

  /** One pass of a path search: popping `p` from the worklist, listing
      its extension by `t` and queueing its other extensions keeps the
      search state, and the worklist's measure drops. */
  lemma ExpandStep(g: View, s: Node, t: Node, found: seq<seq<Node>>, work: seq<seq<Node>>,
                   p: seq<Node>, rest: seq<seq<Node>>, ns: seq<Node>)
    requires g.WF() && Tracking(g, s, t, found, work) && Unvisited(g, p, ns) && p in work
    requires forall x :: x in work ==> x == p || x in rest
    requires forall x :: x in rest ==> x in work
    ensures Tracking(g, s, t, found + (if t in ns then [p + [t]] else []), rest + Extensions(p, Filter(ns, {t})))
    ensures QueueWeight(|g.adj.Keys|, rest + Extensions(p, Filter(ns, {t})))
            < QueueWeight(|g.adj.Keys|, rest) + Weight(|g.adj.Keys|, |p|)
  {
    assert Pending(g, s, t, p);
    assert AllPending(g, s, t, rest);
    ExpandRoutes(g, s, t, found, p, rest, ns);
    CoveredStep(g, s, t, found, work, p, rest, ns);
    WorkShrinks(g, s, t, p, ns);
    QueueWeightAppend(|g.adj.Keys|, rest, Extensions(p, Filter(ns, {t})));
  }

  /** A pass of a path search that does not meet the target: the popped
      path's extensions all join the worklist. */
  lemma ExpandMiss(g: View, s: Node, t: Node, work: seq<seq<Node>>, p: seq<Node>, rest: seq<seq<Node>>, ns: seq<Node>)
    requires g.WF() && Tracking(g, s, t, [], work) && Unvisited(g, p, ns) && p in work && t !in ns
    requires forall x :: x in work ==> x == p || x in rest
    requires forall x :: x in rest ==> x in work
    ensures Tracking(g, s, t, [], rest + Extensions(p, ns))
    ensures QueueWeight(|g.adj.Keys|, rest + Extensions(p, ns)) < QueueWeight(|g.adj.Keys|, rest) + Weight(|g.adj.Keys|, |p|)
  {
    ExpandStep(g, s, t, [], work, p, rest, ns);
    FilterNothing(ns, {t});
    assert [] + (if t in ns then [p + [t]] else []) == [];
  }

  /** `x` is a proper prefix of `y`. */
  predicate ProperPrefix(x: seq<Node>, y: seq<Node>)
  {
    |x| < |y| && y[..|x|] == x
  }

  /** The listed routes and the worklist repeat no path and share none. */
  ghost predicate NoRepeats(found: seq<seq<Node>>, work: seq<seq<Node>>)
  {
    Distinct(found) && Distinct(work) && (forall x :: x in found ==> x !in work)
  }

  /** No path of the listed routes or the worklist is a proper prefix of
      another. */
  ghost predicate PrefixFree(found: seq<seq<Node>>, work: seq<seq<Node>>)
  {
    forall x, y :: (x in found || x in work) && (y in found || y in work) ==> !ProperPrefix(x, y)
  }

  /** Each path is built once, by extending its own prefix. */
  ghost predicate Unique(found: seq<seq<Node>>, work: seq<seq<Node>>)
  {
    NoRepeats(found, work) && PrefixFree(found, work)
  }

  /** A list without repeats, split after its head. */
  lemma DistinctFront<T>(work: seq<T>)
    requires Distinct(work) && work != []
    ensures Distinct(work[1..]) && work[0] !in work[1..]
  {
  }

  /** A list without repeats, split before its last entry. */
  lemma DistinctBack<T>(work: seq<T>)
    requires Distinct(work) && work != []
    ensures Distinct(work[..|work| - 1]) && work[|work| - 1] !in work[..|work| - 1]
  {
  }

  /** An extension of `p` is `p` and one more vertex of `vs`. */
  lemma ExtensionShape(p: seq<Node>, vs: seq<Node>, c: seq<Node>)
    requires c in Extensions(p, vs)
    ensures ProperPrefix(p, c) && |c| == |p| + 1 && c[|p|] in vs
  {
    var i :| 0 <= i < |vs| && Extensions(p, vs)[i] == c;
    assert c == p + [vs[i]];
  }

  /** Distinct vertices give distinct extensions. */
  lemma ExtensionsDistinct(p: seq<Node>, vs: seq<Node>)
    requires Distinct(vs)
    ensures Distinct(Extensions(p, vs))
  {
    var e := Extensions(p, vs);
    forall i, j | 0 <= i < j < |e| ensures e[i] != e[j] {
      assert e[i][|p|] == vs[i] && e[j][|p|] == vs[j];
    }
  }

  /** A path other than `p` that `p` is no proper prefix of, and that is no
      proper prefix of `p`, is no prefix of an extension of `p` and has
      none of them as a prefix. */
  lemma ApartFromExtension(p: seq<Node>, y: seq<Node>, c: seq<Node>)
    requires ProperPrefix(p, c) && |c| == |p| + 1
    requires y != p && !ProperPrefix(p, y) && !ProperPrefix(y, p)
    ensures !ProperPrefix(y, c) && !ProperPrefix(c, y) && y != c
  {
    if |y| < |c| {
      assert c[..|y|] == p[..|y|];
    }
    if |c| <= |y| {
      assert y[..|p|] == y[..|c|][..|p|];
    }
  }

  /** The paths a pass adds: the found route `p + [t]` and the queued
      extensions, together without repeats and no prefix of one another. */
  lemma FreshPaths(p: seq<Node>, ns: seq<Node>, t: Node)
    requires Distinct(ns)
    ensures forall c :: c in (if t in ns then [p + [t]] else []) + Extensions(p, Filter(ns, {t})) ==>
              ProperPrefix(p, c) && |c| == |p| + 1
    ensures forall c :: c in (if t in ns then [p + [t]] else []) ==> c !in Extensions(p, Filter(ns, {t}))
    ensures Distinct(Extensions(p, Filter(ns, {t})))
  {
    var e := Extensions(p, Filter(ns, {t}));
    forall c | c in e ensures ProperPrefix(p, c) && |c| == |p| + 1 && c[|p|] != t {
      ExtensionShape(p, Filter(ns, {t}), c);
    }
    assert (p + [t])[..|p|] == p;
    assert (p + [t])[|p|] == t;
    FilterDistinct(ns, {t});
    ExtensionsDistinct(p, Filter(ns, {t}));
  }

  /** Every old path other than `p` stays apart from the paths a pass
      adds. */
  lemma OldApart(found: seq<seq<Node>>, work: seq<seq<Node>>, p: seq<Node>, rest: seq<seq<Node>>, added: seq<seq<Node>>)
    requires PrefixFree(found, work) && p in work && p !in found && p !in rest
    requires forall x :: x in rest ==> x in work
    requires forall c :: c in added ==> ProperPrefix(p, c) && |c| == |p| + 1
    ensures forall y, c :: (y in found || y in rest) && c in added ==>
              !ProperPrefix(y, c) && !ProperPrefix(c, y) && y != c
  {
    forall y, c | (y in found || y in rest) && c in added
      ensures !ProperPrefix(y, c) && !ProperPrefix(c, y) && y != c
    {
      ApartFromExtension(p, y, c);
    }
  }

  /** Popping `p` and adding its extensions keeps every path unique. */
  lemma UniqueStep(found: seq<seq<Node>>, work: seq<seq<Node>>, p: seq<Node>, rest: seq<seq<Node>>, ns: seq<Node>, t: Node)
    requires Unique(found, work) && Distinct(ns) && p in work
    requires Distinct(rest) && p !in rest
    requires forall x :: x in rest ==> x in work
    ensures Unique(found + (if t in ns then [p + [t]] else []), rest + Extensions(p, Filter(ns, {t})))
  {
    var hit := if t in ns then [p + [t]] else [];
    var e := Extensions(p, Filter(ns, {t}));
    FreshPaths(p, ns, t);
    OldApart(found, work, p, rest, hit + e);
    NoRepeatsStep(found, rest, hit, e);
    PrefixFreeStep(found, work, rest, hit + e, p);
    assert forall x :: x in found + hit || x in rest + e <==> (x in found || x in rest) || x in hit + e;
  }

  lemma NoRepeatsStep(found: seq<seq<Node>>, rest: seq<seq<Node>>, hit: seq<seq<Node>>, e: seq<seq<Node>>)
    requires Distinct(found) && Distinct(rest) && (forall x :: x in found ==> x !in rest)
    requires Distinct(hit) && Distinct(e) && (forall c :: c in hit ==> c !in e)
    requires forall y, c :: (y in found || y in rest) && c in hit + e ==> y != c
    ensures NoRepeats(found + hit, rest + e)
  {
    forall c | c in hit ensures c !in found && c !in rest {
      assert c in hit + e;
    }
    forall c | c in e ensures c !in found && c !in rest {
      assert c in hit + e;
    }
    DistinctConcat(found, hit);
    DistinctConcat(rest, e);
  }

  lemma PrefixFreeStep(found: seq<seq<Node>>, work: seq<seq<Node>>, rest: seq<seq<Node>>, added: seq<seq<Node>>, p: seq<Node>)
    requires PrefixFree(found, work) && forall x :: x in rest ==> x in work
    requires forall c :: c in added ==> ProperPrefix(p, c) && |c| == |p| + 1
    requires forall y, c :: (y in found || y in rest) && c in added ==> !ProperPrefix(y, c) && !ProperPrefix(c, y)
    ensures forall x, y :: (x in found || x in rest || x in added) && (y in found || y in rest || y in added) ==> !ProperPrefix(x, y)
  {
  }
}
