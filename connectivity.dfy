/** `check_graph_is_connected`: a breadth-first bypass from the first
    vertex, then, when that reached everything, a second bypass from the
    same vertex over `reverse()` of the graph. The library's `reverse` keeps
    the orientation of an undirected graph and turns a directed one around,
    so the check is meant to say "connected" for the first kind and
    "strongly connected" for the second. */
module Connectivity {
  import opened Base
  import opened CommonMixin
  import opened Walks
  import opened Bfs
  import Undirected
  import Directed

  /** Every vertex is reachable from `s`. */
  ghost predicate AllReached(g: View, s: Node)
  {
    forall v :: v in g.adj ==> Reaches(g, s, v)
  }

  /** Every vertex is reachable from `s`, and `s` from every vertex. */
  ghost predicate StronglyFrom(g: View, s: Node)
  {
    forall v :: v in g.adj ==> Reaches(g, s, v) && Reaches(g, v, s)
  }

  /** Every vertex is reachable from every other one. */
  ghost predicate StronglyConnected(g: View)
  {
    forall u, v :: u in g.adj && v in g.adj ==> Reaches(g, u, v)
  }

  /** A walk read from its end back to its start. */
  function Backwards(p: seq<Node>): (q: seq<Node>)
    ensures |q| == |p| && forall i :: 0 <= i < |p| ==> q[i] == p[|p| - 1 - i]
  {
    seq(|p|, i requires 0 <= i < |p| => p[|p| - 1 - i])
  }

  /** `h` is `g` with every edge turned around, on the same vertices. */
  ghost predicate Turned(h: View, g: View)
  {
    h.adj.Keys == g.adj.Keys &&
    forall u, v :: u in g.adj && v in g.adj ==> (u in h.adj[v] <==> v in g.adj[u])
  }

  /** Two walks joined at a shared vertex make a walk. */
  lemma ReachTrans(g: View, a: Node, b: Node, c: Node)
    requires Reaches(g, a, b) && Reaches(g, b, c)
    ensures Reaches(g, a, c)
  {
    var p :| IsWalk(g, p) && p[0] == a && p[|p| - 1] == b;
    var q :| IsWalk(g, q) && q[0] == b && q[|q| - 1] == c;
    var w := p + q[1..];
    forall i | 0 <= i < |w| - 1 ensures w[i + 1] in g.adj[w[i]] {
      if i < |p| - 1 {
        assert w[i] == p[i] && w[i + 1] == p[i + 1];
      } else {
        assert w[i] == q[i - |p| + 1] && w[i + 1] == q[i - |p| + 2];
      }
    }
    assert IsWalk(g, w);
    assert w[|w| - 1] == c by {
      if |q| == 1 {
        assert w == p;
      }
    }
  }

  /** A walk of `g` read backwards is a walk of the turned graph. */
  lemma TurnWalk(h: View, g: View, p: seq<Node>)
    requires g.WF() && Turned(h, g) && IsWalk(g, p)
    ensures IsWalk(h, Backwards(p))
  {
    var q := Backwards(p);
    forall i | 0 <= i < |q| - 1 ensures q[i + 1] in h.adj[q[i]] {
      var k := |p| - 2 - i;
      assert q[i] == p[k + 1] && q[i + 1] == p[k];
      assert p[k + 1] in g.adj[p[k]];
    }
  }

  /** Turning a graph around is undone by turning it around again. */
  lemma TurnBack(h: View, g: View)
    requires Turned(h, g)
    ensures Turned(g, h)
  {
  }

  /** `v` is reachable from `s` in the turned graph exactly when `s` is
      reachable from `v` in the original one. */
  lemma TurnedReach(h: View, g: View, s: Node, v: Node)
    requires g.WF() && h.WF() && Turned(h, g)
    ensures Reaches(h, s, v) <==> Reaches(g, v, s)
  {
    TurnedReachOne(h, g, s, v);
    TurnBack(h, g);
    TurnedReachOne(g, h, v, s);
  }

  /** A walk from `v` to `s` turns into one from `s` to `v`. */
  lemma TurnedReachOne(h: View, g: View, s: Node, v: Node)
    requires g.WF() && h.WF() && Turned(h, g)
    ensures Reaches(g, v, s) ==> Reaches(h, s, v)
  {
    if Reaches(g, v, s) {
      var p :| IsWalk(g, p) && p[0] == v && p[|p| - 1] == s;
      TurnWalk(h, g, p);
      assert Backwards(p)[0] == s && Backwards(p)[|p| - 1] == v;
    }
  }

  /** Strong connectivity seen from one vertex is strong connectivity. */
  lemma StronglyFromAny(g: View, s: Node)
    requires s in g.adj
    ensures StronglyFrom(g, s) <==> StronglyConnected(g)
  {
    if StronglyFrom(g, s) {
      forall u, v | u in g.adj && v in g.adj ensures Reaches(g, u, v) {
        ReachTrans(g, u, s, v);
      }
    }
  }

  /** On a graph whose adjacency is symmetric, reaching every vertex from
      one of them is connectivity. */
  lemma ReachedIsConnected(g: View, s: Node)
    requires g.WF() && g.Symmetric() && s in g.adj
    ensures AllReached(g, s) <==> StronglyConnected(g)
  {
    if AllReached(g, s) {
      assert Turned(g, g) by {
        forall u, v | u in g.adj && v in g.adj ensures u in g.adj[v] <==> v in g.adj[u] {
          assert g.Adjacent(u, v) ==> g.Adjacent(v, u);
          assert g.Adjacent(v, u) ==> g.Adjacent(u, v);
        }
      }
      forall v | v in g.adj ensures Reaches(g, v, s) {
        TurnedReach(g, g, v, s);
      }
      StronglyFromAny(g, s);
    }
  }

  /** A bypass that lists exactly the reachable vertices, each once, is as
      long as the order exactly when it reached everything. */
  lemma CountIsOrder(g: View, s: Node, xs: seq<Node>)
    requires g.WF() && Distinct(xs) && forall v :: v in xs <==> Reaches(g, s, v)
    ensures |xs| == g.Order() <==> AllReached(g, s)
  {
    OrderIsVertexCount(g);
    DistinctCard(xs);
    assert Elems(xs) <= g.adj.Keys by {
      forall v | v in xs ensures v in g.adj {
        var p :| IsWalk(g, p) && p[0] == s && p[|p| - 1] == v;
      }
    }
    if |xs| == g.Order() {
      forall v | v in g.adj ensures Reaches(g, s, v) {
        if v !in xs {
          assert Elems(xs) < g.adj.Keys;
          SubsetCard(Elems(xs) + {v}, g.adj.Keys);
        }
      }
    }
    if AllReached(g, s) {
      assert Elems(xs) == g.adj.Keys;
    }
  }

  /** On a graph whose only edges are self-loops, a bypass from `s` finds
      `s` alone. */
  lemma LoopsOnly(g: View, s: Node, xs: seq<Node>)
    requires g.WF() && s in g.adj
    requires forall n :: n in g.adj ==> g.adj[n] == [n] || g.adj[n] == []
    requires Distinct(xs) && xs != [] && forall v :: v in xs <==> Reaches(g, s, v)
    ensures |xs| == 1
  {
    ClosedHoldsReach(g, s, {s});
    DistinctCard(xs);
    assert Elems(xs) == {s};
  }

  /** A graph with one vertex reaches all of it from that vertex. */
  lemma SingleReached(g: View, s: Node)
    requires g.WF() && s in g.adj
    ensures g.Order() == 1 ==> AllReached(g, s)
  {
    ReachSelf(g, s);
  }

  /** A walk between two different vertices moves somewhere. */
  lemma {:induction false} Moves(g: View, p: seq<Node>) returns (i: nat)
    requires IsWalk(g, p) && p[0] != p[|p| - 1]
    ensures i < |p| - 1 && p[i] != p[i + 1] && p[i + 1] in g.adj[p[i]]
    decreases |p|
  {
    if p[|p| - 2] != p[|p| - 1] {
      return |p| - 2;
    }
    var q := p[..|p| - 1];
    assert IsWalk(g, q);
    i := Moves(g, q);
  }

  /** When every adjacency has its edge record, reaching a second vertex
      takes an edge record between two different vertices. */
  lemma StepNeedsEdge(g: View, s: Node)
    requires g.WF() && s in g.adj
    requires forall u, v :: u in g.adj && v in g.adj[u] ==> (u, v) in g.edgeAttrs
    ensures g.Order() >= 2 && AllReached(g, s) ==> exists f :: f in g.edgeAttrs && f.0 != f.1
  {
    if g.Order() >= 2 && AllReached(g, s) {
      var v := if g.nodes[0] != s then g.nodes[0] else g.nodes[1];
      assert v in g.adj && v != s;
      var p :| IsWalk(g, p) && p[0] == s && p[|p| - 1] == v;
      var i := Moves(g, p);
      assert (p[i], p[i + 1]) in g.edgeAttrs;
    }
  }

  /** The verdict of the first bypass: it lists every vertex exactly when
      the start reaches all of them, which strong connectivity demands. */
  lemma ForwardVerdict(g: View, s: Node, xs: seq<Node>)
    requires g.WF() && s in g.adj
    requires Distinct(xs) && forall v :: v in xs <==> Reaches(g, s, v)
    ensures |xs| == g.Order() <==> AllReached(g, s)
    ensures StronglyConnected(g) ==> AllReached(g, s)
  {
    CountIsOrder(g, s, xs);
  }

  /** The verdict of the second bypass, over the turned graph, once the
      first one reached everything: it lists every vertex exactly when the
      graph is strongly connected. */
  lemma BackwardVerdict(g: View, h: View, s: Node, ys: seq<Node>)
    requires g.WF() && h.WF() && Turned(h, g) && s in g.adj && AllReached(g, s)
    requires Distinct(ys) && forall v :: v in ys <==> Reaches(h, s, v)
    ensures |ys| == g.Order() <==> StronglyConnected(g)
  {
    CountIsOrder(h, s, ys);
    SameOrder(g, h);
    TurnedAllReached(g, h, s);
    StronglyFromAny(g, s);
  }

  /** Two well-formed graphs on the same vertices have the same order. */
  lemma SameOrder(g: View, h: View)
    requires g.WF() && h.WF() && h.adj.Keys == g.adj.Keys
    ensures h.Order() == g.Order()
  {
    OrderIsVertexCount(g);
    OrderIsVertexCount(h);
  }

  /** The start reaches everything in the turned graph exactly when
      everything reaches the start in the original one. */
  lemma TurnedAllReached(g: View, h: View, s: Node)
    requires g.WF() && h.WF() && Turned(h, g) && AllReached(g, s)
    ensures AllReached(h, s) <==> StronglyFrom(g, s)
  {
    forall v | v in g.adj ensures Reaches(h, s, v) <==> Reaches(g, v, s) {
      TurnedReach(h, g, s, v);
    }
  }

  /** The verdict of the first bypass on a graph with symmetric adjacency
      whose adjacencies all have their records: it lists every vertex
      exactly when the graph is connected, which a single vertex always
      is, and two or more connected vertices need a non-loop record. */
  lemma UndirectedVerdict(g: View, s: Node, xs: seq<Node>)
    requires g.WF() && g.Symmetric() && s in g.adj
    requires forall u, v :: u in g.adj && v in g.adj[u] ==> (u, v) in g.edgeAttrs
    requires Distinct(xs) && forall v :: v in xs <==> Reaches(g, s, v)
    ensures |xs| == g.Order() <==> StronglyConnected(g)
    ensures g.Order() == 1 ==> StronglyConnected(g)
    ensures g.Order() >= 2 && StronglyConnected(g) ==> exists f :: f in g.edgeAttrs && f.0 != f.1
  {
    CountIsOrder(g, s, xs);
    ReachedIsConnected(g, s);
    SingleReached(g, s);
    StepNeedsEdge(g, s);
  }

  /** The graph `reverse` returns for an undirected graph whose only edges
      are self-loops lists at each vertex itself or nothing. */
  lemma LoopsCopiedLists(adj: Dict<Node, seq<Node>>, edges: Dict<Edge, Attrs>,
                         cadj: Dict<Node, seq<Node>>, cnodes: Dict<Node, Attrs>, cedges: Dict<Edge, Attrs>)
    requires adj.Valid() && cadj.Valid()
    requires Undirected.LoopsCopied(adj, edges, cadj, cnodes, cedges)
    ensures forall n :: n in cadj.m ==> cadj.m[n] == [n] || cadj.m[n] == []
  {
    forall n | n in cadj.m ensures cadj.m[n] == [n] || cadj.m[n] == [] {
      assert n in cadj.keys;
    }
  }

  /** With a single vertex, every record whose ends are vertices is a self-loop. */
  lemma SingleVertexLoops(adj: Dict<Node, seq<Node>>, edges: Dict<Edge, Attrs>)
    requires adj.Valid() && |adj.keys| == 1 && Undirected.Copyable(adj, edges)
    ensures forall f :: f in edges.m ==> f.0 == f.1
  {
    forall f | f in edges.m ensures f.0 == f.1 {
      assert f.0 in adj.keys && f.1 in adj.keys;
    }
  }

  /** `check_graph_is_connected` on a directed graph: IndexError when there
      is no first vertex; False when the first bypass misses a vertex;
      otherwise the error of `reverse` for an edge record it cannot copy,
      or whether every vertex leads back to the first one. */
  method DirectedConnected(g: Directed.DiGraph) returns (r: Result<bool>)
    requires g.Valid()
    ensures g.Nodes() == [] ==> r == Err(IndexError)
    ensures g.Nodes() != [] && !AllReached(g.View(), g.Nodes()[0]) ==> r == Ok(false)
    ensures g.Nodes() != [] && AllReached(g.View(), g.Nodes()[0]) ==>
              (r.Err? <==> Directed.SomeUntyped(g.data.edgesAttrs.m))
    ensures r.Ok? ==> g.Nodes() != [] && (r.value <==> StronglyConnected(g.View()))
  {
    var ns := g.Nodes();
    if ns == [] {
      return Err(IndexError);
    }
    g.ViewIsWellFormed();
    var view := g.View();
    var first := BreadthFirstBypass(view, ns[0]);
    ForwardVerdict(view, ns[0], first.value);
    if |first.value| != view.Order() {
      return Ok(false);
    }
    var reversed := g.Reverse();
    if reversed.Err? {
      return Err(reversed.error);
    }
    reversed.value.ViewIsWellFormed();
    var back := reversed.value.View();
    var second := BreadthFirstBypass(back, ns[0]);
    BackwardVerdict(view, back, ns[0], second.value);
    return Ok(|second.value| == view.Order());
  }

  /** `check_graph_is_connected` on an undirected graph. `reverse` copies
      each edge key in turn, and an undirected edge is recorded under both
      orientations, so the copy of its second key raises AdditionError:
      when the first bypass reaches everything, the check returns True only
      for a single vertex and raises for every connected graph with two
      vertices or more whose records `reverse` can copy. */
  method UndirectedConnected(g: Undirected.Graph) returns (r: Result<bool>)
    requires g.Valid()
    ensures g.Nodes() == [] ==> r == Err(IndexError)
    ensures g.Nodes() != [] && !StronglyConnected(g.View()) ==> r == Ok(false)
    ensures r.Ok? ==> g.Nodes() != [] && (r.value <==> |g.Nodes()| == 1)
    ensures Undirected.Copyable(g.adj, g.data.edgesAttrs) && |g.Nodes()| >= 2 && StronglyConnected(g.View()) ==>
              r == Err(AdditionError)
    ensures Undirected.Copyable(g.adj, g.data.edgesAttrs) && |g.Nodes()| == 1 ==> r == Ok(true)
  {
    var ns := g.Nodes();
    if ns == [] {
      return Err(IndexError);
    }
    g.ViewIsWellFormed();
    g.ViewIsCovered();
    var view := g.View();
    var first := BreadthFirstBypass(view, ns[0]);
    UndirectedVerdict(view, ns[0], first.value);
    if |first.value| != view.Order() {
      return Ok(false);
    }
    if Undirected.Copyable(g.adj, g.data.edgesAttrs) && |ns| == 1 {
      SingleVertexLoops(g.adj, g.data.edgesAttrs);
    }
    var reversed := g.Reverse();
    if reversed.Err? {
      return Err(reversed.error);
    }
    reversed.value.ViewIsWellFormed();
    var back := reversed.value.View();
    LoopsCopiedLists(g.adj, g.data.edgesAttrs, reversed.value.adj, reversed.value.data.nodesAttrs, reversed.value.data.edgesAttrs);
    var second := BreadthFirstBypass(back, ns[0]);
    LoopsOnly(back, ns[0], second.value);
    return Ok(1 == view.Order());
  }
}
