/** `isomorphism` is written for undirected graphs: `good(x, y)` looks only
    along the neighbour lists of `x` and `y`. On directed graphs that is
    following out-edges only, so a map can pass every check and still send
    an edge to a non-edge. Here is a pair of directed graphs on which that
    happens: the cycle a -> b -> c -> a and the graph z -> y, x -> y,
    y -> z, with vertices listed as z, x, y. */
module IsomorphismDirected {
  import opened Base
  import opened CommonMixin
  import opened Characteristics
  import opened Renaming
  import opened Isomorphism

  /** The directed cycle a -> b -> c -> a. */
  function Cycle(): View
  {
    View(true, ["a", "b", "c"],
         map["a" := ["b"], "b" := ["c"], "c" := ["a"]],
         [("a", "b"), ("b", "c"), ("c", "a")],
         map["a" := map[], "b" := map[], "c" := map[]],
         map[("a", "b") := map[], ("b", "c") := map[], ("c", "a") := map[]])
  }

  /** x -> y, y -> z and z -> y: a two-cycle with a tail. */
  function Tail(): View
  {
    View(true, ["z", "x", "y"],
         map["x" := ["y"], "y" := ["z"], "z" := ["y"]],
         [("x", "y"), ("y", "z"), ("z", "y")],
         map["x" := map[], "y" := map[], "z" := map[]],
         map[("x", "y") := map[], ("y", "z") := map[], ("z", "y") := map[]])
  }

  /** Every vertex of either graph has one out-neighbour, which has one
      out-neighbour itself. */
  const One := Characteristic(1, multiset{1})

  /** The map `isomorphism` returns for the two graphs. */
  const Found: map<Node, Node> := map["a" := "z", "b" := "x", "c" := "y"]

  lemma CycleVertices()
    ensures var g := Cycle();
            Distinct(g.nodes) && (forall n :: n in g.adj <==> n in g.nodes) && g.nodeAttrs.Keys == g.adj.Keys
  {
    assert "a" != "b" && "b" != "c" && "a" != "c";
  }

  lemma CycleLists()
    ensures var g := Cycle();
            (forall u, v :: u in g.adj && v in g.adj[u] ==> v in g.adj) &&
            (forall u :: u in g.adj ==> Distinct(g.adj[u]) && |g.adj[u]| == 1)
  {
  }

  lemma CycleEdges()
    ensures var g := Cycle();
            Distinct(g.edges) && (forall e :: e in g.edgeAttrs <==> e in g.edges)
  {
    assert "a" != "b" && "b" != "c" && "a" != "c";
  }

  lemma CycleWF()
    ensures Cycle().WF() && forall n :: n in Cycle().adj ==> |Cycle().adj[n]| == 1
  {
    CycleVertices();
    CycleLists();
    CycleEdges();
  }

  lemma CycleTidy()
    ensures Cycle().Tidy()
  {
    var g := Cycle();
    assert "a" != "b" && "b" != "c" && "a" != "c";
    forall u, v | u in g.adj && v in g.adj ensures g.HasEdge((u, v)) <==> v in g.adj[u] {
      assert u == "a" || u == "b" || u == "c";
      assert v == "a" || v == "b" || v == "c";
    }
  }

  lemma CycleShape()
    ensures Cycle().WF() && Cycle().Tidy()
    ensures forall n :: n in Cycle().adj ==> Char(Cycle(), n) == One
  {
    CycleWF();
    CycleTidy();
    OneEach(Cycle());
  }

  lemma TailVertices()
    ensures var g := Tail();
            Distinct(g.nodes) && (forall n :: n in g.adj <==> n in g.nodes) && g.nodeAttrs.Keys == g.adj.Keys
  {
    assert "x" != "y" && "y" != "z" && "x" != "z";
  }

  lemma TailLists()
    ensures var g := Tail();
            (forall u, v :: u in g.adj && v in g.adj[u] ==> v in g.adj) &&
            (forall u :: u in g.adj ==> Distinct(g.adj[u]) && |g.adj[u]| == 1)
  {
  }

  lemma TailEdges()
    ensures var g := Tail();
            Distinct(g.edges) && (forall e :: e in g.edgeAttrs <==> e in g.edges)
  {
    assert "x" != "y" && "y" != "z" && "x" != "z";
  }

  lemma TailWF()
    ensures Tail().WF() && forall n :: n in Tail().adj ==> |Tail().adj[n]| == 1
  {
    TailVertices();
    TailLists();
    TailEdges();
  }

  lemma TailTidy()
    ensures Tail().Tidy()
  {
    var g := Tail();
    assert "x" != "y" && "y" != "z" && "x" != "z";
    forall u, v | u in g.adj && v in g.adj ensures g.HasEdge((u, v)) <==> v in g.adj[u] {
      assert u == "x" || u == "y" || u == "z";
      assert v == "x" || v == "y" || v == "z";
    }
  }

  lemma TailShape()
    ensures Tail().WF() && Tail().Tidy()
    ensures forall n :: n in Tail().adj ==> Char(Tail(), n) == One
  {
    TailWF();
    TailTidy();
    OneEach(Tail());
  }

  /** In a graph where every vertex has exactly one out-neighbour, every
      vertex has characteristic `One`. */
  lemma OneEach(g: View)
    requires g.WF() && forall n :: n in g.adj ==> |g.adj[n]| == 1
    ensures forall n :: n in g.adj ==> Char(g, n) == One
  {
    forall n | n in g.adj ensures Char(g, n) == One {
      var w := g.adj[n][0];
      assert g.adj[n] == [w] && w in g.adj && |g.adj[w]| == 1;
      assert Degrees(g, [w]) == multiset{1} by {
        assert [w][..0] == [];
      }
    }
  }

  /** When every vertex has characteristic `c0`, the members of `c0`
      are all the vertices in order, and no other characteristic has
      members. */
  lemma {:induction false} AllMembers(g: View, ns: seq<Node>, c0: Characteristic, c: Characteristic)
    requires g.WF() && Within(g, ns)
    requires forall n :: n in g.adj ==> Char(g, n) == c0
    ensures Members(g, ns, c) == if c == c0 then ns else []
  {
    if ns != [] {
      var init, x := ns[..|ns| - 1], ns[|ns| - 1];
      AllMembers(g, init, c0, c);
      assert Char(g, x) == c0;
      assert Members(g, ns, c) == Members(g, init, c) + (if c0 == c then [x] else []);
      LastSplit(ns);
    }
  }

  lemma LastSplit(ns: seq<Node>)
    requires ns != []
    ensures ns[..|ns| - 1] + [ns[|ns| - 1]] == ns
  {
  }

  /** When all vertices of both graphs share one characteristic, the
      table of groups holds that characteristic alone, with all the
      vertices of either graph. */
  lemma OnlyOne(g1: View, g2: View, c0: Characteristic)
    requires g1.WF() && g2.WF() && g1.nodes != []
    requires forall n :: n in g1.adj ==> Char(g1, n) == c0
    requires forall n :: n in g2.adj ==> Char(g2, n) == c0
    ensures Grouped(g1, g2).Valid() && forall c :: c in Grouped(g1, g2).m <==> c == c0
    ensures c0 in Grouped(g1, g2).m && Grouped(g1, g2).m[c0] == (g1.nodes, g2.nodes)
  {
    GroupedMeaning(g1, g2);
    forall c ensures c in Grouped(g1, g2).m <==> c == c0 {
      BothMembers(g1, g2, c0, c);
    }
    BothMembers(g1, g2, c0, c0);
  }

  lemma BothMembers(g1: View, g2: View, c0: Characteristic, c: Characteristic)
    requires g1.WF() && g2.WF()
    requires forall n :: n in g1.adj ==> Char(g1, n) == c0
    requires forall n :: n in g2.adj ==> Char(g2, n) == c0
    ensures Members(g1, g1.nodes, c) == (if c == c0 then g1.nodes else [])
    ensures Members(g2, g2.nodes, c) == (if c == c0 then g2.nodes else [])
  {
    AllMembers(g1, g1.nodes, c0, c);
    AllMembers(g2, g2.nodes, c0, c);
  }

  /** Then the layout is the single group of all vertices, in order. */
  lemma OneGroup(g1: View, g2: View, c0: Characteristic)
    requires g1.WF() && g2.WF() && g1.nodes != [] && |g1.nodes| == |g2.nodes|
    requires forall n :: n in g1.adj ==> Char(g1, n) == c0
    requires forall n :: n in g2.adj ==> Char(g2, n) == c0
    ensures AllBalanced(Grouped(g1, g2)) && Layout(g1, g2) == [(g1.nodes, g2.nodes)]
  {
    OnlyOne(g1, g2, c0);
    var groups := Grouped(g1, g2);
    assert Elems(groups.keys) == {c0} by {
      forall c ensures c in Elems(groups.keys) <==> c == c0 {
        assert c in groups.m <==> c == c0;
      }
    }
    SingleKey(groups.keys, c0);
    assert Values(groups) == [(g1.nodes, g2.nodes)];
    assert Sort([(g1.nodes, g2.nodes)]) == [(g1.nodes, g2.nodes)];
  }

  /** The two graphs form a single group, so the search runs over the
      layout [(a b c, z x y)]. */
  lemma CycleLayout()
    ensures Cycle().WF() && Tail().WF()
    ensures Cycle().Order() == Tail().Order() && AllBalanced(Grouped(Cycle(), Tail()))
    ensures Layout(Cycle(), Tail()) == [(["a", "b", "c"], ["z", "x", "y"])]
  {
    CycleShape();
    TailShape();
    OneGroup(Cycle(), Tail(), One);
  }

  /** A list without duplicates whose elements are one value is that
      value alone. */
  lemma SingleKey(keys: seq<Characteristic>, c: Characteristic)
    requires Distinct(keys) && Elems(keys) == {c}
    ensures keys == [c]
  {
    DistinctCard(keys);
    assert keys[0] in Elems(keys);
  }

  /** The assignment after a gets z and b gets x. */
  function Halfway(): Match
  {
    Extend(Extend(Match(map[], map[]), "a", "z"), "b", "x")
  }

  /** The last step of the search: c skips the taken z and x and gets y,
      which passes `good` since c -> a and y -> z are both edges. */
  lemma LastStep()
    ensures var groups := [(["a", "b", "c"], ["z", "x", "y"])];
            Placed(Cycle(), Tail(), groups) &&
            Search(Cycle(), Tail(), groups, 0, 2, Halfway()) == Some(Extend(Halfway(), "c", "y"))
  {
    var g1, g2 := Cycle(), Tail();
    var groups: seq<Group> := [(["a", "b", "c"], ["z", "x", "y"])];
    assert Placed(g1, g2, groups);
    var st2 := Halfway();
    var st3 := Extend(st2, "c", "y");
    assert Search(g1, g2, groups, 0, 3, st3) == Some(st3);
    assert Fits(g1, g2, st3, "c", "y");
    assert Try(g1, g2, groups, 0, 2, 2, st2) == Some(st3);
    assert Try(g1, g2, groups, 0, 2, 0, st2) == Some(st3);
  }

  /** The search, traced: a gets z; b skips the taken z and gets x; then
      the last step. Every step passes `good`, which follows out-edges
      only. */
  lemma CycleSearch()
    ensures var groups := [(["a", "b", "c"], ["z", "x", "y"])];
            Placed(Cycle(), Tail(), groups) &&
            Search(Cycle(), Tail(), groups, 0, 0, Match(map[], map[])) ==
              Some(Match(Found, map["z" := "a", "x" := "b", "y" := "c"]))
  {
    var g1, g2 := Cycle(), Tail();
    var groups: seq<Group> := [(["a", "b", "c"], ["z", "x", "y"])];
    LastStep();
    var st0 := Match(map[], map[]);
    var st1 := Extend(st0, "a", "z");
    var st3 := Extend(Halfway(), "c", "y");
    assert st3 == Match(Found, map["z" := "a", "x" := "b", "y" := "c"]);
    assert Fits(g1, g2, Halfway(), "b", "x");
    assert Try(g1, g2, groups, 0, 1, 1, st1) == Some(st3);
    assert Search(g1, g2, groups, 0, 1, st1) == Some(st3);
    assert Fits(g1, g2, st1, "a", "z");
    assert Try(g1, g2, groups, 0, 0, 0, st0) == Some(st3);
  }

  /** The cycle has no pair of vertices joined both ways, while y and z
      are; so no renaming of the vertices keeps adjacency. */
  lemma NotIsomorphic()
    ensures !Isomorphic(Cycle(), Tail())
  {
    var g1, g2 := Cycle(), Tail();
    forall phi | Bijection(g1, g2, phi) ensures !Consistent(g1, g2, phi) {
      assert "y" in phi.Values && "z" in phi.Values;
      var u :| u in phi && phi[u] == "y";
      var v :| v in phi && phi[v] == "z";
      assert g2.Adjacent(phi[u], phi[v]) && g2.Adjacent(phi[v], phi[u]);
      OneWay(u, v);
    }
  }

  /** No two vertices of the cycle are joined both ways. */
  lemma OneWay(u: Node, v: Node)
    ensures !(Cycle().Adjacent(u, v) && Cycle().Adjacent(v, u))
  {
    var g := Cycle();
    if g.Adjacent(u, v) {
      assert u == "a" || u == "b" || u == "c";
      assert g.adj[u] == [v];
      assert v in g.adj && g.adj[v] != [u];
    }
  }

  /** On these directed graphs, which are well-formed and whose edge
      records agree with adjacency, `isomorphism` returns `Found`, which
      sends the edge a -> b to the non-edge z -> x, although the graphs
      are not isomorphic at all. */
  lemma DirectedUnsound()
    ensures Cycle().WF() && Tail().WF() && Cycle().Tidy() && Tail().Tidy()
    ensures Isomorphism.Outcome(Cycle(), Tail()) == Some(Found)
    ensures !IsIsomorphism(Cycle(), Tail(), Found) && !Isomorphic(Cycle(), Tail())
  {
    CycleShape();
    TailShape();
    CycleLayout();
    CycleSearch();
    NotIsomorphic();
  }
}
