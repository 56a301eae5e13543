/** `breadth_first_bypass`, `breadth_first_search` and
    `breadth_first_paths`: queue-driven walks over a graph snapshot. The
    neighbours of a vertex are taken as a Python `set`, so they join the
    queue in an order the language leaves open. */
module Bfs {
  import opened Base
  import opened CommonMixin
  import opened Walks

  /** The queue of paths holds lengths that never decrease and span at
      most one step. */
  ghost predicate Layered(queue: seq<seq<Node>>)
  {
    forall i, j :: 0 <= i < j < |queue| ==> |queue[i]| <= |queue[j]| <= |queue[i]| + 1
  }

  /** Popping the head of a layered queue and appending paths one vertex
      longer than it keeps the queue layered. */
  lemma LayeredStep(queue: seq<seq<Node>>, xs: seq<seq<Node>>)
    requires Layered(queue) && queue != []
    requires forall c :: c in xs ==> |c| == |queue[0]| + 1
    ensures Layered(queue[1..] + xs)
  {
    var q := queue[1..] + xs;
    forall i, j | 0 <= i < j < |q| ensures |q[i]| <= |q[j]| <= |q[i]| + 1 {
      if j < |queue| - 1 {
        assert q[i] == queue[i + 1] && q[j] == queue[j + 1];
      } else if i < |queue| - 1 {
        assert q[i] == queue[i + 1] && q[j] in xs;
      } else {
        assert q[i] in xs && q[j] in xs;
      }
    }
  }

  /** While the queue is layered and covers every route, no route is
      shorter than one vertex past the head of the queue. */
  lemma ShortestAtHead(g: View, s: Node, t: Node, queue: seq<seq<Node>>)
    requires Covered(g, s, t, [], queue) && Layered(queue) && queue != []
    ensures forall w :: Route(g, s, t, w) ==> |queue[0]| + 1 <= |w|
  {
    forall w | Route(g, s, t, w) ensures |queue[0]| + 1 <= |w| {
      var k :| 1 <= k < |w| && w[..k] in queue;
      var j :| 0 <= j < |queue| && queue[j] == w[..k];
      assert j == 0 || |queue[0]| <= |queue[j]|;
    }
  }

  /** The routes found so far come in order of length, none longer than
      one vertex past any queued path. */
  ghost predicate FoundLayered(found: seq<seq<Node>>, queue: seq<seq<Node>>)
  {
    (forall i, j :: 0 <= i < j < |found| ==> |found[i]| <= |found[j]|) &&
    (forall i, j :: 0 <= i < |found| && 0 <= j < |queue| ==> |found[i]| <= |queue[j]| + 1)
  }

  lemma FoundLayeredStep(found: seq<seq<Node>>, queue: seq<seq<Node>>, xs: seq<seq<Node>>, extra: seq<seq<Node>>)
    requires FoundLayered(found, queue) && Layered(queue) && queue != []
    requires forall c :: c in xs ==> |c| == |queue[0]| + 1
    requires forall c :: c in extra ==> |c| == |queue[0]| + 1
    ensures FoundLayered(found + extra, queue[1..] + xs)
  {
    var f := found + extra;
    var q := queue[1..] + xs;
    forall i, j | 0 <= i < j < |f| ensures |f[i]| <= |f[j]| {
      if j >= |found| {
        assert f[j] in extra;
        if i < |found| {
          assert |found[i]| <= |queue[0]| + 1;
        } else {
          assert f[i] in extra;
        }
      }
    }
    forall i, j | 0 <= i < |f| && 0 <= j < |q| ensures |f[i]| <= |q[j]| + 1 {
      assert |queue[0]| <= |q[j]| by {
        if j < |queue| - 1 {
          assert q[j] == queue[j + 1];
        } else {
          assert q[j] in xs;
        }
      }
      if i < |found| {
        assert |found[i]| <= |queue[0]| + 1;
      } else {
        assert f[i] in extra;
      }
    }
  }

  /** `breadth_first_bypass`: raises NodeNotFoundError for a missing start;
      otherwise lists, from `start` on, every vertex reachable from it
      exactly once. */
  method BreadthFirstBypass(g: View, start: Node) returns (r: Result<seq<Node>>)
    requires g.WF()
    ensures r.Err? <==> start !in g.adj
    ensures r.Err? ==> r.error == NodeNotFoundError
    ensures r.Ok? ==> r.value != [] && r.value[0] == start && Distinct(r.value)
    ensures r.Ok? ==> forall v :: v in r.value <==> Reaches(g, start, v)
  {
    if start !in g.adj {
      return Err(NodeNotFoundError);
    }
    var visited: seq<Node> := [];
    var queue := [start];
    FrontierStart(g, start);
    while queue != []
      invariant Frontier(g, start, visited, queue)
      invariant visited == [] ==> queue == [start]
      invariant visited != [] ==> visited[0] == start
      decreases |g.adj.Keys| - |visited|, |queue|
    {
      ghost var before := queue;
      var node := queue[0];
      queue := queue[1..];
      if node !in visited {
        VisitBound(g, visited, node);
        var ns := SetOrder(Elems(g.adj[node]) - Elems(visited + [node]));
        FrontierVisit(g, start, visited, before, node, queue, ns);
        visited := visited + [node];
        queue := queue + ns;
      } else {
        FrontierSkip(g, start, visited, before, node, queue);
      }
    }
    FrontierDone(g, start, visited);
    return Ok(visited);
  }

  /** One pass of the path searches' loop on a queue: popping its head
      and appending that path's extensions keeps the search state and
      lowers the measure. */
  lemma ShiftStep(g: View, s: Node, t: Node, found: seq<seq<Node>>, queue: seq<seq<Node>>, ns: seq<Node>)
    requires g.WF() && Tracking(g, s, t, found, queue) && queue != [] && Unvisited(g, queue[0], ns)
    ensures Tracking(g, s, t, found + (if t in ns then [queue[0] + [t]] else []),
                     queue[1..] + Extensions(queue[0], Filter(ns, {t})))
    ensures QueueWeight(|g.adj.Keys|, queue[1..] + Extensions(queue[0], Filter(ns, {t})))
            < QueueWeight(|g.adj.Keys|, queue)
  {
    PopFirst(queue);
    ExpandStep(g, s, t, found, queue, queue[0], queue[1..], ns);
    QueueWeightFront(|g.adj.Keys|, queue);
  }

  /** A pass of `breadth_first_search` that does not meet the target; the
      queue stays layered. */
  lemma SearchStep(g: View, s: Node, t: Node, queue: seq<seq<Node>>, ns: seq<Node>)
    requires g.WF() && Tracking(g, s, t, [], queue) && Layered(queue) && queue != []
    requires Unvisited(g, queue[0], ns) && t !in ns
    ensures Tracking(g, s, t, [], queue[1..] + Extensions(queue[0], ns))
    ensures Layered(queue[1..] + Extensions(queue[0], ns))
    ensures QueueWeight(|g.adj.Keys|, queue[1..] + Extensions(queue[0], ns)) < QueueWeight(|g.adj.Keys|, queue)
  {
    PopFirst(queue);
    ExpandMiss(g, s, t, queue, queue[0], queue[1..], ns);
    QueueWeightFront(|g.adj.Keys|, queue);
    LayeredStep(queue, Extensions(queue[0], ns));
  }

  /** `breadth_first_search`: raises NodeNotFoundError for a missing start
      or target; otherwise returns a route from `start` to `target` with as
      few vertices as any, or None when there is none (the target is
      unreachable or is the start itself). */
  method BreadthFirstSearch(g: View, start: Node, target: Node) returns (r: Result<Option<seq<Node>>>)
    requires g.WF()
    ensures r.Err? <==> start !in g.adj || target !in g.adj
    ensures r.Err? ==> r.error == NodeNotFoundError
    ensures r.Ok? && r.value.Some? ==> Route(g, start, target, r.value.value)
    ensures r.Ok? && r.value.Some? ==> forall w :: Route(g, start, target, w) ==> |r.value.value| <= |w|
    ensures r.Ok? ==> (r.value.None? <==> start == target || !Reaches(g, start, target))
  {
    if start !in g.adj || target !in g.adj {
      return Err(NodeNotFoundError);
    }
    var queue := [[start]];
    TrackingStart(g, start, target);
    while queue != []
      invariant Tracking(g, start, target, [], queue) && Layered(queue)
      decreases QueueWeight(|g.adj.Keys|, queue)
    {
      ghost var before := queue;
      var path := queue[0];
      queue := queue[1..];
      assert Pending(g, start, target, path);
      var ns := SetOrder(Elems(g.adj[path[|path| - 1]]) - Elems(path));
      var hit, q := ExtendUntil(path, ns, target, queue);
      if hit.Some? {
        FoundRoute(g, start, target, path, ns);
        RouteIffReach(g, start, target);
        ShortestAtHead(g, start, target, before);
        return Ok(hit);
      }
      SearchStep(g, start, target, before, ns);
      queue := q;
    }
    CoveredDone(g, start, target, []);
    RouteIffReach(g, start, target);
    return Ok(None);
  }

  /** The queue stays layered and the list of routes in order of length. */
  lemma PathsOrderStep(found: seq<seq<Node>>, queue: seq<seq<Node>>, ns: seq<Node>, t: Node)
    requires Layered(queue) && FoundLayered(found, queue) && queue != []
    ensures Layered(queue[1..] + Extensions(queue[0], Filter(ns, {t})))
    ensures FoundLayered(found + (if t in ns then [queue[0] + [t]] else []),
                         queue[1..] + Extensions(queue[0], Filter(ns, {t})))
  {
    var xs := Extensions(queue[0], Filter(ns, {t}));
    LayeredStep(queue, xs);
    FoundLayeredStep(found, queue, xs, if t in ns then [queue[0] + [t]] else []);
  }

  /** Popping the head of the queue and queueing its extensions keeps
      every path unique. */
  lemma PathsUniqueStep(found: seq<seq<Node>>, queue: seq<seq<Node>>, ns: seq<Node>, t: Node)
    requires Unique(found, queue) && queue != [] && Distinct(ns)
    ensures Unique(found + (if t in ns then [queue[0] + [t]] else []),
                   queue[1..] + Extensions(queue[0], Filter(ns, {t})))
  {
    DistinctFront(queue);
    PopFirst(queue);
    UniqueStep(found, queue, queue[0], queue[1..], ns, t);
  }

  /** `breadth_first_paths`: raises NodeNotFoundError for a missing start
      or target; otherwise lists the routes from `start` to `target`,
      shorter ones first, each once, and every route is among them. */
  method BreadthFirstPaths(g: View, start: Node, target: Node) returns (r: Result<seq<seq<Node>>>)
    requires g.WF()
    ensures r.Err? <==> start !in g.adj || target !in g.adj
    ensures r.Err? ==> r.error == NodeNotFoundError
    ensures r.Ok? ==> forall w :: w in r.value <==> Route(g, start, target, w)
    ensures r.Ok? ==> forall i, j :: 0 <= i < j < |r.value| ==> |r.value[i]| <= |r.value[j]|
    ensures r.Ok? ==> Distinct(r.value)
  {
    if start !in g.adj || target !in g.adj {
      return Err(NodeNotFoundError);
    }
    var found: seq<seq<Node>> := [];
    var queue := [[start]];
    TrackingStart(g, start, target);
    while queue != []
      invariant Tracking(g, start, target, found, queue)
      invariant Layered(queue) && FoundLayered(found, queue)
      invariant Unique(found, queue)
      decreases QueueWeight(|g.adj.Keys|, queue)
    {
      ghost var before := queue;
      var path := queue[0];
      queue := queue[1..];
      assert Pending(g, start, target, path);
      var ns := SetOrder(Elems(g.adj[path[|path| - 1]]) - Elems(path));
      ShiftStep(g, start, target, found, before, ns);
      PathsOrderStep(found, before, ns, target);
      PathsUniqueStep(found, before, ns, target);
      queue, found := ExtendAll(path, ns, target, queue, found);
    }
    CoveredDone(g, start, target, found);
    return Ok(found);
  }
}
