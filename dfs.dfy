/** `depth_first_bypass`, `depth_first_search` and `depth_first_paths`:
    stack-driven walks over a graph snapshot. They differ from the
    breadth-first ones only in popping the newest entry of the worklist;
    the neighbours of a vertex again come as a Python `set`, in an order
    the language leaves open. */
module Dfs {
  import opened Base
  import opened CommonMixin
  import opened Walks

  /** `depth_first_bypass`: raises NodeNotFoundError for a missing start;
      otherwise lists, from `start` on, every vertex reachable from it
      exactly once. */
  method DepthFirstBypass(g: View, start: Node) returns (r: Result<seq<Node>>)
    requires g.WF()
    ensures r.Err? <==> start !in g.adj
    ensures r.Err? ==> r.error == NodeNotFoundError
    ensures r.Ok? ==> r.value != [] && r.value[0] == start && Distinct(r.value)
    ensures r.Ok? ==> forall v :: v in r.value <==> Reaches(g, start, v)
  {
    if start !in g.adj {
      return Err(NodeNotFoundError);
    }
    var visited: seq<Node> := [];
    var stack := [start];
    FrontierStart(g, start);
    while stack != []
      invariant Frontier(g, start, visited, stack)
      invariant visited == [] ==> stack == [start]
      invariant visited != [] ==> visited[0] == start
      decreases |g.adj.Keys| - |visited|, |stack|
    {
      ghost var before := stack;
      var node := stack[|stack| - 1];
      stack := stack[..|stack| - 1];
      PopLast(before);
      if node !in visited {
        VisitBound(g, visited, node);
        var ns := SetOrder(Elems(g.adj[node]) - Elems(visited + [node]));
        FrontierVisit(g, start, visited, before, node, stack, ns);
        visited := visited + [node];
        stack := stack + ns;
      } else {
        FrontierSkip(g, start, visited, before, node, stack);
      }
    }
    FrontierDone(g, start, visited);
    return Ok(visited);
  }

  /** One pass of the path searches' loop on a stack: popping its top and
      pushing that path's extensions keeps the search state and lowers the
      measure. */
  lemma PopStep(g: View, s: Node, t: Node, found: seq<seq<Node>>, stack: seq<seq<Node>>, ns: seq<Node>)
    requires g.WF() && Tracking(g, s, t, found, stack) && stack != [] && Unvisited(g, stack[|stack| - 1], ns)
    ensures Tracking(g, s, t, found + (if t in ns then [stack[|stack| - 1] + [t]] else []),
                     stack[..|stack| - 1] + Extensions(stack[|stack| - 1], Filter(ns, {t})))
    ensures QueueWeight(|g.adj.Keys|, stack[..|stack| - 1] + Extensions(stack[|stack| - 1], Filter(ns, {t})))
            < QueueWeight(|g.adj.Keys|, stack)
  {
    PopLast(stack);
    ExpandStep(g, s, t, found, stack, stack[|stack| - 1], stack[..|stack| - 1], ns);
  }

  /** A pass of `depth_first_search` that does not meet the target. */
  lemma SearchStep(g: View, s: Node, t: Node, stack: seq<seq<Node>>, ns: seq<Node>)
    requires g.WF() && Tracking(g, s, t, [], stack) && stack != []
    requires Unvisited(g, stack[|stack| - 1], ns) && t !in ns
    ensures Tracking(g, s, t, [], stack[..|stack| - 1] + Extensions(stack[|stack| - 1], ns))
    ensures QueueWeight(|g.adj.Keys|, stack[..|stack| - 1] + Extensions(stack[|stack| - 1], ns))
            < QueueWeight(|g.adj.Keys|, stack)
  {
    PopLast(stack);
    ExpandMiss(g, s, t, stack, stack[|stack| - 1], stack[..|stack| - 1], ns);
  }

  /** `depth_first_search`: raises NodeNotFoundError for a missing start or
      target; otherwise returns some route from `start` to `target`, or
      None exactly when there is none (the target is unreachable or is the
      start itself). */
  method DepthFirstSearch(g: View, start: Node, target: Node) returns (r: Result<Option<seq<Node>>>)
    requires g.WF()
    ensures r.Err? <==> start !in g.adj || target !in g.adj
    ensures r.Err? ==> r.error == NodeNotFoundError
    ensures r.Ok? && r.value.Some? ==> Route(g, start, target, r.value.value)
    ensures r.Ok? ==> (r.value.None? <==> start == target || !Reaches(g, start, target))
  {
    if start !in g.adj || target !in g.adj {
      return Err(NodeNotFoundError);
    }
    var stack := [[start]];
    TrackingStart(g, start, target);
    while stack != []
      invariant Tracking(g, start, target, [], stack)
      decreases QueueWeight(|g.adj.Keys|, stack)
    {
      ghost var before := stack;
      var path := stack[|stack| - 1];
      stack := stack[..|stack| - 1];
      assert Pending(g, start, target, path);
      var ns := SetOrder(Elems(g.adj[path[|path| - 1]]) - Elems(path));
      var hit, s := ExtendUntil(path, ns, target, stack);
      if hit.Some? {
        FoundRoute(g, start, target, path, ns);
        RouteIffReach(g, start, target);
        return Ok(hit);
      }
      SearchStep(g, start, target, before, ns);
      stack := s;
    }
    CoveredDone(g, start, target, []);
    RouteIffReach(g, start, target);
    return Ok(None);
  }

  /** Popping the top of the stack and pushing its extensions keeps every
      path unique. */
  lemma PathsUniqueStep(found: seq<seq<Node>>, stack: seq<seq<Node>>, ns: seq<Node>, t: Node)
    requires Unique(found, stack) && stack != [] && Distinct(ns)
    ensures Unique(found + (if t in ns then [stack[|stack| - 1] + [t]] else []),
                   stack[..|stack| - 1] + Extensions(stack[|stack| - 1], Filter(ns, {t})))
  {
    DistinctBack(stack);
    PopLast(stack);
    UniqueStep(found, stack, stack[|stack| - 1], stack[..|stack| - 1], ns, t);
  }

  /** `depth_first_paths`: raises NodeNotFoundError for a missing start or
      target; otherwise lists exactly the routes from `start` to
      `target`, each once. */
  method DepthFirstPaths(g: View, start: Node, target: Node) returns (r: Result<seq<seq<Node>>>)
    requires g.WF()
    ensures r.Err? <==> start !in g.adj || target !in g.adj
    ensures r.Err? ==> r.error == NodeNotFoundError
    ensures r.Ok? ==> forall w :: w in r.value <==> Route(g, start, target, w)
    ensures r.Ok? ==> Distinct(r.value)
  {
    if start !in g.adj || target !in g.adj {
      return Err(NodeNotFoundError);
    }
    var found: seq<seq<Node>> := [];
    var stack := [[start]];
    TrackingStart(g, start, target);
    while stack != []
      invariant Tracking(g, start, target, found, stack)
      invariant Unique(found, stack)
      decreases QueueWeight(|g.adj.Keys|, stack)
    {
      ghost var before := stack;
      var path := stack[|stack| - 1];
      stack := stack[..|stack| - 1];
      assert Pending(g, start, target, path);
      var ns := SetOrder(Elems(g.adj[path[|path| - 1]]) - Elems(path));
      PopStep(g, start, target, found, before, ns);
      PathsUniqueStep(found, before, ns, target);
      stack, found := ExtendAll(path, ns, target, stack, found);
    }
    CoveredDone(g, start, target, found);
    return Ok(found);
  }
}
