/**
 * The random cycle seed of random_sol.py: walk from the start vertex along
 * randomly chosen out-edges until a vertex repeats, then close the route back
 * to the start.  The random choice is an arbitrary choice among the current
 * vertex's out-edges, and networkx's shortest_path is a parameter whose
 * answers are assumed to be walks to the start (None when no path exists).
 */
module RandomCycle {
  import opened Results
  import opened Seqs

  /** Out-neighbour lists: g[u] holds the heads of the edges leaving u. */
  type Graph = seq<seq<nat>>

  ghost predicate ValidGraph(g: Graph)
  {
    forall u, t :: 0 <= u < |g| && 0 <= t < |g[u]| ==> g[u][t] < |g|
  }

  /** There is an edge u -> v. */
  predicate Step(g: Graph, u: nat, v: nat)
  {
    u < |g| && v in g[u]
  }

  /** Consecutive vertices are joined by edges. */
  predicate IsWalk(g: Graph, p: seq<nat>)
  {
    forall t :: 0 <= t < |p| - 1 ==> Step(g, p[t], p[t + 1])
  }

  /** p is a walk from u to v. */
  ghost predicate LeadsTo(g: Graph, p: seq<nat>, u: nat, v: nat)
  {
    |p| > 0 && p[0] == u && p[|p| - 1] == v && IsWalk(g, p)
  }

  /** What shortest_path(G, source=u, target=target) may return, when it returns. */
  ghost predicate PathOracle(g: Graph, shortestPath: nat -> Option<seq<nat>>, target: nat)
  {
    forall u: nat :: u < |g| && shortestPath(u).Some? ==> LeadsTo(g, shortestPath(u).value, u, target)
  }

  /** A value `path` can hold inside the loop: it starts at start, repeats nothing and follows edges. */
  ghost predicate Explored(g: Graph, start: nat, path: seq<nat>)
  {
    |path| > 0 && path[0] == start && Distinct(path) && IsWalk(g, path)
  }

  /** The walk `path` stepped on to the already seen `c`, and `route` is how it was closed. */
  ghost predicate Closes(g: Graph, shortestPath: nat -> Option<seq<nat>>, start: nat, path: seq<nat>, c: nat, route: seq<nat>)
  {
    Explored(g, start, path) && Step(g, path[|path| - 1], c) && c in path &&
    if c == start then route == path + [start]
    else shortestPath(c).Some? && route == path + shortestPath(c).value
  }

  /** The walk `path` reached a vertex without out-edges (random.choice of an empty list). */
  ghost predicate Stuck(g: Graph, start: nat, path: seq<nat>)
  {
    Explored(g, start, path) && path[|path| - 1] < |g| && g[path[|path| - 1]] == []
  }

  /** The walk closed on `c`, from which shortest_path finds no way back to start. */
  ghost predicate Unreachable(g: Graph, shortestPath: nat -> Option<seq<nat>>, start: nat, path: seq<nat>, c: nat)
  {
    Explored(g, start, path) && Step(g, path[|path| - 1], c) && c in path && c != start &&
    shortestPath(c).None?
  }

  datatype CycleError =
    | DeadEnd(vertex: nat)  // random.choice raised IndexError at this vertex
    | NoPath(source: nat)   // shortest_path raised NetworkXNoPath from this vertex

  /** Every result generate can produce, for some sequence of random choices. */
  ghost predicate Outcome(g: Graph, shortestPath: nat -> Option<seq<nat>>, start: nat, r: Result<seq<nat>, CycleError>)
  {
    match r
    case Success(route) => exists path, c :: Closes(g, shortestPath, start, path, c, route)
    case Failure(DeadEnd(v)) => exists path :: Stuck(g, start, path) && path[|path| - 1] == v
    case Failure(NoPath(c)) => exists path :: Unreachable(g, shortestPath, start, path, c)
  }

  lemma {:induction false} WalkAppend(g: Graph, p: seq<nat>, q: seq<nat>)
    requires p != [] && q != [] && IsWalk(g, p) && IsWalk(g, q)
    requires Step(g, p[|p| - 1], q[0])
    ensures IsWalk(g, p + q)
  {
    var pq := p + q;
    forall t | 0 <= t < |pq| - 1
      ensures Step(g, pq[t], pq[t + 1])
    {
      if t < |p| - 1 {
        assert pq[t] == p[t] && pq[t + 1] == p[t + 1];
      } else if t == |p| - 1 {
        assert pq[t] == p[|p| - 1] && pq[t + 1] == q[0];
      } else {
        assert pq[t] == q[t - |p|] && pq[t + 1] == q[t - |p| + 1];
      }
    }
  }

  /** An explored walk visits distinct vertices of the graph, so it has at most |V| of them. */
  lemma ExploredBound(g: Graph, start: nat, path: seq<nat>, c: nat)
    requires Explored(g, start, path) && Step(g, path[|path| - 1], c)
    ensures Below(path, |g|) && |path| <= |g|
  {
    forall t | 0 <= t < |path|
      ensures path[t] < |g|
    {
      if t < |path| - 1 {
        assert Step(g, path[t], path[t + 1]);
      }
    }
    DistinctBound(path, |g|);
  }

  /**
   * However the random choices fell, a closed route is a cycle through start:
   * it begins and ends at start, follows edges throughout, keeps the explored
   * walk as its prefix, and that walk has at most |V| vertices.
   */
  lemma ClosedRouteIsCycle(g: Graph, shortestPath: nat -> Option<seq<nat>>, start: nat, path: seq<nat>, c: nat, route: seq<nat>)
    requires PathOracle(g, shortestPath, start)
    requires Closes(g, shortestPath, start, path, c, route)
    ensures LeadsTo(g, route, start, start) && |route| > |path|
    ensures route[..|path|] == path && |path| <= |g|
  {
    ExploredBound(g, start, path, c);
    var tail := if c == start then [start] else shortestPath(c).value;
    assert route == path + tail;
    if c == start {
      assert IsWalk(g, tail);
    } else {
      assert c < |g|;
      assert LeadsTo(g, tail, c, start);
    }
    WalkAppend(g, path, tail);
    assert route[..|path|] == path;
  }

  /** generate(G, start). */
  method Generate(g: Graph, start: nat, shortestPath: nat -> Option<seq<nat>>) returns (r: Result<seq<nat>, CycleError>)
    requires ValidGraph(g) && start < |g|
    requires PathOracle(g, shortestPath, start)
    ensures Outcome(g, shortestPath, start, r)
    ensures r.Success? ==> LeadsTo(g, r.value, start, start) && |r.value| >= 2
  {
    var path: seq<nat> := [];
    var seen: set<nat> := {};
    var curr: nat := start;
    while curr !in seen
      invariant curr < |g|
      invariant seen == Elems(path)
      invariant Distinct(path) && Below(path, |g|) && |path| <= |g|
      invariant path == [] ==> curr == start
      invariant path != [] ==> Explored(g, start, path) && Step(g, path[|path| - 1], curr)
      decreases |g| - |path|
    {
      seen := seen + {curr};
      path := path + [curr];
      DistinctBound(path, |g|);
      assert IsWalk(g, path);
      if g[curr] == [] {
        assert Stuck(g, start, path);
        return Failure(DeadEnd(curr));
      }
      var t :| 0 <= t < |g[curr]|;
      curr := g[curr][t];
    }
    assert curr in path;
    if curr == start {
      r := Success(path + [start]);
      assert Closes(g, shortestPath, start, path, curr, r.value);
      ClosedRouteIsCycle(g, shortestPath, start, path, curr, r.value);
    } else {
      match shortestPath(curr)
      case None =>
        assert Unreachable(g, shortestPath, start, path, curr);
        r := Failure(NoPath(curr));
      case Some(back) =>
        r := Success(path + back);
        assert Closes(g, shortestPath, start, path, curr, r.value);
        ClosedRouteIsCycle(g, shortestPath, start, path, curr, r.value);
    }
  }
}
