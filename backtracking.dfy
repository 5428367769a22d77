// BackTrackingTSP: exhaustive depth-first search from vertex 0 over positive
// edges, marking a vertex visited on the way down and unmarking it on the way
// back, and cutting a branch as soon as its cost reaches the best tour found.

module BackTracking {
  import opened Wrappers
  import opened Graphs
  import opened Vertices
  import opened SearchPaths

  /** The best tour found so far, as `shortestPathCost` and `lastVertex` hold it:
      none yet, or a linked chain through every vertex over positive edges,
      closed by a positive edge back to 0, whose closed cost is the best cost. */
  ghost predicate BestTour(g: seq<seq<int>>, n: nat, cost: int, last: Option<Vertex>)
    requires IsMatrix(g, n)
  {
    match last
    case None => cost == INF
    case Some(v) =>
      && Linked(g, n, v)
      && IsTour(n, Path(v) + [0])
      && PositiveEdges(g, n, Path(v) + [0])
      && g[v.id][0] > 0
      && cost == v.costToReach + g[v.id][0]
      && cost == Cost(g, n, Path(v) + [0])
  }

  /** A full path with an edge back to 0 is a best-tour candidate. */
  lemma NewBest(g: seq<seq<int>>, n: nat, visited: seq<bool>, v: Vertex)
    requires IsMatrix(g, n) && OnPath(g, n, visited, v, n) && g[v.id][0] > 0
    ensures BestTour(g, n, v.costToReach + g[v.id][0], Some(v))
  {
    CloseFullPath(g, n, visited, v);
  }

  /** The only tour extending a full path p is p closed by 0. */
  lemma OnlyClosing(n: nat, p: seq<int>, t: seq<int>)
    requires |p| == n && IsTour(n, t) && t[..n] == p
    ensures t == p + [0]
  {
    TourSplit(n, t);
  }

  /** The best tour either improved strictly or stayed exactly as it was. */
  ghost predicate NoWorse(c0: int, l0: Option<Vertex>, c: int, l: Option<Vertex>)
  {
    c < c0 || (c == c0 && l == l0)
  }

  /** Every tour over positive edges that starts with p costs at least `cost`. */
  ghost predicate Bounded(g: seq<seq<int>>, n: nat, cost: int, p: seq<int>)
    requires IsMatrix(g, n)
  {
    forall t :: IsTour(n, t) && PositiveEdges(g, n, t) && |p| <= |t| && t[..|p|] == p ==>
      cost <= Cost(g, n, t)
  }

  /** Bounded, for the tours whose vertex after p is below `limit`. */
  ghost predicate BoundedBelow(g: seq<seq<int>>, n: nat, cost: int, p: seq<int>, limit: int)
    requires IsMatrix(g, n)
  {
    forall t :: IsTour(n, t) && PositiveEdges(g, n, t) && |p| < |t| && t[..|p|] == p && t[|p|] < limit ==>
      cost <= Cost(g, n, t)
  }

  /** Bounded, for the tours whose vertex after p is i. */
  ghost predicate BoundedAt(g: seq<seq<int>>, n: nat, cost: int, p: seq<int>, i: int)
    requires IsMatrix(g, n)
  {
    forall t :: IsTour(n, t) && PositiveEdges(g, n, t) && |p| < |t| && t[..|p|] == p && t[|p|] == i ==>
      cost <= Cost(g, n, t)
  }

  /** A full path is bounded by any cost up to its closed cost; with no edge
      back to 0 it is bounded by every cost. */
  lemma CloseBound(g: seq<seq<int>>, n: nat, visited: seq<bool>, v: Vertex, cost: int)
    requires IsMatrix(g, n) && OnPath(g, n, visited, v, n)
    requires g[v.id][0] <= 0 || cost <= v.costToReach + g[v.id][0]
    ensures Bounded(g, n, cost, Path(v))
  {
    CloseFullPath(g, n, visited, v);
    forall t | IsTour(n, t) && PositiveEdges(g, n, t) && n <= |t| && t[..n] == Path(v)
      ensures cost <= Cost(g, n, t)
    {
      OnlyClosing(n, Path(v), t);
    }
  }

  /** A vertex the search skips (marked, or no edge to it) starts no tour. */
  lemma SkipBound(g: seq<seq<int>>, n: nat, visited: seq<bool>, v: Vertex, k: nat, i: int, cost: int)
    requires IsMatrix(g, n) && OnPath(g, n, visited, v, k) && 0 <= i < n
    requires k == n ==> g[v.id][0] <= 0
    requires visited[i] || g[v.id][i] <= 0
    ensures BoundedAt(g, n, cost, Path(v), i)
  {
    if k == n {
      CloseBound(g, n, visited, v, cost);
    } else {
      forall t | IsTour(n, t) && PositiveEdges(g, n, t) && k < |t| && t[..k] == Path(v)
        ensures 0 <= t[k] < n && !visited[t[k]] && g[v.id][t[k]] > 0
      {
        TourThrough(g, n, visited, v, k, t);
      }
    }
  }

  /** A vertex the search steps to: either the child search bounded its tours,
      or the step alone already costs at least `cost`. */
  lemma StepBound(g: seq<seq<int>>, n: nat, visited: seq<bool>, v: Vertex, k: nat, i: int, cost: int)
    requires IsMatrix(g, n) && OnPath(g, n, visited, v, k) && k < n && 0 <= i < n
    requires Bounded(g, n, cost, Path(v) + [i]) || cost <= v.costToReach + g[v.id][i]
    ensures BoundedAt(g, n, cost, Path(v), i)
  {
    forall t | IsTour(n, t) && PositiveEdges(g, n, t) && k < |t| && t[..k] == Path(v) && t[k] == i
      ensures cost <= Cost(g, n, t)
    {
      TourThrough(g, n, visited, v, k, t);
    }
  }

  /** One more vertex covered, with a best cost that only went down. */
  lemma BoundNext(g: seq<seq<int>>, n: nat, c1: int, c2: int, p: seq<int>, i: int)
    requires IsMatrix(g, n) && c2 <= c1
    requires BoundedBelow(g, n, c1, p, i) && BoundedAt(g, n, c2, p, i)
    ensures BoundedBelow(g, n, c2, p, i + 1)
  {
  }

  /** Every vertex covered. */
  lemma BoundAll(g: seq<seq<int>>, n: nat, cost: int, p: seq<int>)
    requires IsMatrix(g, n) && |p| <= n && BoundedBelow(g, n, cost, p, n)
    ensures Bounded(g, n, cost, p)
  {
  }

  /** A tour that extends a search node p by vertex t[|p|] extends p + [t[|p|]],
      uses a vertex not on p, and costs at least the extended prefix. */
  lemma TourThrough(g: seq<seq<int>>, n: nat, visited: seq<bool>, v: Vertex, k: nat, t: seq<int>)
    requires IsMatrix(g, n) && OnPath(g, n, visited, v, k) && k < n
    requires IsTour(n, t) && PositiveEdges(g, n, t) && t[..k] == Path(v)
    ensures 0 <= t[k] < n && !visited[t[k]] && g[v.id][t[k]] > 0
    ensures t[..k + 1] == Path(v) + [t[k]]
    ensures v.costToReach + g[v.id][t[k]] <= Cost(g, n, t)
  {
    var p := Path(v);
    assert t[..k + 1] == p + [t[k]];
    assert t[k - 1] == p[k - 1] == v.id;
    forall a | 0 <= a < k ensures p[a] != t[k] {
      assert t[..n][a] == p[a] && t[..n][k] == t[k];
    }
    LinkedPath(g, n, v);
    CostSnoc(g, n, p, t[k]);
    PrefixCostBelow(g, n, t, k + 1);
  }

  /** The root vertex starts a search path when only 0 is marked. */
  lemma RootOnPath(g: seq<seq<int>>, n: nat, visited: seq<bool>)
    requires IsMatrix(g, n) && n >= 1 && |visited| == n && Marks(visited, [0])
    ensures OnPath(g, n, visited, Vertex(0, None, 0), 1)
  {
    assert Path(Vertex(0, None, 0)) == [0];
    CountMarksRoot(visited);
  }

  /** Every tour starts at 0, so a bound on the tours through [0] bounds them all. */
  lemma BoundedFromRoot(g: seq<seq<int>>, n: nat, cost: int)
    requires IsMatrix(g, n) && Bounded(g, n, cost, [0])
    ensures forall t :: IsTour(n, t) && PositiveEdges(g, n, t) ==> cost <= Cost(g, n, t)
  {
    forall t | IsTour(n, t) && PositiveEdges(g, n, t)
      ensures cost <= Cost(g, n, t)
    {
      assert t[..1] == [0];
    }
  }

  class BackTrackingTSP {
    const n: nat
    const graph: seq<seq<int>>
    const visitedVertices: array<bool>
    var shortestPathCost: int
    var lastVertex: Option<Vertex>

    /** Between calls only the root is marked, and the best tour is consistent. */
    ghost predicate Valid()
      reads this, visitedVertices
    {
      && IsMatrix(graph, n) && n >= 1
      && visitedVertices.Length == n
      && Marks(visitedVertices[..], [0])
      && BestTour(graph, n, shortestPathCost, lastVertex)
    }

    /** Needs at least one vertex: the constructor marks vertex 0. */
    constructor (graph: seq<seq<int>>)
      requires IsMatrix(graph, |graph|) && |graph| >= 1
      ensures Valid()
      ensures this.graph == graph && n == |graph|
      ensures shortestPathCost == INF && lastVertex == None
    {
      this.n := |graph|;
      this.graph := graph;
      var visited := new bool[|graph|](_ => false);
      visited[0] := true;
      this.visitedVertices := visited;
      this.shortestPathCost := INF;
      this.lastVertex := None;
    }

    /** Runs the search from `new Vertex(0, null, 0)`: the result is a tour cost
        no tour over positive edges beats, and it is INF only if no tour was found. */
    method GetShortestPathCost() returns (cost: int)
      requires Valid()
      modifies this, visitedVertices
      ensures Valid()
      ensures cost == shortestPathCost <= old(shortestPathCost)
      ensures forall t :: IsTour(n, t) && PositiveEdges(graph, n, t) ==> cost <= Cost(graph, n, t)
    {
      var root := Vertex(0, None, 0);
      RootOnPath(graph, n, visitedVertices[..]);
      BackTrack(root, 1);
      BoundedFromRoot(graph, n, shortestPathCost);
      cost := shortestPathCost;
    }

    /** The recursive `backTracking(currentVertex, verticesVisited)`. */
    method BackTrack(current: Vertex, verticesVisited: nat)
      requires IsMatrix(graph, n) && visitedVertices.Length == n
      requires OnPath(graph, n, visitedVertices[..], current, verticesVisited)
      requires BestTour(graph, n, shortestPathCost, lastVertex)
      modifies this, visitedVertices
      decreases n - verticesVisited, 2, 0
      ensures visitedVertices[..] == old(visitedVertices[..])
      ensures BestTour(graph, n, shortestPathCost, lastVertex)
      ensures NoWorse(old(shortestPathCost), old(lastVertex), shortestPathCost, lastVertex)
      ensures Bounded(graph, n, shortestPathCost, Path(current))
    {
      if verticesVisited == n && graph[current.id][0] > 0 {
        CloseTour(current);
      } else {
        Explore(current, verticesVisited);
      }
    }

    /** The `for (int i = 0; i < graph.length; i++)` loop of `backTracking`,
        reached unless the path is full and has an edge back to 0. */
    method Explore(current: Vertex, verticesVisited: nat)
      requires IsMatrix(graph, n) && visitedVertices.Length == n
      requires OnPath(graph, n, visitedVertices[..], current, verticesVisited)
      requires verticesVisited == n ==> graph[current.id][0] <= 0
      requires BestTour(graph, n, shortestPathCost, lastVertex)
      modifies this, visitedVertices
      decreases n - verticesVisited, 1, 0
      ensures visitedVertices[..] == old(visitedVertices[..])
      ensures BestTour(graph, n, shortestPathCost, lastVertex)
      ensures NoWorse(old(shortestPathCost), old(lastVertex), shortestPathCost, lastVertex)
      ensures Bounded(graph, n, shortestPathCost, Path(current))
    {
      ghost var visited := visitedVertices[..];
      var i := 0;
      while i < n
        invariant 0 <= i <= n
        invariant visitedVertices[..] == visited
        invariant BestTour(graph, n, shortestPathCost, lastVertex)
        invariant NoWorse(old(shortestPathCost), old(lastVertex), shortestPathCost, lastVertex)
        invariant BoundedBelow(graph, n, shortestPathCost, Path(current), i)
      {
        ghost var best := shortestPathCost;
        TryVertex(current, verticesVisited, i, visited);
        BoundNext(graph, n, best, shortestPathCost, Path(current), i);
        i := i + 1;
      }
      BoundAll(graph, n, shortestPathCost, Path(current));
    }

    /** The `verticesVisited == n` case of `backTracking` when there is an edge
        back to 0: the closed tour replaces the best one if it is strictly cheaper. */
    method CloseTour(current: Vertex)
      requires IsMatrix(graph, n) && visitedVertices.Length == n
      requires OnPath(graph, n, visitedVertices[..], current, n) && graph[current.id][0] > 0
      requires BestTour(graph, n, shortestPathCost, lastVertex)
      modifies this
      ensures BestTour(graph, n, shortestPathCost, lastVertex)
      ensures shortestPathCost == (if current.costToReach + graph[current.id][0] < old(shortestPathCost)
        then current.costToReach + graph[current.id][0] else old(shortestPathCost))
      ensures lastVertex == (if current.costToReach + graph[current.id][0] < old(shortestPathCost)
        then Some(current) else old(lastVertex))
      ensures Bounded(graph, n, shortestPathCost, Path(current))
    {
      var id := current.id;
      ghost var visited := visitedVertices[..];
      if shortestPathCost > current.costToReach + graph[id][0] {
        NewBest(graph, n, visited, current);
        shortestPathCost := current.costToReach + graph[id][0];
        lastVertex := Some(current);
      }
      CloseBound(graph, n, visited, current, shortestPathCost);
    }

    /** One turn of the `for (int i ...)` loop of `backTracking`: vertex i is
        tried only if it is unvisited and has a positive edge from the current one. */
    method TryVertex(current: Vertex, verticesVisited: nat, i: nat, ghost visited: seq<bool>)
      requires IsMatrix(graph, n) && visitedVertices.Length == n && i < n
      requires visitedVertices[..] == visited && OnPath(graph, n, visited, current, verticesVisited)
      requires verticesVisited == n ==> graph[current.id][0] <= 0
      requires BestTour(graph, n, shortestPathCost, lastVertex)
      modifies this, visitedVertices
      decreases n - verticesVisited, 0, 1
      ensures visitedVertices[..] == visited
      ensures BestTour(graph, n, shortestPathCost, lastVertex)
      ensures NoWorse(old(shortestPathCost), old(lastVertex), shortestPathCost, lastVertex)
      ensures BoundedAt(graph, n, shortestPathCost, Path(current), i)
    {
      if !visitedVertices[i] && graph[current.id][i] > 0 {
        Descend(current, verticesVisited, i);
      } else {
        SkipBound(graph, n, visitedVertices[..], current, verticesVisited, i, shortestPathCost);
      }
    }

    /** Mark i, descend if the extended path is still cheaper than the best
        tour, then unmark i. */
    method Descend(current: Vertex, verticesVisited: nat, i: nat)
      requires IsMatrix(graph, n) && visitedVertices.Length == n && i < n
      requires OnPath(graph, n, visitedVertices[..], current, verticesVisited)
      requires !visitedVertices[i] && graph[current.id][i] > 0
      requires BestTour(graph, n, shortestPathCost, lastVertex)
      modifies this, visitedVertices
      decreases n - verticesVisited, 0, 0
      ensures visitedVertices[..] == old(visitedVertices[..])
      ensures BestTour(graph, n, shortestPathCost, lastVertex)
      ensures NoWorse(old(shortestPathCost), old(lastVertex), shortestPathCost, lastVertex)
      ensures BoundedAt(graph, n, shortestPathCost, Path(current), i)
    {
      var id := current.id;
      ghost var before := visitedVertices[..];
      Extend(graph, n, before, current, verticesVisited, i);
      SetMark(visitedVertices, i, true);
      var nextVertex := Vertex(i, Some(current), current.costToReach + graph[id][i]);
      if current.costToReach + graph[id][i] < shortestPathCost {
        BackTrack(nextVertex, verticesVisited + 1);
      }
      SetMark(visitedVertices, i, false);
      Unmark(before, i);
      StepBound(graph, n, before, current, verticesVisited, i, shortestPathCost);
    }

    /** `getShortestPath`: the stack 0, lastVertex, ..., root, listed bottom first;
        popped, it is the best tour. */
    method GetShortestPath() returns (shortestPath: seq<int>)
      requires Valid()
      ensures lastVertex == None ==> shortestPath == [0]
      ensures lastVertex.Some? ==> shortestPath == [0] + BackIds(lastVertex.value)
      ensures lastVertex.Some? ==>
        IsTour(n, Reverse(shortestPath)) && Cost(graph, n, Reverse(shortestPath)) == shortestPathCost
    {
      shortestPath := StackFrom(lastVertex);
    }
  }

  /** Unmarking a vertex just marked restores the array. */
  lemma Unmark(s: seq<bool>, i: nat)
    requires i < |s| && !s[i]
    ensures s[i := true][i := false] == s
  {
  }

}
