// SubOptimalDfsTSP: the greedy nearest-neighbour heuristic. From the current
// vertex it moves to the unvisited vertex behind the cheapest positive edge,
// never backtracks, and closes the tour once every vertex is on the path. When
// no unvisited vertex can be reached the Java code indexes the matrix with -1
// and throws; here that outcome is an explicit failure.

module SubOptimalDfs {
  import opened Wrappers
  import opened Graphs
  import opened Vertices
  import opened SearchPaths

  /** The `closestVertexToReach` / `costToReachClosestVertex` pair of `dfs`. */
  datatype Choice = Choice(id: int, costToReach: int)

  /** Vertex i may be chosen from v: unvisited, a positive edge to it, and a
      cumulative cost below the initial `Integer.MAX_VALUE` of the running best. */
  ghost predicate Eligible(g: seq<seq<int>>, n: nat, visited: seq<bool>, v: Vertex, i: int)
    requires IsMatrix(g, n) && |visited| == n && 0 <= v.id < n
  {
    0 <= i < n && !visited[i] && g[v.id][i] > 0 && v.costToReach + g[v.id][i] < INF
  }

  /** The choice the scan `for (i = 0; i < k; i++)` of `dfs` has made: -1 or an
      eligible vertex below k (`NearestIsFirstMin` says which one). */
  function Nearest(g: seq<seq<int>>, n: nat, visited: seq<bool>, v: Vertex, k: nat): (r: Choice)
    requires IsMatrix(g, n) && |visited| == n && 0 <= v.id < n && k <= n
    ensures r.costToReach <= INF
    ensures r.id == -1 || (0 <= r.id < k && Eligible(g, n, visited, v, r.id))
  {
    if k == 0 then Choice(-1, INF)
    else
      var prev := Nearest(g, n, visited, v, k - 1);
      var i := k - 1;
      if !visited[i] && g[v.id][i] > 0 && v.costToReach + g[v.id][i] < prev.costToReach
      then Choice(i, v.costToReach + g[v.id][i])
      else prev
  }

  /** The scan finds nothing exactly when no vertex below k is eligible, and
      otherwise the eligible vertex with the cheapest edge, the lowest id among
      equal edges, together with the cost of reaching it. */
  lemma {:induction false} NearestIsFirstMin(g: seq<seq<int>>, n: nat, visited: seq<bool>, v: Vertex, k: nat)
    requires IsMatrix(g, n) && |visited| == n && 0 <= v.id < n && k <= n
    ensures var r := Nearest(g, n, visited, v, k);
      && (r.id == -1 <==> forall i :: 0 <= i < k ==> !Eligible(g, n, visited, v, i))
      && (r.id == -1 ==> r.costToReach == INF)
      && (r.id != -1 ==>
        && r.costToReach == v.costToReach + g[v.id][r.id]
        && (forall i :: 0 <= i < k && Eligible(g, n, visited, v, i) ==> g[v.id][r.id] <= g[v.id][i])
        && (forall i :: 0 <= i < r.id && Eligible(g, n, visited, v, i) ==> g[v.id][r.id] < g[v.id][i]))
  {
    if k > 0 {
      NearestIsFirstMin(g, n, visited, v, k - 1);
    }
  }

  /** Outcome of a greedy run: the final visited array and, unless the run got
      stuck, the last vertex of the closed tour. */
  datatype Run = Run(visited: seq<bool>, last: Option<Vertex>)

  /** What `dfs(v, verticesVisited)` does, step by step. */
  function GreedyRun(g: seq<seq<int>>, n: nat, visited: seq<bool>, v: Vertex, verticesVisited: nat): (r: Run)
    requires IsMatrix(g, n) && |visited| == n && 0 <= v.id < n
    ensures |r.visited| == n
    ensures r.last.Some? ==> 0 <= r.last.value.id < n
    decreases n - Count(visited)
  {
    if verticesVisited == n && g[v.id][0] > 0 then Run(visited, Some(v))
    else
      var c := Nearest(g, n, visited, v, n).id;
      if c == -1 then Run(visited, None)
      else
        CountMark(visited, c);
        GreedyRun(g, n, visited[c := true], Vertex(c, Some(v), v.costToReach + g[v.id][c]), verticesVisited + 1)
  }

  /** Visited entries only ever go from false to true. */
  lemma {:induction false} GreedyMarksGrow(g: seq<seq<int>>, n: nat, visited: seq<bool>, v: Vertex, k: nat)
    requires IsMatrix(g, n) && |visited| == n && 0 <= v.id < n
    ensures forall j :: 0 <= j < n && visited[j] ==> GreedyRun(g, n, visited, v, k).visited[j]
    decreases n - Count(visited)
  {
    if k == n && g[v.id][0] > 0 {
    } else {
      var c := Nearest(g, n, visited, v, n).id;
      if c != -1 {
        CountMark(visited, c);
        GreedyMarksGrow(g, n, visited[c := true], Vertex(c, Some(v), v.costToReach + g[v.id][c]), k + 1);
      }
    }
  }

  /** A completed run ends on a full search node with an edge back to 0 whose
      path extends the path of v, k vertices long. */
  ghost predicate Completed(g: seq<seq<int>>, n: nat, r: Run, v: Vertex, k: nat)
    requires IsMatrix(g, n)
  {
    && r.last.Some?
    && OnPath(g, n, r.visited, r.last.value, n)
    && 0 <= r.last.value.id < n && g[r.last.value.id][0] > 0
    && k <= |Path(r.last.value)| && Path(r.last.value)[..k] == Path(v)
  }

  /** From a search node, a run that does not get stuck completes. */
  lemma {:induction false} GreedyRunTour(g: seq<seq<int>>, n: nat, visited: seq<bool>, v: Vertex, k: nat)
    requires IsMatrix(g, n) && OnPath(g, n, visited, v, k)
    requires GreedyRun(g, n, visited, v, k).last.Some?
    ensures Completed(g, n, GreedyRun(g, n, visited, v, k), v, k)
    decreases n - Count(visited)
  {
    if k == n && g[v.id][0] > 0 {
      assert GreedyRun(g, n, visited, v, k) == Run(visited, Some(v));
      assert Path(v)[..k] == Path(v);
      assert Completed(g, n, Run(visited, Some(v)), v, k);
    } else {
      var c := Nearest(g, n, visited, v, n).id;
      var next := Vertex(c, Some(v), v.costToReach + g[v.id][c]);
      Extend(g, n, visited, v, k, c);
      StepUnfold(g, n, visited, v, k);
      GreedyRunTour(g, n, visited[c := true], next, k + 1);
      CompletedShorten(g, n, GreedyRun(g, n, visited[c := true], next, k + 1), v, c, k);
    }
  }

  lemma CompletedShorten(g: seq<seq<int>>, n: nat, r: Run, v: Vertex, c: int, k: nat)
    requires IsMatrix(g, n) && 0 <= v.id < n && 0 <= c < n
    requires Path(Vertex(c, Some(v), v.costToReach + g[v.id][c])) == Path(v) + [c]
    requires |Path(v)| == k
    requires Completed(g, n, r, Vertex(c, Some(v), v.costToReach + g[v.id][c]), k + 1)
    ensures Completed(g, n, r, v, k)
  {
    PrefixShorten(Path(r.last.value), Path(v), c);
  }

  /** One greedy step: a run that neither closes nor gets stuck continues from
      the chosen vertex. */
  lemma StepUnfold(g: seq<seq<int>>, n: nat, visited: seq<bool>, v: Vertex, k: nat)
    requires IsMatrix(g, n) && |visited| == n && 0 <= v.id < n
    requires !(k == n && g[v.id][0] > 0) && Nearest(g, n, visited, v, n).id != -1
    ensures var c := Nearest(g, n, visited, v, n).id;
      GreedyRun(g, n, visited, v, k)
      == GreedyRun(g, n, visited[c := true], Vertex(c, Some(v), v.costToReach + g[v.id][c]), k + 1)
  {
  }

  lemma PrefixShorten(p: seq<int>, q: seq<int>, x: int)
    requires |q| < |p| && p[..|q| + 1] == q + [x]
    ensures p[..|q|] == q
  {
    assert p[..|q|] == p[..|q| + 1][..|q|];
  }

  /** A completed run from the state the constructor leaves is a tour over
      positive edges whose cost is the one the run records. */
  lemma GreedyTourFromRoot(g: seq<seq<int>>, n: nat, visited: seq<bool>)
    requires IsMatrix(g, n) && n >= 1 && |visited| == n && Marks(visited, [0])
    requires GreedyRun(g, n, visited, Vertex(0, None, 0), 1).last.Some?
    ensures var w := GreedyRun(g, n, visited, Vertex(0, None, 0), 1).last.value;
      && IsTour(n, Path(w) + [0])
      && PositiveEdges(g, n, Path(w) + [0])
      && Cost(g, n, Path(w) + [0]) == w.costToReach + g[w.id][0]
  {
    var root := Vertex(0, None, 0);
    assert Path(root) == [0];
    CountMarksRoot(visited);
    GreedyRunTour(g, n, visited, root, 1);
    var r := GreedyRun(g, n, visited, root, 1);
    CloseFullPath(g, n, r.visited, r.last.value);
  }

  /** A complete graph whose off-diagonal edges are positive and at most m, with
      every path over n edges still below `Integer.MAX_VALUE`. */
  ghost predicate Complete(g: seq<seq<int>>, n: nat, m: int)
    requires IsMatrix(g, n)
  {
    && n * m < INF
    && forall i, j :: 0 <= i < n && 0 <= j < n && i != j ==> 0 < g[i][j] <= m
  }

  /** Fewer marks than entries leave an unmarked one. */
  lemma {:induction false} SomeUnmarked(s: seq<bool>) returns (i: nat)
    requires Count(s) < |s|
    ensures i < |s| && !s[i]
  {
    var last := |s| - 1;
    if s[last] {
      i := SomeUnmarked(s[..last]);
    } else {
      i := last;
    }
  }

  lemma MulStep(k: nat, n: nat, m: int)
    requires k < n && m > 0
    ensures (k - 1) * m + m == k * m && k * m < n * m
  {
  }

  /** On a complete graph of at least two vertices the greedy run never gets stuck. */
  lemma {:induction false} GreedyCompletes(g: seq<seq<int>>, n: nat, m: int, visited: seq<bool>, v: Vertex, k: nat)
    requires IsMatrix(g, n) && n >= 2 && Complete(g, n, m)
    requires OnPath(g, n, visited, v, k) && v.costToReach <= (k - 1) * m
    ensures GreedyRun(g, n, visited, v, k).last.Some?
    decreases n - Count(visited)
  {
    var p := Path(v);
    LinkedPath(g, n, v);
    assert p[k - 1] == v.id && p[0] == 0;
    if k == n {
      assert v.id != 0;
    } else {
      var j := SomeUnmarked(visited);
      assert j != v.id;
      assert m > 0 by { assert 0 < g[v.id][j] <= m; }
      MulStep(k, n, m);
      assert Eligible(g, n, visited, v, j);
      NearestIsFirstMin(g, n, visited, v, n);
      var c := Nearest(g, n, visited, v, n).id;
      var next := Vertex(c, Some(v), v.costToReach + g[v.id][c]);
      Extend(g, n, visited, v, k, c);
      assert c != v.id;
      GreedyCompletes(g, n, m, visited[c := true], next, k + 1);
      StepUnfold(g, n, visited, v, k);
    }
  }

  /** From the state the constructor leaves, on a complete graph of at least
      two vertices, `dfs` always closes a tour and never throws. */
  lemma GreedyFromRootCompletes(g: seq<seq<int>>, n: nat, m: int, visited: seq<bool>)
    requires IsMatrix(g, n) && n >= 2 && Complete(g, n, m) && |visited| == n && Marks(visited, [0])
    ensures GreedyRun(g, n, visited, Vertex(0, None, 0), 1).last.Some?
  {
    var root := Vertex(0, None, 0);
    assert Path(root) == [0];
    CountMarksRoot(visited);
    GreedyCompletes(g, n, m, visited, root, 1);
  }

  class SubOptimalDfsTSP {
    const n: nat
    const graph: seq<seq<int>>
    const visitedVertices: array<bool>
    var shortestPathCost: int
    var lastVertex: Option<Vertex>

    ghost predicate Valid()
      reads this
    {
      IsMatrix(graph, n) && n >= 1 && visitedVertices.Length == n
    }

    /** Needs at least one vertex: the constructor marks vertex 0. */
    constructor (graph: seq<seq<int>>)
      requires IsMatrix(graph, |graph|) && |graph| >= 1
      ensures Valid() && fresh(visitedVertices)
      ensures this.graph == graph && n == |graph|
      ensures Marks(visitedVertices[..], [0])
      ensures shortestPathCost == INF && lastVertex == None
    {
      this.n := |graph|;
      this.graph := graph;
      var visited := new bool[|graph|](_ => false);
      visited[0] := true;
      this.visitedVertices := visited;
      this.shortestPathCost := INF;
      this.lastVertex := None;
    }

    /** `getShortestPathCost`: `dfs(new Vertex(0, null, 0), 1)`; None stands for
        the run that gets stuck and throws. From the state the constructor
        leaves, a result is the cost of a tour over positive edges. */
    method GetShortestPathCost() returns (cost: Option<int>)
      requires Valid()
      modifies this, visitedVertices
      ensures Valid()
      ensures var r := GreedyRun(graph, n, old(visitedVertices[..]), Vertex(0, None, 0), 1);
        && visitedVertices[..] == r.visited
        && (r.last == None ==>
              cost == None && shortestPathCost == old(shortestPathCost) && lastVertex == old(lastVertex))
        && (r.last.Some? ==>
              && cost == Some(shortestPathCost) && lastVertex == r.last
              && shortestPathCost == r.last.value.costToReach + graph[r.last.value.id][0])
      ensures old(Marks(visitedVertices[..], [0])) && cost.Some? ==>
        && lastVertex.Some?
        && IsTour(n, Path(lastVertex.value) + [0])
        && PositiveEdges(graph, n, Path(lastVertex.value) + [0])
        && Cost(graph, n, Path(lastVertex.value) + [0]) == shortestPathCost
    {
      var root := Vertex(0, None, 0);
      ghost var start := visitedVertices[..];
      var completed := Dfs(root, 1);
      if completed {
        cost := Some(shortestPathCost);
      } else {
        cost := None;
      }
      if Marks(start, [0]) && completed {
        GreedyTourFromRoot(graph, n, start);
      }
    }

    /** The recursive `dfs(currentVertex, verticesVisited)`: false when the scan
        finds no vertex and `graph[...][-1]` throws. */
    method Dfs(current: Vertex, verticesVisited: nat) returns (completed: bool)
      requires IsMatrix(graph, n) && visitedVertices.Length == n && 0 <= current.id < n
      modifies this, visitedVertices
      decreases n - Count(visitedVertices[..])
      ensures var r := GreedyRun(graph, n, old(visitedVertices[..]), current, verticesVisited);
        && visitedVertices[..] == r.visited
        && (completed <==> r.last.Some?)
        && (!completed ==> shortestPathCost == old(shortestPathCost) && lastVertex == old(lastVertex))
        && (completed ==>
              lastVertex == r.last && shortestPathCost == r.last.value.costToReach + graph[r.last.value.id][0])
    {
      var id := current.id;
      if verticesVisited == n && graph[id][0] > 0 {
        shortestPathCost := current.costToReach + graph[id][0];
        lastVertex := Some(current);
        return true;
      }
      var choice := ClosestVertex(current);
      if choice.id == -1 {
        return false;
      }
      var closest := choice.id;
      var nextVertex := Vertex(closest, Some(current), current.costToReach + graph[id][closest]);
      CountMark(visitedVertices[..], closest);
      SetMark(visitedVertices, closest, true);
      completed := Dfs(nextVertex, verticesVisited + 1);
    }

    /** The `for` loop of `dfs` that scans for the closest unvisited vertex. */
    method ClosestVertex(current: Vertex) returns (choice: Choice)
      requires IsMatrix(graph, n) && visitedVertices.Length == n && 0 <= current.id < n
      ensures choice == Nearest(graph, n, visitedVertices[..], current, n)
    {
      var closestVertexToReach := -1;
      var costToReachClosestVertex := INF;
      var i := 0;
      while i < n
        invariant 0 <= i <= n
        invariant Choice(closestVertexToReach, costToReachClosestVertex)
          == Nearest(graph, n, visitedVertices[..], current, i)
      {
        if !visitedVertices[i] && graph[current.id][i] > 0 {
          var neighbourVertex := Vertex(i, Some(current), current.costToReach + graph[current.id][i]);
          if neighbourVertex.costToReach < costToReachClosestVertex {
            closestVertexToReach := i;
            costToReachClosestVertex := neighbourVertex.costToReach;
          }
        }
        i := i + 1;
      }
      choice := Choice(closestVertexToReach, costToReachClosestVertex);
    }

    /** `getShortestPath`: the stack 0, lastVertex, ..., root, listed bottom first. */
    method GetShortestPath() returns (shortestPath: seq<int>)
      ensures lastVertex == None ==> shortestPath == [0]
      ensures lastVertex.Some? ==> shortestPath == [0] + BackIds(lastVertex.value)
      ensures lastVertex.Some? ==> Reverse(shortestPath) == Path(lastVertex.value) + [0]
    {
      shortestPath := StackFrom(lastVertex);
    }
  }
}
