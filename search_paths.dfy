// The search nodes of the two depth-first solvers: a linked chain of Vertex
// values together with the visited-vertices array that marks exactly its ids.

module SearchPaths {
  import opened Wrappers
  import opened Graphs
  import opened Vertices

  /** `visited[j]` holds exactly for the vertices on the path p. */
  ghost predicate Marks(visited: seq<bool>, p: seq<int>)
  {
    forall j :: 0 <= j < |visited| ==> (visited[j] <==> j in p)
  }

  /** A search path from the root: distinct vertices over positive edges,
      exactly the marked ones, k of them. */
  ghost predicate Visits(g: seq<seq<int>>, n: nat, visited: seq<bool>, p: seq<int>, k: nat)
    requires IsMatrix(g, n)
  {
    && |p| >= 1 && p[0] == 0
    && Distinct(p)
    && InRange(p, n)
    && PositiveEdges(g, n, p)
    && |visited| == n
    && Marks(visited, p)
    && k == |p| == Count(visited)
  }

  /** A search node of the depth-first solvers: a linked chain whose path is a search path. */
  ghost predicate OnPath(g: seq<seq<int>>, n: nat, visited: seq<bool>, v: Vertex, verticesVisited: nat)
    requires IsMatrix(g, n)
  {
    Linked(g, n, v) && Visits(g, n, visited, Path(v), verticesVisited)
  }

  /** Closing a full search path gives a tour; it is over positive edges
      exactly when the edge back to 0 is. */
  lemma CloseFullVisits(g: seq<seq<int>>, n: nat, visited: seq<bool>, p: seq<int>)
    requires IsMatrix(g, n) && Visits(g, n, visited, p, n)
    ensures IsTour(n, p + [0])
    ensures PositiveEdges(g, n, p + [0]) <==> g[p[n - 1]][0] > 0
  {
    FullMarks(visited, p);
    FullPathIsTour(g, n, p);
  }

  /** Closing a full path: the tour it makes and that tour's cost. */
  lemma CloseFullPath(g: seq<seq<int>>, n: nat, visited: seq<bool>, v: Vertex)
    requires IsMatrix(g, n) && OnPath(g, n, visited, v, n)
    ensures IsTour(n, Path(v) + [0])
    ensures PositiveEdges(g, n, Path(v) + [0]) <==> g[v.id][0] > 0
    ensures Cost(g, n, Path(v) + [0]) == v.costToReach + g[v.id][0]
  {
    CloseFullVisits(g, n, visited, Path(v));
    ClosedCost(g, n, v);
  }

  /** A linked chain closed by an edge back to 0 costs its carried cost plus that edge. */
  lemma ClosedCost(g: seq<seq<int>>, n: nat, v: Vertex)
    requires IsMatrix(g, n) && Linked(g, n, v) && n >= 1
    ensures InRange(Path(v) + [0], n)
    ensures Cost(g, n, Path(v) + [0]) == v.costToReach + g[v.id][0]
  {
    LinkedPath(g, n, v);
    CostSnoc(g, n, Path(v), 0);
  }

  /** With every vertex marked, the marked path holds every vertex. */
  lemma FullMarks(visited: seq<bool>, p: seq<int>)
    requires Marks(visited, p) && Count(visited) == |visited|
    ensures forall j :: 0 <= j < |visited| ==> j in p
  {
    forall j | 0 <= j < |visited| ensures j in p {
      CountFull(visited, j);
    }
  }

  /** A path from 0 through each vertex once, closed by 0, is a tour. */
  lemma FullPathIsTour(g: seq<seq<int>>, n: nat, p: seq<int>)
    requires IsMatrix(g, n) && |p| == n >= 1 && p[0] == 0 && InRange(p, n) && Distinct(p)
    requires PositiveEdges(g, n, p)
    requires forall j :: 0 <= j < n ==> j in p
    ensures IsTour(n, p + [0])
    ensures PositiveEdges(g, n, p + [0]) <==> g[p[n - 1]][0] > 0
  {
    var t := p + [0];
    assert t[..n] == p;
    assert t[n - 1] == p[n - 1] && t[n] == 0;
  }

  /** Stepping to an unmarked vertex over a positive edge gives a search path one longer. */
  lemma ExtendVisits(g: seq<seq<int>>, n: nat, visited: seq<bool>, p: seq<int>, k: nat, i: int)
    requires IsMatrix(g, n) && Visits(g, n, visited, p, k)
    requires 0 <= i < n && !visited[i] && g[p[|p| - 1]][i] > 0
    ensures k < n
    ensures Visits(g, n, visited[i := true], p + [i], k + 1)
    ensures Cost(g, n, p + [i]) == Cost(g, n, p) + g[p[|p| - 1]][i]
  {
    var q := p + [i];
    assert i !in p;
    CountMark(visited, i);
    CountBelow(visited, i);
    assert Distinct(q) by {
      forall a, b | 0 <= a < b < |q| ensures q[a] != q[b] {
        if b == |p| { assert q[a] in p; }
      }
    }
    assert PositiveEdges(g, n, q) by {
      forall a | 0 <= a < |q| - 1 ensures g[q[a]][q[a + 1]] > 0 {
        if a < |p| - 1 { assert q[a] == p[a] && q[a + 1] == p[a + 1]; }
      }
    }
    forall j | 0 <= j < n ensures visited[i := true][j] <==> j in q {
      if j != i { assert j in q <==> j in p; }
    }
    CostSnoc(g, n, p, i);
  }

  /** Stepping to an unmarked vertex over a positive edge gives a search node one deeper. */
  lemma Extend(g: seq<seq<int>>, n: nat, visited: seq<bool>, v: Vertex, k: nat, i: int)
    requires IsMatrix(g, n) && OnPath(g, n, visited, v, k)
    requires 0 <= i < n && !visited[i] && g[v.id][i] > 0
    ensures k < n
    ensures OnPath(g, n, visited[i := true], Vertex(i, Some(v), v.costToReach + g[v.id][i]), k + 1)
    ensures Path(Vertex(i, Some(v), v.costToReach + g[v.id][i])) == Path(v) + [i]
  {
    ExtendVisits(g, n, visited, Path(v), k, i);
  }

  /** Only the root marked: one vertex counted. */
  lemma {:induction false} CountMarksRoot(s: seq<bool>)
    requires |s| >= 1 && Marks(s, [0])
    ensures Count(s) == 1
    decreases |s|
  {
    if |s| > 1 {
      var front := s[..|s| - 1];
      assert Marks(front, [0]);
      CountMarksRoot(front);
    }
  }

  /** `visited[i] = b` on a visited-vertices array. */
  method SetMark(visited: array<bool>, i: nat, b: bool)
    requires i < visited.Length
    modifies visited
    ensures visited[..] == old(visited[..])[i := b]
  {
    visited[i] := b;
  }
}
