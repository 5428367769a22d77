// The search states of BranchBoundTSP. Children are reached over
// `graph[i][current]` and a full path is closed over `graph[0][current]`: the
// search runs on the transposed matrix, so the cost it reports is that of its
// chain read backwards from the root.

module BranchBoundSearch {
  import opened Graphs
  import opened SearchPaths
  import opened VerticesPairs
  import opened PairTables
  import opened PathNodes

  /** The matrix with rows and columns swapped: `Transpose(g)[a][b] == g[b][a]`. */
  function Transpose(g: seq<seq<int>>, n: nat): (t: seq<seq<int>>)
    requires IsMatrix(g, n)
    ensures IsMatrix(t, n)
    ensures forall a, b :: 0 <= a < n && 0 <= b < n ==> t[a][b] == g[b][a]
  {
    seq(n, a requires 0 <= a < n => seq(n, b requires 0 <= b < n => g[b][a]))
  }

  /** A path costs in the transposed matrix what its reverse costs in the matrix. */
  lemma {:induction false} CostTransposed(g: seq<seq<int>>, n: nat, p: seq<int>)
    requires IsMatrix(g, n) && InRange(p, n)
    ensures InRange(Reverse(p), n)
    ensures Cost(Transpose(g, n), n, p) == Cost(g, n, Reverse(p))
    decreases |p|
  {
    if |p| >= 2 {
      var front, x := p[..|p| - 1], p[|p| - 1];
      assert p == front + [x];
      CostTransposed(g, n, front);
      CostSnoc(Transpose(g, n), n, front, x);
      ReverseSnoc(front, x);
      CostCons(g, n, x, Reverse(front));
    } else if |p| == 1 {
      assert Reverse(p) == p;
    }
  }

  /** A path is over positive edges of the transposed matrix exactly when its
      reverse is over positive edges of the matrix. */
  lemma PositiveTransposed(g: seq<seq<int>>, n: nat, p: seq<int>)
    requires IsMatrix(g, n) && InRange(p, n)
    ensures InRange(Reverse(p), n)
    ensures PositiveEdges(Transpose(g, n), n, p) <==> PositiveEdges(g, n, Reverse(p))
  {
    var t, r, m := Transpose(g, n), Reverse(p), |p|;
    if PositiveEdges(t, n, p) {
      forall k | 0 <= k < m - 1 ensures g[r[k]][r[k + 1]] > 0 {
        assert r[k] == p[m - 1 - k] && r[k + 1] == p[m - 2 - k];
        assert t[p[m - 2 - k]][p[m - 1 - k]] > 0;
      }
    }
    if PositiveEdges(g, n, r) {
      forall k | 0 <= k < m - 1 ensures t[p[k]][p[k + 1]] > 0 {
        assert r[m - 2 - k] == p[k + 1] && r[m - 1 - k] == p[k];
        assert g[r[m - 2 - k]][r[m - 1 - k]] > 0;
      }
    }
  }

  /** A tour read backwards is a tour. */
  lemma ReverseTour(n: nat, t: seq<int>)
    requires IsTour(n, t)
    ensures IsTour(n, Reverse(t))
  {
    var r := Reverse(t);
    assert forall k :: 0 <= k <= n ==> r[k] == t[n - k];
    forall k, l | 0 <= k < l < n ensures r[k] != r[l] {
      assert t[..n][n - l] == t[n - l];
      if k > 0 {
        assert t[..n][n - k] == t[n - k];
      } else {
        assert t[..n][0] == t[0];
      }
    }
    forall v | 0 <= v < n ensures v in r[..n] {
      assert v in t[..n];
      var j :| 0 <= j < |t[..n]| && t[..n][j] == v;
      if j == 0 {
        assert r[..n][0] == v;
      } else {
        assert r[..n][n - j] == v;
      }
    }
  }

  // ---------------------------------------------------------------------
  // initializeClosestPairs

  /** The two closest vertices of row i, as the inner loop of
      `initializeClosestPairs` keeps them: ids -1 and costs MAX_VALUE while unset. */
  datatype Closest = Closest(a: int, costA: int, b: int, costB: int)

  /** One turn of the inner loop, at column j. */
  function ClosestStep(row: seq<int>, i: int, c: Closest, j: nat): Closest
    requires j < |row|
  {
    if j == i then c
    else if row[j] < c.costA then Closest(j, row[j], c.a, c.costA)
    else if row[j] < c.costB then Closest(c.a, c.costA, j, row[j])
    else c
  }

  /** The inner loop over columns 0..k-1. */
  function Closest2(row: seq<int>, i: int, k: nat): (c: Closest)
    requires k <= |row|
  {
    if k == 0 then Closest(-1, INF, -1, INF) else ClosestStep(row, i, Closest2(row, i, k - 1), k - 1)
  }

  /** Column j competes for a slot of row i when it is not i, not x, and has a
      cost below MAX_VALUE. */
  ghost predicate Candidate(row: seq<int>, i: int, x: int, j: int)
  {
    0 <= j < |row| && j != i && j != x && row[j] < INF
  }

  ghost predicate NoCandidate(row: seq<int>, i: int, x: int, k: nat)
  {
    forall j :: 0 <= j < k ==> !Candidate(row, i, x, j)
  }

  /** m is the first column below k of least cost among the candidates, or -1
      with cost MAX_VALUE when there is none. */
  ghost predicate IsFirstMin(row: seq<int>, i: int, x: int, k: nat, m: int, c: int)
    requires k <= |row|
  {
    && (m == -1 ==> c == INF && NoCandidate(row, i, x, k))
    && (m != -1 ==>
      && 0 <= m < k && Candidate(row, i, x, m) && c == row[m]
      && (forall j :: 0 <= j < k && Candidate(row, i, x, j) ==> c <= row[j])
      && (forall j :: 0 <= j < m && Candidate(row, i, x, j) ==> c < row[j]))
  }

  /** Slot A is the first cheapest column other than i; slot B the first
      cheapest column other than i and A. */
  ghost predicate ClosestTwo(row: seq<int>, i: int, k: nat, c: Closest)
    requires k <= |row|
  {
    IsFirstMin(row, i, -1, k, c.a, c.costA) && IsFirstMin(row, i, c.a, k, c.b, c.costB) && c.costA <= c.costB
  }

  lemma StepNewFirst(row: seq<int>, i: int, c: Closest, j: nat)
    requires j < |row| && ClosestTwo(row, i, j, c) && j != i && row[j] < c.costA
    ensures ClosestTwo(row, i, j + 1, ClosestStep(row, i, c, j))
  {
    var r := ClosestStep(row, i, c, j);
    assert r == Closest(j, row[j], c.a, c.costA);
    forall l | 0 <= l < j ensures Candidate(row, i, j, l) == Candidate(row, i, -1, l) {
    }
  }

  lemma StepNewSecond(row: seq<int>, i: int, c: Closest, j: nat)
    requires j < |row| && ClosestTwo(row, i, j, c) && j != i && c.costA <= row[j] < c.costB
    ensures ClosestTwo(row, i, j + 1, ClosestStep(row, i, c, j))
  {
    assert c.a != -1;
  }

  lemma StepKept(row: seq<int>, i: int, c: Closest, j: nat)
    requires j < |row| && ClosestTwo(row, i, j, c) && (j == i || c.costB <= row[j])
    ensures ClosestTwo(row, i, j + 1, ClosestStep(row, i, c, j))
  {
  }

  /** `initializeClosestPairs` keeps, for each row, the first cheapest column
      and the first cheapest of the rest, with `cost[0] <= cost[1]`. */
  lemma {:induction false} Closest2IsFirstTwo(row: seq<int>, i: int, k: nat)
    requires k <= |row|
    ensures ClosestTwo(row, i, k, Closest2(row, i, k))
  {
    if k > 0 {
      Closest2IsFirstTwo(row, i, k - 1);
      var c, j := Closest2(row, i, k - 1), k - 1;
      if j == i || c.costB <= row[j] {
        StepKept(row, i, c, j);
      } else if row[j] < c.costA {
        StepNewFirst(row, i, c, j);
      } else {
        StepNewSecond(row, i, c, j);
      }
    }
  }

  /** The pair `initializeClosestPairs` stores for row i. */
  function ClosestPair(row: seq<int>, i: int): (v: PairValue)
    ensures |v.ids| == 2 && |v.costs| == 2
  {
    var c := Closest2(row, i, |row|);
    PairValue([c.a, c.b], [c.costA, c.costB])
  }

  /** The pairs of all rows. */
  ghost function ClosestTable(g: seq<seq<int>>, n: nat): (t: seq<PairValue>)
    requires IsMatrix(g, n)
    ensures |t| == n && Summable(t)
    ensures forall k :: 0 <= k < n ==> Scannable(t[k]) && t[k] == ClosestPair(g[k], k)
  {
    seq(n, k requires 0 <= k < n => ClosestPair(g[k], k))
  }

  // ---------------------------------------------------------------------
  // Termination: every node of the queue weighs (n+1)^(n - visited).

  function Pow(b: nat, e: nat): (r: nat)
    ensures b >= 1 ==> r >= 1
  {
    if e == 0 then 1 else b * Pow(b, e - 1)
  }

  /** The weight of a node that has visited t vertices. */
  function Level(n: nat, t: nat): nat
  {
    if t <= n then Pow(n + 1, n - t) else 0
  }

  function Weight(n: nat, p: PathNode): nat
  {
    Level(n, p.totalVisitedVertices)
  }

  function Potential(n: nat, q: seq<PathNode>): nat
  {
    if q == [] then 0 else Potential(n, q[..|q| - 1]) + Weight(n, q[|q| - 1])
  }

  lemma {:induction false} PotentialAppend(n: nat, q: seq<PathNode>, r: seq<PathNode>)
    ensures Potential(n, q + r) == Potential(n, q) + Potential(n, r)
    decreases |r|
  {
    if r == [] {
      assert q + r == q;
    } else {
      var front := r[..|r| - 1];
      PotentialAppend(n, q, front);
      assert (q + r)[..|q + r| - 1] == q + front;
    }
  }

  /** Taking node k out of the queue takes its weight off the potential. */
  lemma PotentialRemove(n: nat, q: seq<PathNode>, k: nat)
    requires k < |q|
    ensures Potential(n, q[..k] + q[k + 1..]) + Weight(n, q[k]) == Potential(n, q)
  {
    PotentialAppend(n, q[..k], q[k + 1..]);
    PotentialAppend(n, q[..k], [q[k]]);
    PotentialAppend(n, q[..k] + [q[k]], q[k + 1..]);
    assert q[..k] + [q[k]] + q[k + 1..] == q;
  }

  /** Up to n children one level deeper weigh less than their parent. */
  lemma ChildrenWeighLess(n: nat, t: nat, m: nat)
    requires t < n && m <= n
    ensures m * Level(n, t + 1) < Level(n, t)
  {
    var w := Level(n, t + 1);
    assert Level(n, t) == (n + 1) * w;
    assert m * w <= n * w;
  }

  // ---------------------------------------------------------------------
  // Search states

  /** A node as the search builds it, link by link: the root is vertex 0
      alone at cost 0, and a child extends its parent by an unvisited vertex i
      over the positive edge `g[i][parent]`, adding that edge to the cost and
      marking i. Every node's pairs can be patched, and no node has visited
      more than n vertices. */
  ghost predicate Trail(g: seq<seq<int>>, n: nat, p: PathNode)
    requires IsMatrix(g, n)
    decreases |p.chain|
  {
    && 0 <= p.currentVertexId < n && |p.visited| == n && Patchable(p.table, n)
    && p.totalVisitedVertices <= n
    && if p.previousPathNode == null then
         && p.currentVertexId == 0 && p.chain == [0] && Marks(p.visited, [0])
         && p.totalVisitedVertices == 1 && p.pathTotalCost == 0
       else
         var q, i := p.previousPathNode, p.currentVertexId;
         && p.chain == q.chain + [i]
         && Trail(g, n, q)
         && 0 <= q.currentVertexId < n && |q.visited| == n && !q.visited[i]
         && g[i][q.currentVertexId] > 0
         && p.visited == q.visited[i := true]
         && p.totalVisitedVertices == q.totalVisitedVertices + 1
         && p.pathTotalCost == q.pathTotalCost + g[i][q.currentVertexId]
  }

  /** A table of n pairs that `replaceVertex` can scan. */
  ghost predicate Patchable(t: seq<PairValue>, n: nat)
  {
    |t| == n && forall k :: 0 <= k < n ==> Scannable(t[k])
  }

  /** Patching keeps a table patchable. */
  lemma PatchedPatchable(t: seq<PairValue>, n: nat, a: nat, b: nat, cost: int, prevA: int)
    requires Patchable(t, n) && a < n && b < n
    ensures Patchable(Patched(t, a, b, cost, prevA), n)
  {
    var r := Patched(t, a, b, cost, prevA);
    forall k | 0 <= k < n ensures Scannable(r[k]) {
      assert Scannable(t[k]);
    }
  }

  /** The chain of a node on a trail follows its links down to the root. */
  lemma {:induction false} TrailChained(g: seq<seq<int>>, n: nat, p: PathNode)
    requires IsMatrix(g, n) && Trail(g, n, p)
    ensures Chained(p)
    decreases |p.chain|
  {
    if p.previousPathNode != null {
      TrailChained(g, n, p.previousPathNode);
    }
  }

  /** A node on a trail is a search path of the transposed matrix: its chain
      starts at 0, visits distinct vertices over positive edges, marks exactly
      them, counts them, and its cost is the chain's cost. */
  lemma {:induction false} TrailVisits(g: seq<seq<int>>, n: nat, p: PathNode)
    requires IsMatrix(g, n) && Trail(g, n, p)
    ensures Visits(Transpose(g, n), n, p.visited, p.chain, p.totalVisitedVertices)
    ensures p.pathTotalCost == Cost(Transpose(g, n), n, p.chain)
    decreases |p.chain|
  {
    if p.previousPathNode == null {
      CountMarksRoot(p.visited);
    } else {
      var q := p.previousPathNode;
      TrailVisits(g, n, q);
      TrailChained(g, n, q);
      VisitsStep(g, n, q.visited, q.chain, q.totalVisitedVertices, p.currentVertexId);
    }
  }

  /** One link of a trail, on the transposed matrix: the edge `g[i][last]`
      is the edge last -> i there. */
  lemma VisitsStep(g: seq<seq<int>>, n: nat, visited: seq<bool>, c: seq<int>, k: nat, i: int)
    requires IsMatrix(g, n) && Visits(Transpose(g, n), n, visited, c, k)
    requires 0 <= i < n && !visited[i] && g[i][c[|c| - 1]] > 0
    ensures Visits(Transpose(g, n), n, visited[i := true], c + [i], k + 1)
    ensures Cost(Transpose(g, n), n, c + [i]) == Cost(Transpose(g, n), n, c) + g[i][c[|c| - 1]]
  {
    var t := Transpose(g, n);
    assert t[c[|c| - 1]][i] == g[i][c[|c| - 1]];
    ExtendVisits(t, n, visited, c, k, i);
  }

  /** A node with an unvisited vertex left has not visited all n. */
  lemma TrailBelow(g: seq<seq<int>>, n: nat, p: PathNode, i: int)
    requires IsMatrix(g, n) && Trail(g, n, p) && 0 <= i < n && !p.visited[i]
    ensures p.totalVisitedVertices < n
  {
    TrailVisits(g, n, p);
    CountBelow(p.visited, i);
  }

  /** The tour a best node stands for: its chain closed by 0 and read
      backwards is a tour over positive edges of the given cost. */
  ghost predicate ClosedTour(g: seq<seq<int>>, n: nat, cost: int, chain: seq<int>)
    requires IsMatrix(g, n)
  {
    var t := Reverse(chain + [0]);
    IsTour(n, t) && PositiveEdges(g, n, t) && Cost(g, n, t) == cost
  }

  /** A full node closed by a positive edge to 0: its chain, read backwards
      from the root, is a tour over positive edges whose cost is the node's
      cost plus that edge. */
  lemma BestIsTour(g: seq<seq<int>>, n: nat, node: PathNode)
    requires IsMatrix(g, n) && Trail(g, n, node) && node.totalVisitedVertices == n
    requires g[0][node.currentVertexId] > 0
    ensures ClosedTour(g, n, node.pathTotalCost + g[0][node.currentVertexId], node.chain)
  {
    var t, c := Transpose(g, n), node.chain;
    TrailVisits(g, n, node);
    TrailChained(g, n, node);
    CloseFullVisits(t, n, node.visited, c);
    CostSnoc(t, n, c, 0);
    ReverseTour(n, c + [0]);
    PositiveTransposed(g, n, c + [0]);
    CostTransposed(g, n, c + [0]);
  }

  /** A child over a positive transposed edge to an unvisited vertex extends
      the trail of its parent. */
  lemma ChildOk(g: seq<seq<int>>, n: nat, parent: PathNode, p: PathNode, i: int)
    requires IsMatrix(g, n) && Trail(g, n, parent)
    requires 0 <= i < n && !parent.visited[i] && g[i][parent.currentVertexId] > 0
    requires p.previousPathNode == parent && p.currentVertexId == i
    requires p.chain == parent.chain + [i] && p.visited == parent.visited[i := true]
    requires p.totalVisitedVertices == parent.totalVisitedVertices + 1
    requires p.pathTotalCost == parent.pathTotalCost + g[i][parent.currentVertexId]
    requires p.table == Patched(parent.table, parent.currentVertexId, i,
      g[i][parent.currentVertexId], parent.PrevId())
    ensures Trail(g, n, p) && parent.totalVisitedVertices < n
  {
    PatchedPatchable(parent.table, n, parent.currentVertexId, i, g[i][parent.currentVertexId], parent.PrevId());
    TrailBelow(g, n, parent, i);
  }

  /** `poll`'s choice: a node of least bound. */
  predicate IsLeast(q: seq<PathNode>, k: int)
  {
    0 <= k < |q| && forall j :: 0 <= j < |q| ==> q[k].lb2 <= q[j].lb2
  }

  lemma {:induction false} LeastExists(q: seq<PathNode>) returns (k: int)
    requires |q| > 0
    ensures IsLeast(q, k)
  {
    if |q| == 1 {
      k := 0;
    } else {
      var front := q[..|q| - 1];
      var m := LeastExists(front);
      assert forall j :: 0 <= j < |front| ==> q[j] == front[j];
      k := if q[m].lb2 <= q[|q| - 1].lb2 then m else |q| - 1;
    }
  }

  /** p was built from current for an unvisited vertex, and costs less than best. */
  ghost predicate IsChild(current: PathNode, p: PathNode, best: int)
  {
    && p.previousPathNode == current
    && 0 <= p.currentVertexId < |current.visited| && !current.visited[p.currentVertexId]
    && p.totalVisitedVertices == current.totalVisitedVertices + 1
    && p.pathTotalCost < best
  }

  /** The nodes of q from index m on are children of current cheaper than best. */
  ghost predicate Children(current: PathNode, q: seq<PathNode>, m: nat, best: int)
  {
    forall k :: m <= k < |q| ==> IsChild(current, q[k], best)
  }

  lemma ChildrenSnoc(current: PathNode, q: seq<PathNode>, m: nat, p: PathNode, best: int)
    requires Children(current, q, m, best) && IsChild(current, p, best) && m <= |q|
    ensures Children(current, q + [p], m, best)
    ensures (q + [p])[..m] == q[..m]
  {
    forall k | m <= k < |q| + 1 ensures IsChild(current, (q + [p])[k], best) {
      if k < |q| {
        assert (q + [p])[k] == q[k];
      }
    }
  }

  /** The test of the `for` loop of `branchAndBound` at vertex i: unvisited, a
      positive edge `graph[i][current]`, and a child cost below best. */
  ghost predicate Spawns(g: seq<seq<int>>, n: nat, current: PathNode, best: int, i: int)
  {
    && 0 <= i < n && i < |g| && i < |current.visited| && 0 <= current.currentVertexId < |g[i]|
    && !current.visited[i] && g[i][current.currentVertexId] > 0
    && current.pathTotalCost + g[i][current.currentVertexId] < best
  }

  /** The vertices below k that get a child queued, in the order the loop
      reaches them. */
  ghost function Spawned(g: seq<seq<int>>, n: nat, current: PathNode, best: int, k: nat): seq<int>
    decreases k
  {
    if k == 0 then []
    else Spawned(g, n, current, best, k - 1) + (if Spawns(g, n, current, best, k - 1) then [k - 1] else [])
  }

  /** Strictly increasing. */
  predicate Ascending(r: seq<int>)
  {
    forall a, b :: 0 <= a < b < |r| ==> r[a] < r[b]
  }

  /** The loop queues a child for exactly the vertices that pass its test,
      each once, in increasing order. */
  lemma {:induction false} SpawnedExact(g: seq<seq<int>>, n: nat, current: PathNode, best: int, k: nat)
    ensures forall i :: i in Spawned(g, n, current, best, k) <==> 0 <= i < k && Spawns(g, n, current, best, i)
    ensures Ascending(Spawned(g, n, current, best, k))
    decreases k
  {
    if k > 0 {
      SpawnedExact(g, n, current, best, k - 1);
      var r := Spawned(g, n, current, best, k);
      var front := Spawned(g, n, current, best, k - 1);
      assert forall i :: i in front ==> i < k - 1;
      forall a, b | 0 <= a < b < |r| ensures r[a] < r[b] {
        if b < |front| {
          assert r[a] == front[a] && r[b] == front[b];
        } else {
          assert r == front + [k - 1] && r[b] == k - 1;
          assert r[a] == front[a] && front[a] in front;
        }
      }
    }
  }

  /** The vertex ids of the nodes of q, in order. */
  ghost function Ids(q: seq<PathNode>): seq<int>
    decreases |q|
  {
    if q == [] then [] else Ids(q[..|q| - 1]) + [q[|q| - 1].currentVertexId]
  }

  /** Where the `for` loop of `branchAndBound` stands after the vertices below
      i: kids are the children queued so far, one for each vertex that passed
      the test, and each weighs as a node of the next level. */
  ghost predicate Grown(g: seq<seq<int>>, n: nat, current: PathNode, kids: seq<PathNode>, best: int, i: nat)
  {
    && |kids| <= i
    && Children(current, kids, 0, best)
    && Ids(kids) == Spawned(g, n, current, best, i)
    && (kids != [] ==> current.totalVisitedVertices < n)
    && Potential(n, kids) == |kids| * Level(n, current.totalVisitedVertices + 1)
  }

  /** A vertex that passes the test adds its child. */
  lemma GrowStep(g: seq<seq<int>>, n: nat, current: PathNode, kids: seq<PathNode>, best: int, i: nat, child: PathNode)
    requires Grown(g, n, current, kids, best, i) && Spawns(g, n, current, best, i)
    requires IsChild(current, child, best) && child.currentVertexId == i && current.totalVisitedVertices < n
    ensures Grown(g, n, current, kids + [child], best, i + 1)
  {
    var kids' := kids + [child];
    ChildrenSnoc(current, kids, 0, child, best);
    assert kids'[..|kids|] == kids;
    var w := Level(n, current.totalVisitedVertices + 1);
    assert (|kids| + 1) * w == |kids| * w + w;
  }

  /** A vertex that fails the test adds nothing. */
  lemma SkipStep(g: seq<seq<int>>, n: nat, current: PathNode, kids: seq<PathNode>, best: int, i: nat)
    requires Grown(g, n, current, kids, best, i) && !Spawns(g, n, current, best, i)
    ensures Grown(g, n, current, kids, best, i + 1)
  {
  }

  lemma SnocAssoc(q: seq<PathNode>, kids: seq<PathNode>, p: PathNode)
    ensures q + kids + [p] == q + (kids + [p])
  {
  }

  /** After the last vertex: the children weigh less than their parent. */
  lemma GrownAll(g: seq<seq<int>>, n: nat, current: PathNode, front: seq<PathNode>, kids: seq<PathNode>, best: int)
    requires Grown(g, n, current, kids, best, n) && current.totalVisitedVertices <= n
    ensures Potential(n, front + kids) < Potential(n, front) + Level(n, current.totalVisitedVertices)
  {
    PotentialAppend(n, front, kids);
    if kids != [] {
      ChildrenWeighLess(n, current.totalVisitedVertices, |kids|);
    }
  }

  /** A directed matrix whose cheap edges all run one way round. */
  function Skewed(): (g: seq<seq<int>>)
    ensures IsMatrix(g, 3)
  {
    [[0, 1, 100], [100, 0, 1], [1, 100, 0]]
  }

  /** The two cheapest entries of each row are no lower bound on a directed
      matrix: here the doubled root bound is 303, so the bound is 151.5, while
      the tour [0, 1, 2, 0] over positive edges costs 3. */
  lemma BoundOverestimates()
    ensures IsTour(3, [0, 1, 2, 0]) && PositiveEdges(Skewed(), 3, [0, 1, 2, 0])
    ensures Cost(Skewed(), 3, [0, 1, 2, 0]) == 3
    ensures LowerBound2(ClosestTable(Skewed(), 3)) == 303
  {
    var g, t := Skewed(), [0, 1, 2, 0];
    assert t[..3] == [0, 1, 2];
    assert t[..3][..2] == [0, 1] && [0, 1][..1] == [0];
    assert Cost(g, 3, [0, 1]) == 1;
    assert Cost(g, 3, t[..3]) == 2;
    var tab := ClosestTable(g, 3);
    assert tab[0] == PairValue([1, 2], [1, 100]);
    assert tab[1] == PairValue([2, 0], [1, 100]);
    assert tab[2] == PairValue([0, 1], [1, 100]);
    assert tab[..2][..1] == tab[..1] && tab[..1][..0] == [];
    assert LowerBound2(tab[..1]) == 101;
    assert LowerBound2(tab[..2]) == 202;
    assert tab[..3] == tab;
  }
}
