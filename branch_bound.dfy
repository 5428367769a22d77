// BranchBoundTSP: best-first branch and bound. The priority queue is a
// sequence from which `poll` takes any node of least lower bound; the bound
// is compared doubled, `lb2 >= 2 * shortestPathCost`, so it stays an integer.

module BranchBound {
  import opened Graphs
  import opened SearchPaths
  import opened VerticesPairs
  import opened PairTables
  import opened PathNodes
  import opened BranchBoundSearch
  import opened BranchBoundQueue
  import opened BranchBoundState

  class BranchBoundTSP {
    const n: nat
    const graph: seq<seq<int>>
    var shortestPathCost: int
    var shortestPathNode: PathNode?
    var priorityQueue: seq<PathNode>
    /** The objects of all queued nodes. */
    ghost var Nodes: set<object>

    /** The queue holds search nodes whose objects are all in Nodes, and the
        best so far is MAX_VALUE or a closed trail of that cost. */
    ghost predicate Valid()
      reads this, Nodes
    {
      && IsMatrix(graph, n) && this !in Nodes
      && SearchOk(graph, n, priorityQueue, Nodes, shortestPathCost, shortestPathNode)
    }

    /** The queue part of `Valid`, which the queue operations keep. */
    ghost predicate QueueValid()
      reads this, Nodes
    {
      IsMatrix(graph, n) && this !in Nodes && QueueOk(graph, n, priorityQueue, Nodes)
    }

    constructor (graph: seq<seq<int>>)
      requires IsMatrix(graph, |graph|)
      ensures Valid()
      ensures this.graph == graph && n == |graph|
      ensures shortestPathCost == INF && shortestPathNode == null && priorityQueue == []
    {
      this.priorityQueue := [];
      this.n := |graph|;
      this.graph := graph;
      this.shortestPathCost := INF;
      this.shortestPathNode := null;
      Nodes := {};
    }

    /** The inner loop of `initializeClosestPairs` for row i. */
    method ClosestOf(i: nat) returns (closestVertexA: int, costVertexA: int, closestVertexB: int, costVertexB: int)
      requires IsMatrix(graph, n) && i < n
      ensures Closest(closestVertexA, costVertexA, closestVertexB, costVertexB) == Closest2(graph[i], i, n)
    {
      closestVertexA, closestVertexB := -1, -1;
      costVertexA, costVertexB := INF, INF;
      for j := 0 to n
        invariant Closest(closestVertexA, costVertexA, closestVertexB, costVertexB) == Closest2(graph[i], i, j)
      {
        if j == i {
          continue;
        }
        if graph[i][j] < costVertexA {
          closestVertexB := closestVertexA;
          costVertexB := costVertexA;
          closestVertexA := j;
          costVertexA := graph[i][j];
        } else if graph[i][j] < costVertexB {
          closestVertexB := j;
          costVertexB := graph[i][j];
        }
      }
    }

    /** Row i of `initializeClosestPairs`: a new pair given both arrays
        through the setters. */
    method ClosestPairOf(i: nat) returns (closestPair: VerticesPair)
      requires IsMatrix(graph, n) && i < n
      ensures fresh(closestPair) && fresh(closestPair.verticesIds) && fresh(closestPair.costsToReachVertices)
      ensures closestPair.Value() == ClosestPair(graph[i], i)
    {
      var a, costA, b, costB := ClosestOf(i);
      var ids := new int[2];
      ids[0], ids[1] := a, b;
      var costs := new int[2];
      costs[0], costs[1] := costA, costB;
      assert ids[..] == [a, b] && costs[..] == [costA, costB];
      closestPair := new VerticesPair();
      closestPair.SetVerticesIds(ids);
      closestPair.SetCostsToReachVertices(costs);
    }

    /** `initializeClosestPairs`: one fresh pair per row. */
    method InitializeClosestPairs() returns (closestPairs: seq<VerticesPair>, ghost repr: set<object>)
      requires IsMatrix(graph, n)
      ensures HeldIn(closestPairs, ClosestTable(graph, n), repr) && fresh(repr)
    {
      closestPairs, repr := [], {};
      ghost var t := ClosestTable(graph, n);
      for i := 0 to n
        invariant HeldIn(closestPairs, t[..i], repr) && fresh(repr)
      {
        var closestPair := ClosestPairOf(i);
        HeldSnoc(closestPairs, t[..i], repr, closestPair);
        assert t[..i] + [t[i]] == t[..i + 1];
        closestPairs := closestPairs + [closestPair];
        repr := repr + {closestPair, closestPair.verticesIds, closestPair.costsToReachVertices};
      }
      assert t[..n] == t;
    }

    /** `priorityQueue.add`. */
    method Enqueue(p: PathNode)
      requires QueueValid() && Queued(graph, n, p) && this !in p.Repr
      modifies this
      ensures QueueValid()
      ensures priorityQueue == old(priorityQueue) + [p] && Nodes == old(Nodes) + p.Repr
      ensures shortestPathCost == old(shortestPathCost) && shortestPathNode == old(shortestPathNode)
      ensures Potential(n, priorityQueue) == Potential(n, old(priorityQueue)) + Weight(n, p)
    {
      PotentialAppend(n, priorityQueue, [p]);
      QueueSnoc(graph, n, priorityQueue, Nodes, p);
      priorityQueue := priorityQueue + [p];
      Nodes := Nodes + p.Repr;
    }

    /** `priorityQueue.poll`: takes out a node of least bound, at position k,
        and returns that node. */
    method Poll() returns (current: PathNode, ghost k: nat)
      requires QueueValid() && |priorityQueue| > 0
      modifies this
      ensures QueueValid() && Nodes == old(Nodes)
      ensures shortestPathCost == old(shortestPathCost) && shortestPathNode == old(shortestPathNode)
      ensures Queued(graph, n, current) && current.Repr <= Nodes
      ensures k < |old(priorityQueue)| && old(priorityQueue)[k] == current
      ensures priorityQueue == old(priorityQueue)[..k] + old(priorityQueue)[k + 1..]
      ensures forall p :: p in old(priorityQueue) ==> current.lb2 <= p.lb2
      ensures forall p :: p in priorityQueue ==> p in old(priorityQueue)
      ensures Potential(n, priorityQueue) + Weight(n, current) == Potential(n, old(priorityQueue))
    {
      ghost var least := LeastExists(priorityQueue);
      var j :| IsLeast(priorityQueue, j);
      assert IsLeast(priorityQueue, j);
      k := j;
      current := priorityQueue[j];
      PotentialRemove(n, priorityQueue, j);
      QueueRemove(graph, n, priorityQueue, Nodes, j);
      priorityQueue := priorityQueue[..j] + priorityQueue[j + 1..];
    }

    /** Seeds the queue with the root node and runs the search. The result is
        MAX_VALUE or the cost of the tour `getShortestPath` returns; every node
        left in the queue has a bound at least the result. */
    method GetShortestPathCost() returns (cost: int)
      requires Valid() && n >= 1
      modifies this
      ensures Valid()
      ensures cost == shortestPathCost <= old(shortestPathCost)
      ensures forall k :: 0 <= k < |priorityQueue| ==> priorityQueue[k].lb2 >= 2 * cost
    {
      var pairs, repr := InitializeClosestPairs();
      var root := new PathNode.Root(0, pairs, ClosestTable(graph, n), repr);
      Enqueue(root);
      BranchAndBound();
      cost := shortestPathCost;
    }

    /** `branchAndBound`: poll a node of least bound; stop once that bound
        reaches the best cost; take a full node closed by a positive edge to 0
        if it is strictly cheaper; queue its children. */
    method BranchAndBound()
      requires Valid()
      modifies this
      ensures Valid()
      ensures shortestPathCost <= old(shortestPathCost)
      ensures forall k :: 0 <= k < |priorityQueue| ==> priorityQueue[k].lb2 >= 2 * shortestPathCost
    {
      while |priorityQueue| > 0
        invariant Valid()
        invariant shortestPathCost <= old(shortestPathCost)
        decreases Potential(n, priorityQueue)
      {
        var currentPathNode, k := Poll();
        if currentPathNode.lb2 >= 2 * shortestPathCost {
          return;
        }
        Close(currentPathNode);
        ghost var children := Expand(currentPathNode);
      }
    }

    /** The closing test of `branchAndBound`: a full node whose edge back to 0 is
        positive and whose closed cost is below the best becomes the best. */
    method Close(current: PathNode)
      requires Valid() && Queued(graph, n, current) && current.Repr <= Nodes
      modifies this
      ensures Valid() && Queued(graph, n, current) && current.Repr <= Nodes
      ensures priorityQueue == old(priorityQueue) && Nodes == old(Nodes)
      ensures var id := current.currentVertexId;
        if current.totalVisitedVertices == n && graph[0][id] > 0
          && current.pathTotalCost + graph[0][id] < old(shortestPathCost)
        then shortestPathCost == current.pathTotalCost + graph[0][id] && shortestPathNode == current
        else shortestPathCost == old(shortestPathCost) && shortestPathNode == old(shortestPathNode)
    {
      var id := current.currentVertexId;
      if current.totalVisitedVertices == n && graph[0][id] > 0
        && current.pathTotalCost + graph[0][id] < shortestPathCost
      {
        shortestPathCost := current.pathTotalCost + graph[0][id];
        shortestPathNode := current;
      }
    }

    /** The `for` loop of `branchAndBound`: a child for every unvisited i with
        `graph[i][current] > 0`, queued if its cost is below the best. */
    method Expand(current: PathNode) returns (ghost children: seq<PathNode>)
      requires QueueValid() && Queued(graph, n, current) && current.Repr <= Nodes
      modifies this
      ensures QueueValid()
      ensures shortestPathCost == old(shortestPathCost) && shortestPathNode == old(shortestPathNode)
      ensures priorityQueue == old(priorityQueue) + children
      ensures Children(current, children, 0, shortestPathCost)
      ensures Ids(children) == Spawned(graph, n, current, shortestPathCost, n)
      ensures Potential(n, priorityQueue) < Potential(n, old(priorityQueue)) + Weight(n, current)
    {
      children := [];
      for i := 0 to n
        invariant QueueValid() && Queued(graph, n, current) && current.Repr <= Nodes
        invariant shortestPathCost == old(shortestPathCost) && shortestPathNode == old(shortestPathNode)
        invariant priorityQueue == old(priorityQueue) + children
        invariant Grown(graph, n, current, children, shortestPathCost, i)
      {
        children := Grow(current, i, old(priorityQueue), children);
      }
      GrownAll(graph, n, current, old(priorityQueue), children, shortestPathCost);
    }

    /** `TryChild` as a step of that loop: the children so far grow by the
        one for i, if any. */
    method Grow(current: PathNode, i: nat, ghost front: seq<PathNode>, ghost kids: seq<PathNode>)
      returns (ghost kids': seq<PathNode>)
      requires QueueValid() && Queued(graph, n, current) && current.Repr <= Nodes && i < n
      requires priorityQueue == front + kids && Grown(graph, n, current, kids, shortestPathCost, i)
      modifies this
      ensures QueueValid() && Queued(graph, n, current) && current.Repr <= Nodes
      ensures shortestPathCost == old(shortestPathCost) && shortestPathNode == old(shortestPathNode)
      ensures priorityQueue == front + kids' && Grown(graph, n, current, kids', shortestPathCost, i + 1)
    {
      var queued, child := TryChild(current, i);
      if queued {
        ghost var c: PathNode := child;
        GrowStep(graph, n, current, kids, shortestPathCost, i, c);
        SnocAssoc(front, kids, c);
        kids' := kids + [c];
      } else {
        SkipStep(graph, n, current, kids, shortestPathCost, i);
        kids' := kids;
      }
    }

    /** One turn of that loop, at vertex i. */
    method TryChild(current: PathNode, i: nat) returns (queued: bool, ghost child: PathNode?)
      requires QueueValid() && Queued(graph, n, current) && current.Repr <= Nodes && i < n
      modifies this
      ensures QueueValid() && Queued(graph, n, current) && current.Repr <= Nodes
      ensures shortestPathCost == old(shortestPathCost) && shortestPathNode == old(shortestPathNode)
      ensures queued <==> Spawns(graph, n, current, shortestPathCost, i)
      ensures !queued ==> priorityQueue == old(priorityQueue)
      ensures queued ==>
        && child != null && priorityQueue == old(priorityQueue) + [child]
        && IsChild(current, child, shortestPathCost) && child.currentVertexId == i
        && child.pathTotalCost == current.pathTotalCost + graph[i][current.currentVertexId]
        && current.totalVisitedVertices < n
    {
      queued, child := false, null;
      var id := current.currentVertexId;
      if !current.visitedVertices[i] && graph[i][id] > 0 {
        var pathNode := NewChild(graph, n, current, i);
        if pathNode.pathTotalCost < shortestPathCost {
          Enqueue(pathNode);
          queued, child := true, pathNode;
        }
      }
    }

    /** `getShortestPath`: 0, then the ids from the best node back to the root,
        bottom of the stack first. */
    method GetShortestPath() returns (shortestPath: seq<int>)
      requires Valid()
      ensures shortestPathNode == null ==> shortestPath == [0]
      ensures shortestPathNode != null ==> shortestPath == Reverse(shortestPathNode.chain + [0])
      ensures shortestPathNode != null ==>
        IsTour(n, shortestPath) && PositiveEdges(graph, n, shortestPath)
        && Cost(graph, n, shortestPath) == shortestPathCost
    {
      if shortestPathNode != null {
        TrailChained(graph, n, shortestPathNode);
        BestIsTour(graph, n, shortestPathNode);
      }
      shortestPath := [0];
      var currentPathNode := shortestPathNode;
      while currentPathNode != null
        invariant currentPathNode != null ==> Chained(currentPathNode)
        invariant shortestPathNode == null ==> currentPathNode == null && shortestPath == [0]
        invariant shortestPathNode != null ==>
          shortestPath + (if currentPathNode == null then [] else Reverse(currentPathNode.chain))
          == [0] + Reverse(shortestPathNode.chain)
        decreases if currentPathNode == null then 0 else |currentPathNode.chain|
      {
        ReverseSnoc(if currentPathNode.previousPathNode == null then [] else currentPathNode.previousPathNode.chain,
          currentPathNode.currentVertexId);
        shortestPath := shortestPath + [currentPathNode.currentVertexId];
        currentPathNode := currentPathNode.previousPathNode;
      }
      if shortestPathNode != null {
        ReverseSnoc(shortestPathNode.chain, 0);
      }
    }
  }

  /** `new PathNode(i, graph[i][current], current)` in the loop of
      `branchAndBound`: a fresh child that extends the trail of its parent. */
  method NewChild(g: seq<seq<int>>, n: nat, current: PathNode, i: int) returns (p: PathNode)
    requires IsMatrix(g, n) && Queued(g, n, current)
    requires 0 <= i < n && !current.visited[i] && g[i][current.currentVertexId] > 0
    ensures Queued(g, n, p) && fresh(p.Repr)
    ensures p.previousPathNode == current && p.currentVertexId == i
    ensures p.totalVisitedVertices == current.totalVisitedVertices + 1 < n + 1
    ensures p.pathTotalCost == current.pathTotalCost + g[i][current.currentVertexId]
  {
    p := new PathNode.Child(i, g[i][current.currentVertexId], current);
    ChildOk(g, n, current, p, i);
  }
}
