// PathNode: one state of the branch-and-bound search. It is never changed
// after construction; a child deep-copies its parent's visited array and pair
// table and patches the two pairs of the new edge. The lower bound is kept
// doubled (`lb2 == 2 * lb`), so it is the integer sum of all pair costs.

module PathNodes {
  import opened Graphs
  import opened VerticesPairs
  import opened SearchPaths
  import opened PairTables

  /** The marks of the root node: only the given vertex. */
  method RootMarks(size: nat, v: nat) returns (marks: array<bool>)
    requires v < size
    ensures fresh(marks) && marks.Length == size && Marks(marks[..], [v])
  {
    marks := new bool[size](_ => false);
    marks[v] := true;
  }

  /** The copying loop over `visitedVertices`, then the new vertex marked. */
  method MarkedCopy(a: array<bool>, v: nat) returns (b: array<bool>)
    requires v < a.Length
    ensures fresh(b) && b[..] == a[..][v := true]
  {
    b := new bool[a.Length];
    for i := 0 to a.Length
      invariant b[..i] == a[..i]
    {
      b[i] := a[i];
    }
    b[v] := true;
  }

  class PathNode {
    const currentVertexId: int
    const lb2: int
    const visitedVertices: array<bool>
    const totalVisitedVertices: nat
    const pathTotalCost: int
    const verticesPairs: seq<VerticesPair>
    const previousPathNode: PathNode?
    /** What the arrays and pairs hold: they are never written after construction. */
    ghost const visited: seq<bool>
    ghost const table: seq<PairValue>
    /** The ids from the root node to this one. */
    ghost const chain: seq<int>
    /** The pairs and their arrays, and with the marks array all of the node's objects. */
    ghost const PairsRepr: set<object>
    ghost const Repr: set<object>

    ghost predicate Valid()
      reads Repr
    {
      && Repr == {visitedVertices} + PairsRepr
      && NodeHolds(visitedVertices, visited, verticesPairs, table, PairsRepr, lb2)
    }

    /** The id of the node before the parent of a child, -1 at the root. */
    function PrevId(): int
    {
      if previousPathNode != null then previousPathNode.currentVertexId else -1
    }

    /** `compareTo`: by lower bound, and -1 (never 0) when the bounds are equal. */
    function CompareTo(p2: PathNode): (r: int)
      ensures r != 0 && (r == -1 || r == 1)
      ensures r == -1 <==> lb2 <= p2.lb2
    {
      if lb2 < p2.lb2 then -1 else if lb2 > p2.lb2 then 1 else -1
    }

    /** The root constructor: marks `currentVertexId` but leaves the field of that
        name at its default 0; the pair list is kept as given. */
    constructor Root(currentVertexId: int, closestPairs: seq<VerticesPair>,
                     ghost closestTable: seq<PairValue>, ghost pairsRepr: set<object>)
      requires 0 <= currentVertexId < |closestPairs|
      requires HeldIn(closestPairs, closestTable, pairsRepr) && Summable(closestTable)
      ensures Valid()
      ensures this.currentVertexId == 0 && previousPathNode == null && chain == [0]
      ensures verticesPairs == closestPairs && table == closestTable
      ensures |visited| == |closestPairs| && Marks(visited, [currentVertexId])
      ensures totalVisitedVertices == 1 && pathTotalCost == 0
      ensures fresh(visitedVertices) && Repr == {visitedVertices} + pairsRepr
    {
      var marks := RootMarks(|closestPairs|, currentVertexId);
      var lb := CalculateLowerBound(closestPairs, closestTable, pairsRepr);
      this.currentVertexId := 0;
      verticesPairs := closestPairs;
      visitedVertices := marks;
      totalVisitedVertices := 1;
      previousPathNode := null;
      pathTotalCost := 0;
      lb2 := lb;
      visited := marks[..];
      table := closestTable;
      chain := [0];
      PairsRepr := pairsRepr;
      Repr := {marks} + pairsRepr;
    }

    /** The child constructor: copies of the parent's pairs and marks, vertexToVisit
        marked, and the pairs of both ends of the new edge patched. */
    constructor Child(vertexToVisit: int, costToReachVertex: int, parentPathNode: PathNode)
      requires parentPathNode.Valid()
      requires 0 <= vertexToVisit < |parentPathNode.visited|
      requires 0 <= parentPathNode.currentVertexId < |parentPathNode.table|
      requires Scannable(parentPathNode.table[parentPathNode.currentVertexId])
      requires Scannable(parentPathNode.table[vertexToVisit])
      ensures Valid() && fresh(Repr)
      ensures parentPathNode.Valid()
      ensures previousPathNode == parentPathNode && currentVertexId == vertexToVisit
      ensures chain == parentPathNode.chain + [vertexToVisit]
      ensures visited == parentPathNode.visited[vertexToVisit := true]
      ensures table == Patched(parentPathNode.table, parentPathNode.currentVertexId, vertexToVisit,
        costToReachVertex, parentPathNode.PrevId())
      ensures totalVisitedVertices == parentPathNode.totalVisitedVertices + 1
      ensures pathTotalCost == parentPathNode.pathTotalCost + costToReachVertex
    {
      var parent := parentPathNode;
      var copies, lb, marks, fp := ChildArrays(vertexToVisit, costToReachVertex, parent);
      ghost var t := Patched(parent.table, parent.currentVertexId, vertexToVisit,
        costToReachVertex, parent.PrevId());
      previousPathNode := parent;
      verticesPairs := copies;
      currentVertexId := vertexToVisit;
      visitedVertices := marks;
      totalVisitedVertices := parent.totalVisitedVertices + 1;
      pathTotalCost := parent.pathTotalCost + costToReachVertex;
      lb2 := lb;
      visited := parent.visited[vertexToVisit := true];
      table := t;
      chain := parent.chain + [vertexToVisit];
      PairsRepr := fp;
      Repr := {marks} + fp;
    }
  }

  /** The arrays of the child constructor: the copied pairs with the two of
      the new edge patched, their bound, and the copied marks with the new
      vertex marked. */
  method ChildArrays(vertexToVisit: int, costToReachVertex: int, parent: PathNode)
    returns (copies: seq<VerticesPair>, lb: int, marks: array<bool>, ghost fp: set<object>)
    requires parent.Valid()
    requires 0 <= vertexToVisit < |parent.visited|
    requires 0 <= parent.currentVertexId < |parent.table|
    requires Scannable(parent.table[parent.currentVertexId]) && Scannable(parent.table[vertexToVisit])
    ensures fresh({marks} + fp)
    ensures NodeHolds(marks, parent.visited[vertexToVisit := true], copies,
      Patched(parent.table, parent.currentVertexId, vertexToVisit, costToReachVertex, parent.PrevId()),
      fp, lb)
  {
    copies, lb, fp := PatchedCopies(vertexToVisit, costToReachVertex, parent);
    marks := MarkedCopy(parent.visitedVertices, vertexToVisit);
  }

  /** The pair work of the child constructor: copy the pairs, patch the two
      of the new edge, and sum the bound of the patched table. */
  method PatchedCopies(vertexToVisit: int, costToReachVertex: int, parent: PathNode)
    returns (copies: seq<VerticesPair>, lb: int, ghost fp: set<object>)
    requires parent.Valid()
    requires 0 <= vertexToVisit < |parent.table|
    requires 0 <= parent.currentVertexId < |parent.table|
    requires Scannable(parent.table[parent.currentVertexId]) && Scannable(parent.table[vertexToVisit])
    ensures fresh(fp)
    ensures HeldIn(copies, Patched(parent.table, parent.currentVertexId, vertexToVisit,
      costToReachVertex, parent.PrevId()), fp)
    ensures Summable(Patched(parent.table, parent.currentVertexId, vertexToVisit,
      costToReachVertex, parent.PrevId()))
    ensures lb == LowerBound2(Patched(parent.table, parent.currentVertexId, vertexToVisit,
      costToReachVertex, parent.PrevId()))
  {
    var a := parent.currentVertexId;
    copies, fp := CopyPairs(parent.verticesPairs, parent.table, parent.PairsRepr);
    var prevId := if parent.previousPathNode != null then parent.previousPathNode.currentVertexId else -1;
    PatchPairs(copies, parent.table, fp, a, vertexToVisit, costToReachVertex, prevId);
    ghost var t := Patched(parent.table, a, vertexToVisit, costToReachVertex, prevId);
    lb := CalculateLowerBound(copies, t, fp);
  }

  /** The node's chain of ids follows its `previousPathNode` links down to a root. */
  ghost predicate Chained(p: PathNode)
    decreases |p.chain|
  {
    && |p.chain| >= 1 && p.chain[|p.chain| - 1] == p.currentVertexId
    && if p.previousPathNode == null then |p.chain| == 1
       else p.chain == p.previousPathNode.chain + [p.currentVertexId] && Chained(p.previousPathNode)
  }
}
