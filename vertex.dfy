// Vertex: an immutable link of a search path, holding its id, the link it was
// reached from, and the summed cost of getting there from the root. A Java
// object whose fields are only ever set by its constructor is a value, so it
// is a datatype here and its getters are the datatype's destructors; chains
// share their tails exactly as the Java objects do.

module Vertices {
  import opened Wrappers
  import opened Graphs

  datatype Vertex = Vertex(id: int, prev: Option<Vertex>, costToReach: int)

  /** The ids from the root of the chain to v. */
  function Path(v: Vertex): (p: seq<int>)
    ensures |p| >= 1 && p[|p| - 1] == v.id
  {
    match v.prev
    case None => [v.id]
    case Some(u) => Path(u) + [v.id]
  }

  /** The ids from v back to the root of the chain, in the order the
      `getShortestPath` loop pushes them. */
  function BackIds(v: Vertex): (p: seq<int>)
    ensures |p| >= 1 && p[0] == v.id
  {
    match v.prev
    case None => [v.id]
    case Some(u) => [v.id] + BackIds(u)
  }

  /** Walking the chain backwards lists the path in reverse. */
  lemma {:induction false} BackIdsReversed(v: Vertex)
    ensures Reverse(BackIds(v)) == Path(v)
  {
    match v.prev
    case None =>
    case Some(u) =>
      BackIdsReversed(u);
      ReverseCons(v.id, BackIds(u));
  }

  /** v's chain was built the way the depth-first solvers build it: it starts at
      `new Vertex(0, null, 0)` and each link adds `graph[prev.id][id]` to the
      cost of the link before. */
  ghost predicate Linked(g: seq<seq<int>>, n: nat, v: Vertex)
    requires IsMatrix(g, n)
  {
    0 <= v.id < n &&
    match v.prev
    case None => v.id == 0 && v.costToReach == 0
    case Some(u) => Linked(g, n, u) && v.costToReach == u.costToReach + g[u.id][v.id]
  }

  /** A linked chain is a path from the root whose cost is the one it carries. */
  lemma {:induction false} LinkedPath(g: seq<seq<int>>, n: nat, v: Vertex)
    requires IsMatrix(g, n) && Linked(g, n, v)
    ensures InRange(Path(v), n) && Path(v)[0] == 0
    ensures v.costToReach == Cost(g, n, Path(v))
  {
    match v.prev
    case None =>
    case Some(u) =>
      LinkedPath(g, n, u);
      CostSnoc(g, n, Path(u), v.id);
      assert (Path(u) + [v.id])[0] == Path(u)[0];
  }

  /** The shared `getShortestPath` of the two depth-first solvers: push 0, then
      every id from `lastVertex` back to the root. The stack is listed bottom first. */
  method StackFrom(lastVertex: Option<Vertex>) returns (shortestPath: seq<int>)
    ensures lastVertex == None ==> shortestPath == [0]
    ensures lastVertex.Some? ==> shortestPath == [0] + BackIds(lastVertex.value)
    ensures lastVertex.Some? ==> Reverse(shortestPath) == Path(lastVertex.value) + [0]
  {
    shortestPath := [0];
    var currentVertex := lastVertex;
    while currentVertex != None
      invariant lastVertex == None ==> currentVertex == None && shortestPath == [0]
      invariant lastVertex.Some? ==>
        shortestPath + (if currentVertex == None then [] else BackIds(currentVertex.value))
        == [0] + BackIds(lastVertex.value)
      decreases currentVertex
    {
      var v := currentVertex.value;
      assert BackIds(v) == [v.id] + (if v.prev == None then [] else BackIds(v.prev.value));
      shortestPath := shortestPath + [v.id];
      currentVertex := v.prev;
    }
    if lastVertex.Some? {
      BackIdsReversed(lastVertex.value);
      ReverseCons(0, BackIds(lastVertex.value));
    }
  }

  lemma ReverseCons(x: int, s: seq<int>)
    ensures Reverse([x] + s) == Reverse(s) + [x]
  {
    assert ([x] + s)[1..] == s;
  }
}
