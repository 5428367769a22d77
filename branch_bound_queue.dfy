// The priority queue and the best tour of BranchBoundTSP, as predicates on
// values: which nodes the queue may hold, and what the best so far stands for.

module BranchBoundQueue {
  import opened Graphs
  import opened PairTables
  import opened PathNodes
  import opened BranchBoundSearch

  /** The best so far, as `branchAndBound` records it: MAX_VALUE and no node,
      or a full node on a trail, closed by a positive edge back to 0, at its
      cost plus that edge, below MAX_VALUE. */
  ghost predicate Best(g: seq<seq<int>>, n: nat, cost: int, node: PathNode?)
    requires IsMatrix(g, n)
  {
    if node == null then cost == INF
    else
      && Trail(g, n, node) && node.totalVisitedVertices == n
      && g[0][node.currentVertexId] > 0
      && cost == node.pathTotalCost + g[0][node.currentVertexId] < INF
  }


  /** A node the queue may hold: its arrays hold what it says and it is a
      search node. */
  ghost predicate Queued(g: seq<seq<int>>, n: nat, p: PathNode)
    requires IsMatrix(g, n)
    reads p.Repr
  {
    p.Valid() && Trail(g, n, p)
  }

  /** Every node of q is queued and has its objects in nodes (stated node by
      node from the back, so that it unfolds one node at a time). */
  ghost predicate QueueOk(g: seq<seq<int>>, n: nat, q: seq<PathNode>, nodes: set<object>)
    requires IsMatrix(g, n)
    reads nodes
    decreases |q|
  {
    q != [] ==>
      && QueueOk(g, n, q[..|q| - 1], nodes)
      && q[|q| - 1].Repr <= nodes && Queued(g, n, q[|q| - 1])
  }

  /** The same, as one quantifier. */
  ghost predicate AllQueued(g: seq<seq<int>>, n: nat, q: seq<PathNode>, nodes: set<object>)
    requires IsMatrix(g, n)
    reads nodes
  {
    forall k :: 0 <= k < |q| ==> q[k].Repr <= nodes && Queued(g, n, q[k])
  }

  lemma {:induction false} QueueAll(g: seq<seq<int>>, n: nat, q: seq<PathNode>, nodes: set<object>)
    requires IsMatrix(g, n)
    ensures QueueOk(g, n, q, nodes) <==> AllQueued(g, n, q, nodes)
    decreases |q|
  {
    if q != [] {
      var front := q[..|q| - 1];
      QueueAll(g, n, front, nodes);
      assert forall k :: 0 <= k < |front| ==> front[k] == q[k];
    }
  }


  lemma QueueSnoc(g: seq<seq<int>>, n: nat, q: seq<PathNode>, nodes: set<object>, p: PathNode)
    requires IsMatrix(g, n) && QueueOk(g, n, q, nodes) && Queued(g, n, p)
    ensures QueueOk(g, n, q + [p], nodes + p.Repr)
  {
    var q', nodes' := q + [p], nodes + p.Repr;
    QueueAll(g, n, q, nodes);
    QueueAll(g, n, q, nodes');
    forall k | 0 <= k < |q| ensures q[k].Repr <= nodes' && Queued(g, n, q[k]) {
      assert q[k].Repr <= nodes && Queued(g, n, q[k]);
    }
    assert q'[..|q|] == q;
  }

  /** Taking node k out of a well-formed queue. */
  lemma QueueRemove(g: seq<seq<int>>, n: nat, q: seq<PathNode>, nodes: set<object>, k: nat)
    requires IsMatrix(g, n) && QueueOk(g, n, q, nodes) && k < |q|
    ensures q[k].Repr <= nodes && Queued(g, n, q[k])
    ensures QueueOk(g, n, q[..k] + q[k + 1..], nodes)
    ensures forall p :: p in q[..k] + q[k + 1..] ==> p in q
  {
    var q' := q[..k] + q[k + 1..];
    QueueAll(g, n, q, nodes);
    QueueAll(g, n, q', nodes);
    forall j | 0 <= j < |q'| ensures q'[j].Repr <= nodes && Queued(g, n, q'[j]) {
      var m := if j < k then j else j + 1;
      assert q'[j] == q[m];
    }
  }
}

// The whole search state of BranchBoundTSP in one predicate, kept in a module
// of its own so that the class invariant unfolds into two facts, not all of
// their parts.

module BranchBoundState {
  import opened Graphs
  import opened PathNodes
  import opened BranchBoundQueue

  /** The queue is well formed and the best so far is what it says. */
  ghost predicate SearchOk(g: seq<seq<int>>, n: nat, q: seq<PathNode>, nodes: set<object>,
                           cost: int, node: PathNode?)
    requires IsMatrix(g, n)
    reads nodes
  {
    QueueOk(g, n, q, nodes) && Best(g, n, cost, node)
  }
}
