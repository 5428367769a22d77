// DynamicProgrammingTSP: the memo table memory[v][mask] filled in increasing
// subset size, the closing minimum over the edges back to the root, and the
// argmin walk that rebuilds the tour from the table.

module DynamicProgramming {
  import opened Bits
  import opened Graphs
  import opened Combinations
  import opened CheapestPaths

  /** `leftShiftedRoot | (1 << i)`, the two-vertex mask {0, i}. */
  function RootPair(i: nat): nat
  {
    Or(1, Pow2(i))
  }

  lemma RootPairShape(i: nat, n: nat)
    requires i < n
    ensures RootPair(i) < Pow2(n)
    ensures i > 0 ==> RootPair(i) == 1 + Pow2(i)
  {
    if i == 0 {
      assert RootPair(0) == 1;
      Pow2Mono(1, n);
    } else {
      BitOfZero(i - 1);
      assert !Bit(i, 1);
      OrPow2(i, 1);
      Pow2Mono(i + 1, n);
    }
  }

  /** Every table entry on fewer than `size` vertices holds the cheapest-path cost. */
  ghost predicate FilledBelow(g: seq<seq<int>>, n: nat, memory: array2<int>, size: nat)
    requires IsMatrix(g, n)
    reads memory
  {
    && memory.Length0 == n && memory.Length1 == Pow2(n)
    && forall v: nat, m: nat :: Entry(n, v, m) && PopCount(m) < size ==> memory[v, m] == PathCost(g, n, v, m)
  }

  /** The `end` loop of lines 65-72: the cheapest way into `next` through `subset`. */
  method MinOverEnds(g: seq<seq<int>>, n: nat, memory: array2<int>, next: nat, subset: nat) returns (minDist: int)
    requires IsMatrix(g, n) && Entry(n, next, subset) && PopCount(subset) > 2
    requires FilledBelow(g, n, memory, PopCount(subset))
    ensures minDist == PathCost(g, n, next, subset)
  {
    XorPow2(next, subset);
    ClearBit(next, subset);
    var subsetWithoutNext := Xor(subset, Pow2(next));
    minDist := INF;
    var end := 0;
    while end < n
      invariant 0 <= end <= n
      invariant minDist == MinDist(g, n, next, subset, end)
    {
      if end == 0 || end == next || NotIn(end, subset) {
        end := end + 1;
        continue;
      }
      assert Entry(n, end, subsetWithoutNext);
      var newDistance := memory[end, subsetWithoutNext] + g[end][next];
      if newDistance < minDist {
        minDist := newDistance;
      }
      end := end + 1;
    }
  }

  /** The `next` loop of lines 62-74 for one subset that holds the root. */
  method FillSubset(g: seq<seq<int>>, n: nat, memory: array2<int>, subset: nat)
    requires IsMatrix(g, n) && subset < Pow2(n) && Bit(0, subset) && PopCount(subset) > 2
    requires FilledBelow(g, n, memory, PopCount(subset))
    modifies memory
    ensures FilledBelow(g, n, memory, PopCount(subset))
    ensures forall v: nat :: Entry(n, v, subset) ==> memory[v, subset] == PathCost(g, n, v, subset)
    ensures forall v, m :: 0 <= v < n && 0 <= m < Pow2(n) && (v == 0 || m != subset) ==>
      memory[v, m] == old(memory[v, m])
  {
    var next := 0;
    while next < n
      invariant 0 <= next <= n
      invariant FilledBelow(g, n, memory, PopCount(subset))
      invariant forall v: nat :: v < next && Entry(n, v, subset) ==> memory[v, subset] == PathCost(g, n, v, subset)
      invariant forall v, m :: 0 <= v < n && 0 <= m < Pow2(n) && (v == 0 || m != subset) ==>
        memory[v, m] == old(memory[v, m])
    {
      if next == 0 || NotIn(next, subset) {
        next := next + 1;
        continue;
      }
      var minDist := MinOverEnds(g, n, memory, next, subset);
      memory[next, subset] := minDist;
      next := next + 1;
    }
  }

  /** Every table entry holds the cheapest-path cost. */
  ghost predicate Filled(g: seq<seq<int>>, n: nat, memory: array2<int>)
    requires IsMatrix(g, n)
    reads memory
  {
    && memory.Length0 == n && memory.Length1 == Pow2(n)
    && forall v: nat, m: nat :: Entry(n, v, m) ==> memory[v, m] == PathCost(g, n, v, m)
  }

  /** Lines 51-76: the base case, then every subset of size 3 .. n in turn. */
  method FillTable(g: seq<seq<int>>, n: nat) returns (memory: array2<int>)
    requires IsMatrix(g, n)
    ensures fresh(memory)
    ensures memory.Length0 == n && memory.Length1 == Pow2(n)
    ensures forall i :: 0 <= i < n ==> RootPair(i) < Pow2(n) && memory[i, RootPair(i)] == g[0][i]
    ensures Filled(g, n, memory)
  {
    memory := new int[n, Pow2(n)];
    var i := 0;
    while i < n
      invariant 0 <= i <= n
      invariant forall k :: 0 <= k < i ==> RootPair(k) < Pow2(n) && memory[k, RootPair(k)] == g[0][k]
    {
      RootPairShape(i, n);
      memory[i, RootPair(i)] := g[0][i];
      i := i + 1;
    }
    forall v: nat, m: nat | Entry(n, v, m) && PopCount(m) < 3
      ensures memory[v, m] == PathCost(g, n, v, m)
    {
      EntryHasTwo(n, v, m);
      PairMask(v, m);
      RootPairShape(v, n);
    }
    assert n >= 1 ==> memory[0, RootPair(0)] == g[0][0];
    var r := 3;
    while r <= n
      invariant r >= 3
      invariant FilledBelow(g, n, memory, r)
      invariant n >= 1 ==> memory[0, 1] == g[0][0]
    {
      var subsets := CombinationsOf(r, n);
      var k := 0;
      while k < |subsets|
        invariant 0 <= k <= |subsets|
        invariant FilledBelow(g, n, memory, r)
        invariant forall v: nat, m: nat :: Entry(n, v, m) && m in subsets[..k] ==> memory[v, m] == PathCost(g, n, v, m)
        invariant n >= 1 ==> memory[0, 1] == g[0][0]
      {
        var subset := subsets[k];
        assert subset in subsets;
        assert subsets[..k + 1] == subsets[..k] + [subset];
        if !NotIn(0, subset) {
          FillSubset(g, n, memory, subset);
        }
        k := k + 1;
      }
      assert subsets[..|subsets|] == subsets;
      r := r + 1;
    }
    forall v: nat, m: nat | Entry(n, v, m)
      ensures memory[v, m] == PathCost(g, n, v, m)
    {
      PopCountBound(m, 0, n);
    }
    forall i | 0 < i < n ensures RootPair(i) < Pow2(n) && memory[i, RootPair(i)] == g[0][i] {
      RootPairShape(i, n);
      PairMembers(i, 0);
      PairMembers(i, i);
      BitOfZero(i - 1);
      assert !Bit(i, 1);
      SetBit(i, 1);
      PopCountZero(0);
      PopCountAdd(0, 0);
      assert Entry(n, i, RootPair(i));
    }
  }

  /** The `j` loop of lines 94-103: the first non-root vertex of `state` whose
      table entry plus the edge into `last` is least. */
  method ArgminEnd(g: seq<seq<int>>, n: nat, memory: array2<int>, state: nat, last: int) returns (index: int)
    requires IsMatrix(g, n) && state < Pow2(n) && Bit(0, state) && 0 <= last < n
    requires Filled(g, n, memory)
    ensures index == Pick(g, n, state, last, n)
  {
    index := -1;
    var j := 0;
    while j < n
      invariant 0 <= j <= n
      invariant index == Pick(g, n, state, last, j)
    {
      if j == 0 || NotIn(j, state) {
        j := j + 1;
        continue;
      }
      if index == -1 {
        index := j;
      }
      assert Entry(n, index, state) && Entry(n, j, state);
      var prevDist := memory[index, state] + g[index][last];
      var newDist := memory[j, state] + g[j][last];
      if newDist < prevDist {
        index := j;
      }
      j := j + 1;
    }
  }

  /** Lines 79-85: the closing minimum, starting from the cached cost `init`. */
  method ClosingMin(g: seq<seq<int>>, n: nat, memory: array2<int>, init: int) returns (best: int)
    requires IsMatrix(g, n)
    requires Filled(g, n, memory)
    ensures best == TourMin(g, n, n, init)
  {
    FullMask(n);
    best := init;
    var i := 0;
    while i < n
      invariant 0 <= i <= n
      invariant best == TourMin(g, n, i, init)
    {
      if i != 0 {
        assert Entry(n, i, Full(n));
        var tourCost := memory[i, Full(n)] + g[i][0];
        assert tourCost == Close(g, n, i);
        if tourCost < best {
          best := tourCost;
        }
      }
      i := i + 1;
    }
  }

  /** One turn of the loop of lines 87-108: the argmin vertex, and the state with
      its bit cleared by `^`, from which the rest of the walk starts. */
  method Advance(g: seq<seq<int>>, n: nat, memory: array2<int>, state: nat, last: int, steps: nat)
    returns (index: int, next: nat)
    requires IsMatrix(g, n) && Filled(g, n, memory)
    requires WalkFrom(n, state, last, steps) && steps >= 1
    ensures 0 < index < n && next == Xor(state, Pow2(index))
    ensures WalkFrom(n, next, index, steps - 1)
    ensures Walk(g, n, state, last, steps) == [index] + Walk(g, n, next, index, steps - 1)
  {
    index := ArgminEnd(g, n, memory, state, last);
    WalkStep(g, n, state, last, steps);
    XorPow2(index, state);
    next := Xor(state, Pow2(index));
  }

  /** Midway through the reconstruction: `done` holds the vertices appended so
      far, and the walk still to come from here completes the whole walk. */
  ghost predicate Midway(g: seq<seq<int>>, n: nat, done: seq<int>, state: nat, last: int, steps: nat)
    requires IsMatrix(g, n)
  {
    && WalkFrom(n, state, last, steps)
    && Reconstructed(g, n) == done + Walk(g, n, state, last, steps)
  }

  /** Appending the vertex one step of the walk picks keeps the reconstruction midway. */
  lemma KeepMidway(g: seq<seq<int>>, n: nat, done: seq<int>, state: nat, last: int, steps: nat, index: int, next: nat)
    requires IsMatrix(g, n) && steps >= 1
    requires Midway(g, n, done, state, last, steps)
    requires 0 < index < n && WalkFrom(n, next, index, steps - 1)
    requires Walk(g, n, state, last, steps) == [index] + Walk(g, n, next, index, steps - 1)
    ensures Midway(g, n, done + [index], next, index, steps - 1)
  {
    assert done + ([index] + Walk(g, n, next, index, steps - 1))
      == (done + [index]) + Walk(g, n, next, index, steps - 1);
  }

  /** Lines 87-108: the vertices the argmin walk appends after the root. */
  method Reconstruct(g: seq<seq<int>>, n: nat, memory: array2<int>) returns (walk: seq<int>)
    requires IsMatrix(g, n)
    requires Filled(g, n, memory)
    ensures walk == Reconstructed(g, n)
  {
    walk := [];
    if n == 0 {
      return;
    }
    FullMask(n);
    var lastIndex: int := 0;
    var state: nat := Full(n);
    var i := 1;
    var left: nat := n - 1;
    while i < n
      invariant 1 <= i <= n && left == n - i
      invariant Midway(g, n, walk, state, lastIndex, left)
    {
      var index, next := Advance(g, n, memory, state, lastIndex, left);
      KeepMidway(g, n, walk, state, lastIndex, left, index, next);
      walk := walk + [index];
      state := next;
      lastIndex := index;
      i := i + 1;
      left := left - 1;
    }
    assert walk + [] == walk;
  }

  class DynamicProgrammingTSP {
    const n: nat
    const root: nat
    const endState: nat
    const graph: seq<seq<int>>
    var shortestPath: seq<int>
    var shortestPathCost: int

    /** The fixed fields as the constructor sets them. */
    ghost predicate Valid()
    {
      IsMatrix(graph, n) && root == 0 && endState == Full(n)
    }

    constructor (graph: seq<seq<int>>)
      requires IsMatrix(graph, |graph|)
      ensures Valid()
      ensures this.graph == graph && n == |graph|
      ensures shortestPathCost == INF && shortestPath == []
    {
      this.n := |graph|;
      this.endState := Full(|graph|);
      this.root := 0;
      this.graph := graph;
      this.shortestPathCost := INF;
      this.shortestPath := [];
    }

    /** The tour cached by the last call of GetShortestPathCost. */
    function GetShortestPath(): (p: seq<int>)
      reads this
      ensures p == shortestPath
    {
      shortestPath
    }

    /** Fills the table, takes the cheapest closing edge and rebuilds the tour.
        The closing minimum starts from the cached cost and the tour is added
        to the cached list, so only a first call (as the constructor leaves
        the fields) yields the optimal tour itself. */
    method GetShortestPathCost() returns (cost: int)
      requires Valid() && n <= 30
      modifies this
      ensures cost == shortestPathCost == TourMin(graph, n, n, old(shortestPathCost))
      ensures shortestPath == Reverse(old(shortestPath) + [0] + Reconstructed(graph, n) + [0])
      ensures old(shortestPathCost) == INF && old(shortestPath) == [] ==>
        && (n >= 1 ==> IsTour(n, shortestPath))
        && (n >= 2 ==> forall t :: IsTour(n, t) ==> cost <= Cost(graph, n, t))
        && (n >= 2 && NonNegative(graph, n) && cost < INF ==> Cost(graph, n, shortestPath) == cost)
        && (n <= 1 ==> cost == INF)
    {
      var memory := FillTable(graph, n);
      shortestPathCost := ClosingMin(graph, n, memory, shortestPathCost);
      var walk := Reconstruct(graph, n, memory);
      shortestPath := Reverse(shortestPath + [root] + walk + [root]);
      cost := shortestPathCost;
      if old(shortestPathCost) == INF && old(shortestPath) == [] {
        ReverseWalk(walk);
        assert [] + [0] + walk + [0] == [0] + walk + [0];
        SolverIsOptimal(graph, n);
        if n >= 1 { ReconstructedIsTour(graph, n); }
      }
    }
  }
}
