// The quantity DynamicProgrammingTSP stores in memory[v][mask]: the cheapest way
// to leave vertex 0, visit exactly the vertices of `mask` and stop at v. It is
// given here as the recurrence the table fill computes (including Java's
// Integer.MAX_VALUE starting value for the minimum), and then proved to be the
// minimum over all such paths; the final tour cost is proved minimal over all tours.

module CheapestPaths {
  import opened Bits
  import opened Graphs

  /** memory[v][mask] is an entry the table fill defines: v is not the root,
      and both the root and v are in the mask. */
  ghost predicate Entry(n: nat, v: nat, mask: nat)
  {
    0 < v < n && mask < Pow2(n) && Bit(0, mask) && Bit(v, mask)
  }

  /** `end` may precede v in a path through mask (the `continue` test of the inner loop). */
  ghost predicate IsEnd(n: nat, v: nat, mask: nat, end: nat)
  {
    0 < end < n && end != v && Bit(end, mask)
  }

  /** Cheapest cost of reaching v from 0 through exactly the vertices of mask. */
  ghost function PathCost(g: seq<seq<int>>, n: nat, v: nat, mask: nat): int
    requires IsMatrix(g, n) && v < n && Bit(v, mask)
    decreases PopCount(mask), n + 2
  {
    if PopCount(mask) <= 2 then g[0][v]
    else MinDist(g, n, v, mask, n)
  }

  /** `minDist` after the `end` loop has looked at ends 0 .. k-1. */
  ghost function MinDist(g: seq<seq<int>>, n: nat, v: nat, mask: nat, k: nat): int
    requires IsMatrix(g, n) && v < n && Bit(v, mask) && PopCount(mask) > 2 && k <= n
    decreases PopCount(mask), k + 1
  {
    if k == 0 then INF
    else
      var prev := MinDist(g, n, v, mask, k - 1);
      if IsEnd(n, v, mask, k - 1) && Via(g, n, v, mask, k - 1) < prev
      then Via(g, n, v, mask, k - 1) else prev
  }

  /** `memory[end][subset ^ (1 << v)] + graph[end][v]`: reach v with `end` just before it. */
  ghost function Via(g: seq<seq<int>>, n: nat, v: nat, mask: nat, end: nat): int
    requires IsMatrix(g, n) && v < n && Bit(v, mask) && PopCount(mask) > 2 && IsEnd(n, v, mask, end)
    decreases PopCount(mask), 0
  {
    ClearKeeps(v, end, mask);
    PathCost(g, n, end, mask - Pow2(v)) + g[end][v]
  }

  /** `memory[i][endState] + graph[i][root]`: the tour that returns to 0 from i. */
  ghost function Close(g: seq<seq<int>>, n: nat, i: nat): int
    requires IsMatrix(g, n) && i < n
  {
    FullHas(n, i);
    PathCost(g, n, i, Full(n)) + g[i][0]
  }

  /** `shortestPathCost` after the closing loop has looked at vertices 0 .. k-1,
      starting from the value `init` the field held before. */
  ghost function TourMin(g: seq<seq<int>>, n: nat, k: nat, init: int): int
    requires IsMatrix(g, n) && k <= n
  {
    if k == 0 then init
    else
      var prev := TourMin(g, n, k - 1, init);
      if k - 1 != 0 && Close(g, n, k - 1) < prev then Close(g, n, k - 1) else prev
  }

  /** `minDist` is INF or the smallest of the candidate costs looked at, and it
      is attained by one of them when it is below INF. */
  lemma {:induction false} MinDistIsMin(g: seq<seq<int>>, n: nat, v: nat, mask: nat, k: nat)
    requires IsMatrix(g, n) && v < n && Bit(v, mask) && PopCount(mask) > 2 && k <= n
    ensures MinDist(g, n, v, mask, k) <= INF
    ensures forall e: nat :: e < k && IsEnd(n, v, mask, e) ==> MinDist(g, n, v, mask, k) <= Via(g, n, v, mask, e)
    ensures MinDist(g, n, v, mask, k) < INF ==>
      exists e: nat :: e < k && IsEnd(n, v, mask, e) && MinDist(g, n, v, mask, k) == Via(g, n, v, mask, e)
  {
    if k > 0 { MinDistIsMin(g, n, v, mask, k - 1); }
  }

  /** The same for the closing loop: the result is at most `init` and every
      closing cost, and it is `init` or one of them. */
  lemma {:induction false} TourMinIsMin(g: seq<seq<int>>, n: nat, k: nat, init: int)
    requires IsMatrix(g, n) && k <= n
    ensures TourMin(g, n, k, init) <= init
    ensures forall e: nat :: 0 < e < k ==> TourMin(g, n, k, init) <= Close(g, n, e)
    ensures TourMin(g, n, k, init) == init ||
      exists e: nat :: 0 < e < k && TourMin(g, n, k, init) == Close(g, n, e)
  {
    if k > 0 { TourMinIsMin(g, n, k - 1, init); }
  }

  // ---- paths through a mask ----

  /** p leaves 0, ends at v, and visits each vertex of mask exactly once and nothing else. */
  ghost predicate PathThrough(n: nat, mask: nat, v: nat, p: seq<int>)
  {
    && |p| >= 1
    && InRange(p, n)
    && p[0] == 0 && p[|p| - 1] == v
    && Distinct(p)
    && forall j: nat :: j < n ==> (Bit(j, mask) <==> j in p)
  }

  lemma EntryHasTwo(n: nat, v: nat, mask: nat)
    requires Entry(n, v, mask)
    ensures PopCount(mask) >= 2
  {
    ClearBit(v, mask);
    ClearBit(0, mask - Pow2(v));
  }

  /** The members of `1 | (1 << v)` are 0 and v. */
  lemma PairMembers(v: nat, j: nat)
    requires v > 0
    ensures Bit(j, 1 + Pow2(v)) <==> j == 0 || j == v
  {
    BitOfZero(v - 1);
    assert !Bit(v, 1);
    SetBit(v, 1);
    if j > 0 {
      BitOfZero(j - 1);
      assert Bit(j, 1) == Bit(j - 1, 0);
    }
  }

  /** Without its last vertex v, a path through a mask of three or more
      vertices is a path through the mask without v, to an end the inner loop
      of the table fill looks at. */
  lemma DropLast(n: nat, v: nat, mask: nat, p: seq<int>) returns (end: nat)
    requires Entry(n, v, mask) && PathThrough(n, mask, v, p) && PopCount(mask) > 2
    ensures |p| >= 3 && end == p[|p| - 2] && mask >= Pow2(v)
    ensures IsEnd(n, v, mask, end) && Entry(n, end, mask - Pow2(v))
    ensures PathThrough(n, mask - Pow2(v), end, p[..|p| - 1])
  {
    ClearBit(v, mask);
    var rest := mask - Pow2(v);
    var other := OtherBit(0, rest);
    if other >= n { BitsBelowPow2(mask, n, other); }
    assert other in p;
    assert |p| >= 3;
    end := p[|p| - 2];
    var front := p[..|p| - 1];
    assert end != v && end != 0 by {
      assert p[|p| - 2] != p[|p| - 1] && p[|p| - 2] != p[0];
    }
    assert Bit(end, mask) by { assert end in p; }
    forall j: nat | j < n
      ensures Bit(j, rest) <==> j in front
    {
      if j in p && j != v {
        var k :| 0 <= k < |p| && p[k] == j;
        assert k != |p| - 1;
        assert front[k] == j;
      }
    }
    assert PathThrough(n, rest, end, front);
  }

  /** No path through mask to v is cheaper than memory[v][mask] is meant to be. */
  lemma {:induction false} PathCostIsLowest(g: seq<seq<int>>, n: nat, v: nat, mask: nat, p: seq<int>)
    requires IsMatrix(g, n) && Entry(n, v, mask) && PathThrough(n, mask, v, p)
    ensures PathCost(g, n, v, mask) <= Cost(g, n, p)
    decreases |p|
  {
    EntryHasTwo(n, v, mask);
    assert |p| >= 2 by { assert p[0] != v; }
    if PopCount(mask) == 2 {
      PairMask(v, mask);
      if |p| > 2 {
        PairMembers(v, p[1]);
        assert false;
      }
      assert p[..1] == [0];
    } else {
      var end := DropLast(n, v, mask, p);
      PathCostIsLowest(g, n, end, mask - Pow2(v), p[..|p| - 1]);
      MinDistIsMin(g, n, v, mask, n);
      assert Via(g, n, v, mask, end) == PathCost(g, n, end, mask - Pow2(v)) + g[end][v];
    }
  }

  /** The cost the solver returns is at most the cost of every tour (n >= 2). */
  lemma TourMinIsLowest(g: seq<seq<int>>, n: nat, init: int, t: seq<int>)
    requires IsMatrix(g, n) && n >= 2 && IsTour(n, t)
    ensures TourMin(g, n, n, init) <= Cost(g, n, t)
  {
    FullMask(n);
    var front := t[..n];
    var last := t[n - 1];
    assert last != 0 by { assert front[n - 1] != front[0]; }
    assert PathThrough(n, Full(n), last, front) by {
      forall j: nat | j < n ensures Bit(j, Full(n)) <==> j in front { }
    }
    PathCostIsLowest(g, n, last, Full(n), front);
    TourMinIsMin(g, n, n, init);
    assert t[..|t| - 1] == front;
    assert Cost(g, n, t) == Cost(g, n, front) + g[last][0];
    assert Close(g, n, last) == PathCost(g, n, last, Full(n)) + g[last][0];
  }

  // ---- the reconstruction walk ----

  /** A vertex the reconstruction may pick from `state`: not the root, and in the state. */
  ghost predicate Cand(n: nat, state: nat, j: int)
  {
    0 < j < n && Bit(j, state)
  }

  /** `memory[j][state] + graph[j][lastIndex]`, the value the argmin compares. */
  ghost function Val(g: seq<seq<int>>, n: nat, state: nat, last: int, j: int): int
    requires IsMatrix(g, n) && 0 <= last < n && 0 <= j < n && Bit(j, state)
  {
    PathCost(g, n, j, state) + g[j][last]
  }

  /** `index` after the `j` loop has looked at 0 .. k-1: -1 until a candidate is
      seen, then the first candidate of smallest value (strict `<`). */
  ghost function Pick(g: seq<seq<int>>, n: nat, state: nat, last: int, k: nat): (r: int)
    requires IsMatrix(g, n) && 0 <= last < n && k <= n
    ensures r == -1 || (0 < r < k && Bit(r, state))
  {
    if k == 0 then -1
    else
      var p := Pick(g, n, state, last, k - 1);
      var j := k - 1;
      if j == 0 || !Bit(j, state) then p
      else
        var q := if p == -1 then j else p;
        if Val(g, n, state, last, j) < Val(g, n, state, last, q) then j else q
  }

  /** The argmin finds a candidate exactly when there is one, and it is the
      first candidate of least value. */
  lemma {:induction false} PickIsFirstMin(g: seq<seq<int>>, n: nat, state: nat, last: int, k: nat)
    requires IsMatrix(g, n) && 0 <= last < n && k <= n
    ensures Pick(g, n, state, last, k) == -1 <==> forall j :: 0 <= j < k ==> !Cand(n, state, j)
    ensures Pick(g, n, state, last, k) != -1 ==>
      forall j :: 0 <= j < k && Cand(n, state, j) ==>
        Val(g, n, state, last, Pick(g, n, state, last, k)) <= Val(g, n, state, last, j)
    ensures Pick(g, n, state, last, k) != -1 ==>
      forall j :: 0 <= j < Pick(g, n, state, last, k) && Cand(n, state, j) ==>
        Val(g, n, state, last, Pick(g, n, state, last, k)) < Val(g, n, state, last, j)
  {
    if k > 0 {
      PickIsFirstMin(g, n, state, last, k - 1);
      var p := Pick(g, n, state, last, k - 1);
      var r := Pick(g, n, state, last, k);
      if Cand(n, state, k - 1) {
        assert r != -1;
        if p != -1 {
          assert Val(g, n, state, last, r) <= Val(g, n, state, last, p);
          assert r == p || r == k - 1;
        }
      } else {
        assert r == p;
      }
    }
  }

  /** The state the reconstruction is in before a step: the root is still in
      `state`, and `steps` more vertices remain to be picked. */
  ghost predicate WalkFrom(n: nat, state: nat, last: int, steps: nat)
  {
    state < Pow2(n) && Bit(0, state) && PopCount(state) == steps + 1 && 0 <= last < n
  }

  lemma PickFound(g: seq<seq<int>>, n: nat, state: nat, last: int, steps: nat)
    requires IsMatrix(g, n) && WalkFrom(n, state, last, steps) && steps >= 1
    ensures Cand(n, state, Pick(g, n, state, last, n))
  {
    var j := OtherBit(0, state);
    if j >= n { BitsBelowPow2(state, n, j); }
    assert Cand(n, state, j);
    PickIsFirstMin(g, n, state, last, n);
  }

  /** The vertices the reconstruction loop appends, latest-visited first. The
      empty tail for a missing pick never arises from a state the loop reaches
      (WalkStep). */
  ghost function Walk(g: seq<seq<int>>, n: nat, state: nat, last: int, steps: nat): seq<int>
    requires IsMatrix(g, n) && 0 <= last < n
    decreases steps
  {
    if steps == 0 then []
    else
      var j := Pick(g, n, state, last, n);
      if j == -1 || state < Pow2(j) then []
      else [j] + Walk(g, n, state - Pow2(j), j, steps - 1)
  }

  /** One step of the walk: the pick, then the walk from the state without it. */
  lemma WalkStep(g: seq<seq<int>>, n: nat, state: nat, last: int, steps: nat)
    requires IsMatrix(g, n) && WalkFrom(n, state, last, steps) && steps >= 1
    ensures Cand(n, state, Pick(g, n, state, last, n))
    ensures state >= Pow2(Pick(g, n, state, last, n))
    ensures WalkFrom(n, state - Pow2(Pick(g, n, state, last, n)), Pick(g, n, state, last, n), steps - 1)
    ensures Walk(g, n, state, last, steps)
      == [Pick(g, n, state, last, n)] + Walk(g, n, state - Pow2(Pick(g, n, state, last, n)), Pick(g, n, state, last, n), steps - 1)
  {
    PickFound(g, n, state, last, steps);
    ClearBit(Pick(g, n, state, last, n), state);
  }

  /** The walk names every non-root vertex of the state exactly once, and nothing else. */
  lemma {:induction false} WalkVisits(g: seq<seq<int>>, n: nat, state: nat, last: int, steps: nat)
    requires IsMatrix(g, n) && WalkFrom(n, state, last, steps)
    ensures |Walk(g, n, state, last, steps)| == steps
    ensures Distinct(Walk(g, n, state, last, steps))
    ensures forall k :: 0 <= k < steps ==> Cand(n, state, Walk(g, n, state, last, steps)[k])
    ensures forall j :: Cand(n, state, j) ==> j in Walk(g, n, state, last, steps)
    ensures InRange(Walk(g, n, state, last, steps), n)
    decreases steps
  {
    var w := Walk(g, n, state, last, steps);
    if steps == 0 {
      forall j | Cand(n, state, j) ensures false {
        ClearBit(j, state);
        ClearBit(0, state - Pow2(j));
      }
    } else {
      PickFound(g, n, state, last, steps);
      var p := Pick(g, n, state, last, n);
      ClearBit(p, state);
      var rest := state - Pow2(p);
      var w' := Walk(g, n, rest, p, steps - 1);
      assert w == [p] + w';
      WalkVisits(g, n, rest, p, steps - 1);
      forall j | Cand(n, state, j) ensures j in w {
        if j != p { assert Cand(n, rest, j); assert j in w'; }
      }
      forall k | 0 <= k < steps ensures Cand(n, state, w[k]) {
        if k > 0 { assert w[k] == w'[k - 1]; assert Cand(n, rest, w'[k - 1]); }
      }
      forall k, l | 0 <= k < l < steps ensures w[k] != w[l] {
        assert w[l] == w'[l - 1] && Cand(n, rest, w'[l - 1]);
        if k > 0 { assert w[k] == w'[k - 1]; }
      }
    }
  }

  /** One step back: the next pick from `state` without j, arriving at j,
      has exactly the value memory[j][state] holds, when that is below INF. */
  lemma NextPickValue(g: seq<seq<int>>, n: nat, state: nat, j: nat)
    requires IsMatrix(g, n) && Cand(n, state, j) && PopCount(state) > 2 && state < Pow2(n) && Bit(0, state)
    requires PathCost(g, n, j, state) < INF
    ensures (ClearBit(j, state); Cand(n, state - Pow2(j), Pick(g, n, state - Pow2(j), j, n)))
    ensures (ClearBit(j, state);
      Val(g, n, state - Pow2(j), j, Pick(g, n, state - Pow2(j), j, n)) == PathCost(g, n, j, state))
  {
    ClearBit(j, state);
    var rest := state - Pow2(j);
    assert PathCost(g, n, j, state) == MinDist(g, n, j, state, n);
    MinDistIsMin(g, n, j, state, n);
    var e: nat :| e < n && IsEnd(n, j, state, e) && MinDist(g, n, j, state, n) == Via(g, n, j, state, e);
    assert Cand(n, rest, e);
    PickIsFirstMin(g, n, rest, j, n);
    var j' := Pick(g, n, rest, j, n);
    assert Val(g, n, rest, j, e) == Via(g, n, j, state, e);
    assert IsEnd(n, j, state, j');
    assert Val(g, n, rest, j, j') == Via(g, n, j, state, j');
  }

  /** The state the walk is in after leaving j out of `state`. */
  lemma LeaveOut(n: nat, state: nat, j: nat, k: nat)
    requires Cand(n, state, j) && state < Pow2(n) && Bit(0, state) && PopCount(state) == k + 2
    ensures state >= Pow2(j) && WalkFrom(n, state - Pow2(j), j, k)
  {
    ClearBit(j, state);
  }

  /** The pick made from `state` without j: a candidate whose path value is
      below INF, and where leaving it out too puts the state. */
  lemma ArrivePick(g: seq<seq<int>>, n: nat, state: nat, j: nat, k: nat)
    requires IsMatrix(g, n) && NonNegative(g, n)
    requires Cand(n, state, j) && state < Pow2(n) && Bit(0, state) && PopCount(state) == k + 2 && k >= 1
    requires PathCost(g, n, j, state) < INF
    ensures state >= Pow2(j)
    ensures Cand(n, state - Pow2(j), Pick(g, n, state - Pow2(j), j, n))
    ensures state - Pow2(j) < Pow2(n) && Bit(0, state - Pow2(j)) && PopCount(state - Pow2(j)) == k + 1
    ensures PathCost(g, n, Pick(g, n, state - Pow2(j), j, n), state - Pow2(j)) < INF
    ensures PathCost(g, n, Pick(g, n, state - Pow2(j), j, n), state - Pow2(j))
      + g[Pick(g, n, state - Pow2(j), j, n)][j] == PathCost(g, n, j, state)
  {
    LeaveOut(n, state, j, k);
    NextPickValue(g, n, state, j);
  }

  /** The path a walk spells out when it is read from the root and closed at
      `v`, built edge by edge: the walk lists the latest vertex first. */
  ghost function Route(w: seq<int>, v: int): (r: seq<int>)
    ensures |r| == |w| + 2 && r[0] == 0 && r[|r| - 1] == v
    decreases |w|
  {
    if w == [] then [0, v] else Route(w[1..], w[0]) + [v]
  }

  /** Built edge by edge, the route is the root, the walk reversed, then `v`. */
  lemma {:induction false} RouteReverse(w: seq<int>, v: int)
    ensures Route(w, v) == [0] + Reverse(w) + [v]
    decreases |w|
  {
    if w != [] {
      RouteReverse(w[1..], w[0]);
    }
  }

  /** Under non-negative costs, the walk that starts by leaving j out of `state`,
      read from the root and closed at j, costs exactly memory[j][state]. */
  lemma {:induction false} WalkArrives(g: seq<seq<int>>, n: nat, state: nat, j: nat, k: nat)
    requires IsMatrix(g, n) && NonNegative(g, n)
    requires Cand(n, state, j) && state < Pow2(n) && Bit(0, state) && PopCount(state) == k + 2
    requires PathCost(g, n, j, state) < INF
    ensures state >= Pow2(j) && WalkFrom(n, state - Pow2(j), j, k)
    ensures InRange(Route(Walk(g, n, state - Pow2(j), j, k), j), n)
    ensures Cost(g, n, Route(Walk(g, n, state - Pow2(j), j, k), j)) == PathCost(g, n, j, state)
    decreases k
  {
    LeaveOut(n, state, j, k);
    var rest := state - Pow2(j);
    var w := Walk(g, n, rest, j, k);
    if k == 0 {
      assert w == [];
      assert Route(w, j) == [0, j];
      assert Cost(g, n, [0, j]) == g[0][j];
    } else {
      ArrivePick(g, n, state, j, k);
      var j' := Pick(g, n, rest, j, n);
      WalkArrives(g, n, rest, j', k - 1);
      WalkStep(g, n, rest, j, k);
      var w' := Walk(g, n, rest - Pow2(j'), j', k - 1);
      assert w == [j'] + w';
      assert w[0] == j' && w[1..] == w';
      assert Route(w, j) == Route(w', j') + [j];
      CostSnoc(g, n, Route(w', j'), j);
    }
  }

  /** Under non-negative costs, the path the walk spells out, read from the
      root, costs exactly the value the first pick was chosen for. */
  lemma WalkCost(g: seq<seq<int>>, n: nat, state: nat, last: int, steps: nat)
    requires IsMatrix(g, n) && NonNegative(g, n)
    requires WalkFrom(n, state, last, steps) && steps >= 1
    requires Cand(n, state, Pick(g, n, state, last, n)) && Val(g, n, state, last, Pick(g, n, state, last, n)) < INF
    ensures InRange([0] + Reverse(Walk(g, n, state, last, steps)) + [last], n)
    ensures Cost(g, n, [0] + Reverse(Walk(g, n, state, last, steps)) + [last])
      == Val(g, n, state, last, Pick(g, n, state, last, n))
  {
    var j := Pick(g, n, state, last, n);
    WalkStep(g, n, state, last, steps);
    assert g[j][last] >= 0;
    WalkArrives(g, n, state, j, steps - 1);
    var w := Walk(g, n, state, last, steps);
    var w' := Walk(g, n, state - Pow2(j), j, steps - 1);
    assert w[1..] == w';
    CostSnoc(g, n, Route(w', j), last);
    RouteReverse(w, last);
  }

  /** Every matrix entry is a non-negative cost. */
  ghost predicate NonNegative(g: seq<seq<int>>, n: nat)
    requires IsMatrix(g, n)
  {
    forall i, j :: 0 <= i < n && 0 <= j < n ==> g[i][j] >= 0
  }

  /** The list DynamicProgrammingTSP builds (root, the walk, root), reversed. */
  lemma ReverseWalk(w: seq<int>)
    ensures Reverse([0] + w + [0]) == [0] + Reverse(w) + [0]
  {
    var l, r := Reverse([0] + w + [0]), [0] + Reverse(w) + [0];
    assert |l| == |r|;
    forall k | 0 <= k < |l| ensures l[k] == r[k] {
      if 0 < k < |l| - 1 { assert r[k] == Reverse(w)[k - 1]; }
    }
  }

  /** An order of the non-root vertices, between two roots, is a tour. */
  lemma ClosedOrderIsTour(n: nat, w: seq<int>)
    requires n >= 1 && |w| == n - 1 && Distinct(w)
    requires forall k :: 0 <= k < |w| ==> 0 < w[k] < n
    requires forall v :: 0 < v < n ==> v in w
    ensures IsTour(n, [0] + Reverse(w) + [0])
  {
    var r := Reverse(w);
    var t := [0] + r + [0];
    var front := [0] + r;
    assert t[..n] == front;
    assert |t| == n + 1 && t[0] == 0 && t[n] == 0;
    assert forall k :: 0 < k < n ==> front[k] == w[n - 1 - k];
    assert InRange(t, n) by {
      forall k | 0 <= k < |t| ensures 0 <= t[k] < n {
        if 0 < k < n { assert t[k] == front[k]; }
      }
    }
    assert Distinct(front) by {
      forall k, l | 0 <= k < l < n ensures front[k] != front[l] {
        assert front[l] == w[n - 1 - l];
        if k > 0 { assert front[k] == w[n - 1 - k]; }
      }
    }
    forall v | 0 <= v < n ensures v in front {
      if v == 0 {
        assert front[0] == 0;
      } else {
        assert v in w;
        var k :| 0 <= k < |w| && w[k] == v;
        assert front[n - 1 - k] == v;
      }
    }
  }

  /** The vertices the reconstruction appends after the root, for the full state. */
  ghost function Reconstructed(g: seq<seq<int>>, n: nat): seq<int>
    requires IsMatrix(g, n)
  {
    if n == 0 then [] else Walk(g, n, Full(n), 0, n - 1)
  }

  /** The reconstructed list is a tour. */
  lemma ReconstructedIsTour(g: seq<seq<int>>, n: nat)
    requires IsMatrix(g, n) && n >= 1
    ensures IsTour(n, [0] + Reverse(Reconstructed(g, n)) + [0])
  {
    FullMask(n);
    WalkVisits(g, n, Full(n), 0, n - 1);
    var w := Reconstructed(g, n);
    forall v | 0 < v < n ensures v in w {
      assert Cand(n, Full(n), v);
    }
    ClosedOrderIsTour(n, w);
  }

  /** The argmin over the full set, seen from the root, reaches the tour minimum. */
  lemma PickIsTourMin(g: seq<seq<int>>, n: nat)
    requires IsMatrix(g, n) && n >= 2
    requires TourMin(g, n, n, INF) < INF
    ensures Cand(n, Full(n), Pick(g, n, Full(n), 0, n))
    ensures Val(g, n, Full(n), 0, Pick(g, n, Full(n), 0, n)) == TourMin(g, n, n, INF)
  {
    FullMask(n);
    var S := Full(n);
    TourMinIsMin(g, n, n, INF);
    PickFound(g, n, S, 0, n - 1);
    PickIsFirstMin(g, n, S, 0, n);
    var p := Pick(g, n, S, 0, n);
    var e: nat :| 0 < e < n && TourMin(g, n, n, INF) == Close(g, n, e);
    assert Cand(n, S, e);
    assert Close(g, n, e) == Val(g, n, S, 0, e);
    assert Close(g, n, p) == Val(g, n, S, 0, p);
  }

  /** Under non-negative costs, a tour cost below INF is the cost of the reconstructed tour. */
  lemma ReconstructedCost(g: seq<seq<int>>, n: nat)
    requires IsMatrix(g, n) && n >= 2 && NonNegative(g, n)
    requires TourMin(g, n, n, INF) < INF
    ensures InRange([0] + Reverse(Reconstructed(g, n)) + [0], n)
    ensures Cost(g, n, [0] + Reverse(Reconstructed(g, n)) + [0]) == TourMin(g, n, n, INF)
  {
    FullMask(n);
    PickIsTourMin(g, n);
    WalkCost(g, n, Full(n), 0, n - 1);
    assert Reconstructed(g, n) == Walk(g, n, Full(n), 0, n - 1);
  }

  /** What a first call of the solver returns: for n >= 2 a cost no tour beats,
      which (under non-negative costs, below INF) is the cost of the tour it
      reconstructs; for n <= 1, INF. */
  lemma SolverIsOptimal(g: seq<seq<int>>, n: nat)
    requires IsMatrix(g, n)
    ensures n >= 2 ==> forall t :: IsTour(n, t) ==> TourMin(g, n, n, INF) <= Cost(g, n, t)
    ensures n >= 2 && NonNegative(g, n) && TourMin(g, n, n, INF) < INF ==>
      InRange([0] + Reverse(Reconstructed(g, n)) + [0], n) &&
      Cost(g, n, [0] + Reverse(Reconstructed(g, n)) + [0]) == TourMin(g, n, n, INF)
    ensures n <= 1 ==> TourMin(g, n, n, INF) == INF
  {
    if n >= 2 {
      forall t | IsTour(n, t) ensures TourMin(g, n, n, INF) <= Cost(g, n, t) {
        TourMinIsLowest(g, n, INF, t);
      }
      if NonNegative(g, n) && TourMin(g, n, n, INF) < INF {
        ReconstructedCost(g, n);
      }
    }
  }
}
