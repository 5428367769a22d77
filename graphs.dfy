// Shared vocabulary of the four solvers: the cost matrix, vertex sequences,
// their cost, what a tour is, and visited-vertex arrays.

module Wrappers {
  datatype Option<+T> = None | Some(value: T)
}

module Graphs {

  /** Java's Integer.MAX_VALUE, which every solver uses as "no cost found yet". */
  const INF: int := 2147483647

  /** `g` is an n-by-n matrix, as `int[][] graph` is after it has been read in. */
  ghost predicate IsMatrix(g: seq<seq<int>>, n: nat)
  {
    |g| == n && forall i :: 0 <= i < n ==> |g[i]| == n
  }

  /** Every element of `p` names a vertex of an n-vertex graph. */
  ghost predicate InRange(p: seq<int>, n: nat)
  {
    forall k :: 0 <= k < |p| ==> 0 <= p[k] < n
  }

  ghost predicate Distinct<T>(p: seq<T>)
  {
    forall k, l :: 0 <= k < l < |p| ==> p[k] != p[l]
  }

  /** The summed cost of the edges p[0]->p[1], ..., p[|p|-2]->p[|p|-1]. */
  ghost function Cost(g: seq<seq<int>>, n: nat, p: seq<int>): int
    requires IsMatrix(g, n) && InRange(p, n)
  {
    if |p| < 2 then 0
    else Cost(g, n, p[..|p| - 1]) + g[p[|p| - 2]][p[|p| - 1]]
  }

  /** Every edge along `p` is a real edge (the matrix uses values <= 0 for "no edge"). */
  ghost predicate PositiveEdges(g: seq<seq<int>>, n: nat, p: seq<int>)
    requires IsMatrix(g, n) && InRange(p, n)
  {
    forall k :: 0 <= k < |p| - 1 ==> g[p[k]][p[k + 1]] > 0
  }

  /** A tour from root 0: n+1 entries, 0 at both ends, every vertex exactly once in between. */
  ghost predicate IsTour(n: nat, t: seq<int>)
  {
    && n >= 1
    && |t| == n + 1
    && InRange(t, n)
    && t[0] == 0 && t[n] == 0
    && Distinct(t[..n])
    && forall v :: 0 <= v < n ==> v in t[..n]
  }

  function Reverse(s: seq<int>): (r: seq<int>)
    ensures |r| == |s|
    ensures forall k :: 0 <= k < |s| ==> r[k] == s[|s| - 1 - k]
  {
    if s == [] then [] else Reverse(s[1..]) + [s[0]]
  }

  /** Cost of a prefix grows with its length when every edge on the way is real. */
  lemma {:induction false} PrefixCostBelow(g: seq<seq<int>>, n: nat, p: seq<int>, j: nat)
    requires IsMatrix(g, n) && InRange(p, n) && PositiveEdges(g, n, p)
    requires j <= |p|
    ensures Cost(g, n, p[..j]) <= Cost(g, n, p)
    decreases |p| - j
  {
    if j < |p| {
      PrefixCostBelow(g, n, p, j + 1);
      assert p[..j + 1][..j] == p[..j];
      if j >= 1 {
        assert g[p[j - 1]][p[j]] > 0;
      }
    } else {
      assert p[..j] == p;
    }
  }

  /** Cost of a sequence extended by one vertex. */
  lemma CostSnoc(g: seq<seq<int>>, n: nat, p: seq<int>, v: int)
    requires IsMatrix(g, n) && InRange(p, n) && 0 <= v < n && |p| >= 1
    ensures InRange(p + [v], n)
    ensures Cost(g, n, p + [v]) == Cost(g, n, p) + g[p[|p| - 1]][v]
  {
    assert (p + [v])[..|p|] == p;
  }

  /** Cost of a sequence with one more vertex in front. */
  lemma {:induction false} CostCons(g: seq<seq<int>>, n: nat, a: int, s: seq<int>)
    requires IsMatrix(g, n) && InRange(s, n) && 0 <= a < n && |s| >= 1
    ensures InRange([a] + s, n)
    ensures Cost(g, n, [a] + s) == g[a][s[0]] + Cost(g, n, s)
    decreases |s|
  {
    var t := [a] + s;
    if |s| > 1 {
      var front := s[..|s| - 1];
      CostCons(g, n, a, front);
      assert t[..|t| - 1] == [a] + front;
    } else {
      assert t[..|t| - 1] == [a];
    }
  }

  lemma ReverseSnoc(s: seq<int>, x: int)
    ensures Reverse(s + [x]) == [x] + Reverse(s)
  {
    var l, r := Reverse(s + [x]), [x] + Reverse(s);
    assert |l| == |r|;
    forall k | 0 <= k < |l| ensures l[k] == r[k] {
      if k > 0 { assert r[k] == Reverse(s)[k - 1]; }
    }
  }

  /** Number of true entries of a visited-vertices array. */
  function Count(s: seq<bool>): (c: nat)
    ensures c <= |s|
  {
    if s == [] then 0 else Count(s[..|s| - 1]) + (if s[|s| - 1] then 1 else 0)
  }

  /** Marking an unvisited vertex adds exactly one to the count. */
  lemma {:induction false} CountMark(s: seq<bool>, i: nat)
    requires i < |s| && !s[i]
    ensures Count(s[i := true]) == Count(s) + 1
  {
    var last := |s| - 1;
    if i < last {
      CountMark(s[..last], i);
      assert s[i := true][..last] == s[..last][i := true];
    } else {
      assert s[i := true][..last] == s[..last];
    }
  }

  /** A count equal to the length means every entry is true. */
  lemma {:induction false} CountFull(s: seq<bool>, i: nat)
    requires Count(s) == |s| && i < |s|
    ensures s[i]
  {
    var last := |s| - 1;
    if i < last {
      CountFull(s[..last], i);
    }
  }

  /** An unmarked entry keeps the count below the length. */
  lemma {:induction false} CountBelow(s: seq<bool>, i: nat)
    requires i < |s| && !s[i]
    ensures Count(s) < |s|
  {
    var last := |s| - 1;
    if i < last {
      CountBelow(s[..last], i);
    }
  }

  /** A tour is its first n entries followed by the root. */
  lemma TourSplit(n: nat, t: seq<int>)
    requires IsTour(n, t)
    ensures t == t[..n] + [0]
  {
    assert t == t[..n] + [t[n]];
  }
}
