// The table of pairs a PathNode carries: one VerticesPair per vertex, the
// values they hold, the lower bound summed over them, and the patch a child
// applies.

module PairTables {
  import opened VerticesPairs

  /** The pair object and both its arrays lie in s. */
  ghost predicate Owns(s: set<object>, p: VerticesPair)
    reads s
  {
    p in s && p.verticesIds in s && p.costsToReachVertices in s
  }

  /** The pair objects, all within s, hold the values t, slot by slot. */
  ghost predicate HeldIn(ps: seq<VerticesPair>, t: seq<PairValue>, s: set<object>)
    reads s
  {
    |ps| == |t| && forall k :: 0 <= k < |ps| ==> Owns(s, ps[k]) && ps[k].Value() == t[k]
  }

  /** The arrays of a node: the marks array holds `visited`, the pairs, all
      within s, hold the table, one per mark, and lb2 is the table's doubled
      lower bound. */
  ghost predicate NodeHolds(marks: array<bool>, visited: seq<bool>, ps: seq<VerticesPair>,
                            t: seq<PairValue>, s: set<object>, lb2: int)
    reads marks, s
  {
    && marks[..] == visited
    && HeldIn(ps, t, s)
    && |visited| == |t|
    && Summable(t)
    && lb2 == LowerBound2(t)
  }

  /** No two pairs share an array, so patching one pair leaves the others alone. */
  ghost predicate Separate(ps: seq<VerticesPair>)
    reads ps
  {
    && (forall k :: 0 <= k < |ps| ==> ps[k].Valid())
    && (forall k, l :: 0 <= k < l < |ps| ==> Apart(ps[k], ps[l]))
  }

  ghost predicate Apart(p: VerticesPair, q: VerticesPair)
    reads p, q
  {
    && p.verticesIds != q.verticesIds && p.verticesIds != q.costsToReachVertices
    && p.costsToReachVertices != q.verticesIds && p.costsToReachVertices != q.costsToReachVertices
  }

  /** Every pair has the two cost slots `calculateLowerBound` adds up. */
  ghost predicate Summable(t: seq<PairValue>)
  {
    forall k :: 0 <= k < |t| ==> |t[k].costs| >= 2
  }

  function PairSum(v: PairValue): int
    requires |v.costs| >= 2
  {
    v.costs[0] + v.costs[1]
  }

  /** Twice the lower bound of `calculateLowerBound`: the sum over all pairs of
      their first two costs. */
  function LowerBound2(t: seq<PairValue>): int
    requires Summable(t)
  {
    if t == [] then 0 else LowerBound2(t[..|t| - 1]) + PairSum(t[|t| - 1])
  }

  /** Replacing one pair changes the bound by the difference of the two pair sums. */
  lemma {:induction false} LowerBoundUpdate(t: seq<PairValue>, k: nat, v: PairValue)
    requires Summable(t) && k < |t| && |v.costs| >= 2
    ensures Summable(t[k := v])
    ensures LowerBound2(t[k := v]) == LowerBound2(t) - PairSum(t[k]) + PairSum(v)
  {
    var u := t[k := v];
    var last := |t| - 1;
    if k < last {
      LowerBoundUpdate(t[..last], k, v);
      assert u[..last] == t[..last][k := v];
    } else {
      assert u[..last] == t[..last];
    }
  }

  /** The table of a child: the parent's pair for a gets b (scanned past `prevA`),
      then the pair for b gets a (scanned past a itself). */
  function Patched(t: seq<PairValue>, a: nat, b: nat, cost: int, prevA: int): (r: seq<PairValue>)
    requires a < |t| && b < |t| && Scannable(t[a]) && Scannable(t[b])
    ensures |r| == |t| && forall k :: 0 <= k < |t| && k != a && k != b ==> r[k] == t[k]
    ensures b in r[a].ids && a in r[b].ids
    ensures forall k :: 0 <= k < |t| ==> |r[k].ids| == |t[k].ids| && |r[k].costs| == |t[k].costs|
  {
    var t1 := t[a := Replaced(t[a], b, cost, prevA)];
    t1[b := Replaced(t1[b], a, cost, a)]
  }

  /** `calculateLowerBound`, doubled: the summing loop over the pairs. */
  method CalculateLowerBound(ps: seq<VerticesPair>, ghost t: seq<PairValue>, ghost s: set<object>)
    returns (sum: int)
    requires HeldIn(ps, t, s) && Summable(t)
    ensures sum == LowerBound2(t)
  {
    sum := 0;
    for k := 0 to |ps|
      invariant sum == LowerBound2(t[..k])
    {
      assert t[..k + 1][..k] == t[..k];
      sum := sum + ps[k].costsToReachVertices[0] + ps[k].costsToReachVertices[1];
    }
    assert t[..|ps|] == t;
  }

  /** The copying loop of the child constructor: a new pair per pair, each
      given fresh copies of both arrays through the setters. */
  method CopyPairs(ps: seq<VerticesPair>, ghost t: seq<PairValue>, ghost s: set<object>)
    returns (copies: seq<VerticesPair>, ghost fp: set<object>)
    requires HeldIn(ps, t, s)
    ensures HeldIn(copies, t, fp) && Separate(copies) && fresh(fp)
  {
    copies, fp := [], {};
    for k := 0 to |ps|
      invariant HeldIn(copies, t[..k], fp) && Separate(copies) && fresh(fp)
    {
      var copy := CopyPair(ps[k]);
      assert forall j :: 0 <= j < |copies| ==> Apart(copies[j], copy);
      HeldSnoc(copies, t[..k], fp, copy);
      SeparateSnoc(copies, copy);
      assert t[..k] + [t[k]] == t[..k + 1];
      copies := copies + [copy];
      fp := fp + {copy, copy.verticesIds, copy.costsToReachVertices};
    }
    assert t[..|ps|] == t;
  }

  lemma HeldSnoc(ps: seq<VerticesPair>, t: seq<PairValue>, s: set<object>, p: VerticesPair)
    requires HeldIn(ps, t, s)
    ensures HeldIn(ps + [p], t + [p.Value()], s + {p, p.verticesIds, p.costsToReachVertices})
  {
    var qs, s' := ps + [p], s + {p, p.verticesIds, p.costsToReachVertices};
    forall k | 0 <= k < |qs| ensures Owns(s', qs[k]) && qs[k].Value() == (t + [p.Value()])[k] {
      if k < |ps| { assert qs[k] == ps[k] && Owns(s, ps[k]); }
    }
  }

  lemma SeparateSnoc(ps: seq<VerticesPair>, p: VerticesPair)
    requires Separate(ps) && p.Valid()
    requires forall k :: 0 <= k < |ps| ==> Apart(ps[k], p)
    ensures Separate(ps + [p])
  {
    var qs := ps + [p];
    forall k, l | 0 <= k < l < |qs| ensures Apart(qs[k], qs[l]) {
      assert qs[k] == ps[k];
      if l < |ps| { assert qs[l] == ps[l]; }
    }
  }

  /** `new VerticesPair()` followed by both setters. */
  method CopyPair(p: VerticesPair) returns (copy: VerticesPair)
    ensures fresh(copy) && fresh(copy.verticesIds) && fresh(copy.costsToReachVertices)
    ensures copy.Valid() && copy.Value() == p.Value()
  {
    copy := new VerticesPair();
    copy.SetVerticesIds(p.verticesIds);
    copy.SetCostsToReachVertices(p.costsToReachVertices);
  }

  /** `replaceVertex` on the k-th of separate pairs: only the k-th value changes. */
  method ReplaceAt(ps: seq<VerticesPair>, ghost t: seq<PairValue>, ghost s: set<object>,
                   k: nat, id: int, cost: int, prev: int)
    requires HeldIn(ps, t, s) && Separate(ps) && k < |ps| && Scannable(t[k])
    modifies ps[k].verticesIds, ps[k].costsToReachVertices
    ensures HeldIn(ps, t[k := Replaced(t[k], id, cost, prev)], s) && Separate(ps)
  {
    ps[k].ReplaceVertex(id, cost, prev);
  }

  /** The two `replaceVertex` calls of the child constructor on separate pairs:
      the pair of a gets b past `prevA`, then the pair of b gets a past a. */
  method PatchPairs(ps: seq<VerticesPair>, ghost t: seq<PairValue>, ghost s: set<object>,
                    a: nat, b: nat, cost: int, prevA: int)
    requires HeldIn(ps, t, s) && Separate(ps) && a < |ps| && b < |ps| && Scannable(t[a]) && Scannable(t[b])
    modifies ps[a].verticesIds, ps[a].costsToReachVertices, ps[b].verticesIds, ps[b].costsToReachVertices
    ensures HeldIn(ps, Patched(t, a, b, cost, prevA), s)
  {
    ghost var t1 := t[a := Replaced(t[a], b, cost, prevA)];
    ReplaceAt(ps, t, s, a, b, cost, prevA);
    ReplaceAt(ps, t1, s, b, a, cost, a);
  }
}
