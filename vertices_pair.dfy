// VerticesPair: for one vertex, the slots of the edges the branch-and-bound
// lower bound counts, as two parallel arrays of vertex ids and costs.

module VerticesPairs {
  import opened Graphs

  /** The contents of a pair: the id and the cost held in each slot. */
  datatype PairValue = PairValue(ids: seq<int>, costs: seq<int>)

  /** A slot index with the cost the `replaceVertex` scan remembers for it. */
  datatype Slot = Slot(index: nat, cost: int)

  /** A pair whose id slots all have a cost, as `replaceVertex` demands. */
  ghost predicate Scannable(v: PairValue)
  {
    1 <= |v.ids| <= |v.costs|
  }

  /** Slot i may be overwritten by `replaceVertex(_, _, prev)`: its id is not
      `prev` and its cost is at least the scan's starting value. */
  ghost predicate Replaceable(v: PairValue, prev: int, i: int)
    requires |v.ids| <= |v.costs|
  {
    0 <= i < |v.ids| && prev != v.ids[i] && -INF <= v.costs[i]
  }

  /** One turn of the scan of `replaceVertex`: slot j is taken if its id is
      not `prev` and it costs at least as much as the slot remembered so far. */
  function ScanStep(v: PairValue, prev: int, s: Slot, j: nat): Slot
    requires j < |v.ids| <= |v.costs|
  {
    if prev != v.ids[j] && s.cost <= v.costs[j] then Slot(j, v.costs[j]) else s
  }

  /** The scan of `replaceVertex` over slots 0..k-1, from slot 0 with cost -MAX_VALUE. */
  function WorstSlot(v: PairValue, prev: int, k: nat): (r: Slot)
    requires k <= |v.ids| <= |v.costs|
    ensures r.index == 0 || r.index < k
  {
    if k == 0 then Slot(0, -INF) else ScanStep(v, prev, WorstSlot(v, prev, k - 1), k - 1)
  }

  /** s is the costliest replaceable slot below k, the last one on ties. */
  ghost predicate IsWorst(v: PairValue, prev: int, k: nat, s: Slot)
    requires k <= |v.ids| <= |v.costs|
  {
    && s.index < k && Replaceable(v, prev, s.index) && s.cost == v.costs[s.index]
    && (forall i :: 0 <= i < k && Replaceable(v, prev, i) ==> v.costs[i] <= s.cost)
    && (forall i :: s.index < i < k && Replaceable(v, prev, i) ==> v.costs[i] < s.cost)
  }

  ghost predicate NoneReplaceable(v: PairValue, prev: int, k: nat)
    requires k <= |v.ids| <= |v.costs|
  {
    forall i :: 0 <= i < k ==> !Replaceable(v, prev, i)
  }

  /** A scan step keeps the costliest slot, moving to slot j when it costs at least as much. */
  lemma StepKeepsWorst(v: PairValue, prev: int, s: Slot, j: nat)
    requires j < |v.ids| <= |v.costs| && IsWorst(v, prev, j, s)
    ensures IsWorst(v, prev, j + 1, ScanStep(v, prev, s, j))
  {
  }

  /** A scan step from the start: the first replaceable slot becomes the costliest. */
  lemma StepFromStart(v: PairValue, prev: int, j: nat)
    requires j < |v.ids| <= |v.costs| && NoneReplaceable(v, prev, j)
    ensures if Replaceable(v, prev, j) then IsWorst(v, prev, j + 1, ScanStep(v, prev, Slot(0, -INF), j))
      else NoneReplaceable(v, prev, j + 1) && ScanStep(v, prev, Slot(0, -INF), j) == Slot(0, -INF)
  {
  }

  /** The scan picks the costliest slot whose id is not `prev`, the later one on
      ties, and stays at slot 0 when no slot is replaceable. */
  lemma {:induction false} WorstSlotIsMax(v: PairValue, prev: int, k: nat)
    requires k <= |v.ids| <= |v.costs|
    ensures NoneReplaceable(v, prev, k) ==> WorstSlot(v, prev, k) == Slot(0, -INF)
    ensures !NoneReplaceable(v, prev, k) ==> IsWorst(v, prev, k, WorstSlot(v, prev, k))
  {
    if k > 0 {
      WorstSlotIsMax(v, prev, k - 1);
      if NoneReplaceable(v, prev, k - 1) {
        StepFromStart(v, prev, k - 1);
      } else {
        StepKeepsWorst(v, prev, WorstSlot(v, prev, k - 1), k - 1);
      }
    }
  }

  /** The pair after `replaceVertex(id, cost, prev)`: unchanged when id is
      already held, otherwise the scanned slot now holds (id, cost). */
  function Replaced(v: PairValue, id: int, cost: int, prev: int): (r: PairValue)
    requires Scannable(v)
    ensures |r.ids| == |v.ids| && |r.costs| == |v.costs|
    ensures id in r.ids
  {
    if id in v.ids then v
    else
      var s := WorstSlot(v, prev, |v.ids|).index;
      assert v.ids[s := id][s] == id;
      PairValue(v.ids[s := id], v.costs[s := cost])
  }

  /** An id already held changes nothing. A new id overwrites exactly one
      slot, the costliest one whose id is not `prev` (the later one on ties),
      or slot 0 if every id is `prev`. */
  lemma ReplacedSlot(v: PairValue, id: int, cost: int, prev: int) returns (s: nat)
    requires Scannable(v)
    ensures id in v.ids ==> Replaced(v, id, cost, prev) == v
    ensures id !in v.ids ==>
      && s < |v.ids|
      && Replaced(v, id, cost, prev) == PairValue(v.ids[s := id], v.costs[s := cost])
      && (NoneReplaceable(v, prev, |v.ids|) ==> s == 0)
      && (!NoneReplaceable(v, prev, |v.ids|) ==> IsWorst(v, prev, |v.ids|, Slot(s, v.costs[s])))
  {
    WorstSlotIsMax(v, prev, |v.ids|);
    s := WorstSlot(v, prev, |v.ids|).index;
  }

  class VerticesPair {
    var verticesIds: array<int>
    var costsToReachVertices: array<int>

    ghost function Value(): PairValue
      reads this, verticesIds, costsToReachVertices
    {
      PairValue(verticesIds[..], costsToReachVertices[..])
    }

    /** Every setter installs a fresh array, so the two never alias. */
    ghost predicate Valid()
      reads this
    {
      verticesIds != costsToReachVertices
    }

    /** `new VerticesPair()`. Java leaves both arrays null until the setters
        run; empty arrays stand for them here, and no caller reads them. */
    constructor ()
      ensures Valid() && fresh(verticesIds) && fresh(costsToReachVertices)
      ensures Value() == PairValue([], [])
    {
      verticesIds := new int[0];
      costsToReachVertices := new int[0];
    }

    /** `containsVertex`: some slot holds vertexId. */
    method ContainsVertex(vertexId: int) returns (r: bool)
      ensures r <==> vertexId in verticesIds[..]
    {
      var i := 0;
      while i < verticesIds.Length
        invariant 0 <= i <= verticesIds.Length
        invariant vertexId !in verticesIds[..i]
      {
        if vertexId == verticesIds[i] {
          return true;
        }
        i := i + 1;
      }
      assert verticesIds[..i] == verticesIds[..];
      return false;
    }

    /** `replaceVertex`: adds vertexId in place of the current farthest slot. */
    method ReplaceVertex(vertexId: int, costToReachVertex: int, prev: int)
      requires Valid() && Scannable(Value())
      modifies verticesIds, costsToReachVertices
      ensures Value() == Replaced(old(Value()), vertexId, costToReachVertex, prev)
    {
      var contained := ContainsVertex(vertexId);
      if contained {
        return;
      }
      var worstVertexId := 0;
      var costToReachWorstVertex := -INF;
      for i := 0 to verticesIds.Length
        invariant Slot(worstVertexId, costToReachWorstVertex) == WorstSlot(Value(), prev, i)
      {
        if prev != verticesIds[i] && costToReachWorstVertex <= costsToReachVertices[i] {
          worstVertexId := i;
          costToReachWorstVertex := costsToReachVertices[i];
        }
      }
      verticesIds[worstVertexId] := vertexId;
      costsToReachVertices[worstVertexId] := costToReachVertex;
    }

    /** `setVerticesIds`: stores a fresh copy of the argument. */
    method SetVerticesIds(ids: array<int>)
      requires Valid()
      modifies this
      ensures Valid() && fresh(verticesIds)
      ensures verticesIds[..] == ids[..] && costsToReachVertices == old(costsToReachVertices)
    {
      var copy := CopyOf(ids);
      verticesIds := copy;
    }

    /** `setCostsToReachVertices`: stores a fresh copy of the argument. */
    method SetCostsToReachVertices(costs: array<int>)
      requires Valid()
      modifies this
      ensures Valid() && fresh(costsToReachVertices)
      ensures costsToReachVertices[..] == costs[..] && verticesIds == old(verticesIds)
    {
      var copy := CopyOf(costs);
      costsToReachVertices := copy;
    }
  }

  /** `System.arraycopy` into a new array of the same length. */
  method CopyOf(a: array<int>) returns (b: array<int>)
    ensures fresh(b) && b[..] == a[..]
  {
    b := new int[a.Length];
    for i := 0 to a.Length
      invariant b[..i] == a[..i]
    {
      b[i] := a[i];
    }
  }
}
