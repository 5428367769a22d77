// DynamicProgrammingTSP.combinations: every n-bit mask with exactly r bits set,
// generated by a recursive choose-r-of-n search that sets bit i, recurses on
// the positions after i, and clears bit i again.

module Combinations {
  import opened Bits
  import opened Graphs

  /** What `combinations(mask, at, r, n, subsets)` appends to `subsets`. */
  function Choose(mask: nat, at: nat, r: nat, n: nat): seq<nat>
    decreases n - at, 1
  {
    if n - at < r then []
    else if r == 0 then [mask]
    else ChooseFrom(mask, at, r, n)
  }

  /** What the `for (int i = at; i < n; i++)` loop appends, from position i on. */
  function ChooseFrom(mask: nat, i: nat, r: nat, n: nat): seq<nat>
    requires r > 0
    decreases n - i, 0
  {
    if i >= n then []
    else
      var included := Or(mask, Pow2(i));
      Choose(included, i + 1, r - 1, n) + ChooseFrom(AndNot(included, Pow2(i)), i + 1, r, n)
  }

  /** The private recursive `combinations(mask, at, r, n, subsets)`; the list it
      appends to is passed in and handed back. */
  method CombinationsInto(mask: nat, at: nat, r: nat, n: nat, subsets: seq<nat>) returns (out: seq<nat>)
    ensures out == subsets + Choose(mask, at, r, n)
    decreases n - at
  {
    out := subsets;
    if n - at < r {
      return;
    }
    if r == 0 {
      out := out + [mask];
    } else {
      var cur := mask;
      var i := at;
      while i < n
        invariant at <= i <= n
        invariant subsets + ChooseFrom(mask, at, r, n) == out + ChooseFrom(cur, i, r, n)
      {
        cur := Or(cur, Pow2(i));
        out := CombinationsInto(cur, i + 1, r - 1, n, out);
        cur := AndNot(cur, Pow2(i));
        i := i + 1;
      }
    }
  }

  /** `combinations(r, n)`: the list of all masks below 2^n with r bits set. */
  method CombinationsOf(r: nat, n: nat) returns (subsets: seq<nat>)
    ensures forall m: nat :: m in subsets <==> m < Pow2(n) && PopCount(m) == r
    ensures Distinct(subsets)
    ensures |subsets| == Binomial(n, r)
    ensures r > n ==> subsets == []
  {
    subsets := CombinationsInto(0, 0, r, n, []);
    forall m | m in subsets
      ensures m < Pow2(n) && PopCount(m) == r
    {
      ChooseSound(0, 0, r, n, m);
    }
    forall m: nat | m < Pow2(n) && PopCount(m) == r
      ensures m in subsets
    {
      ChooseComplete(0, 0, r, n, m);
    }
    ChooseDistinct(0, 0, r, n);
    ChooseSize(0, 0, r, n);
  }

  function Binomial(m: nat, r: nat): nat
  {
    if r == 0 then 1 else if m == 0 then 0 else Binomial(m - 1, r - 1) + Binomial(m - 1, r)
  }

  // ---- the recursion only ever sets a bit that is clear ----

  lemma SetThenClear(mask: nat, k: nat)
    requires mask < Pow2(k)
    ensures !Bit(k, mask)
    ensures Or(mask, Pow2(k)) == mask + Pow2(k) < Pow2(k + 1)
    ensures AndNot(Or(mask, Pow2(k)), Pow2(k)) == mask
    ensures forall j: nat :: j < k ==> (Bit(j, mask + Pow2(k)) <==> Bit(j, mask))
    ensures PopCount(mask + Pow2(k)) == PopCount(mask) + 1
  {
    BitsBelowPow2(mask, k, k);
    OrPow2(k, mask);
    SetBit(k, mask);
    AndNotPow2(k, mask + Pow2(k));
  }

  // ---- soundness: every mask produced has the promised shape ----

  lemma {:induction false} ChooseSound(mask: nat, at: nat, r: nat, n: nat, x: nat)
    requires mask < Pow2(at) && at <= n
    requires x in Choose(mask, at, r, n)
    ensures x < Pow2(n)
    ensures forall j: nat :: j < at ==> (Bit(j, x) <==> Bit(j, mask))
    ensures PopCount(x) == PopCount(mask) + r
    decreases n - at, 1
  {
    if r == 0 {
      Pow2Mono(at, n);
    } else {
      ChooseFromSound(mask, at, r, n, x);
    }
  }

  lemma {:induction false} ChooseFromSound(mask: nat, i: nat, r: nat, n: nat, x: nat)
    requires r > 0 && mask < Pow2(i) && i <= n
    requires x in ChooseFrom(mask, i, r, n)
    ensures x < Pow2(n)
    ensures forall j: nat :: j < i ==> (Bit(j, x) <==> Bit(j, mask))
    ensures PopCount(x) == PopCount(mask) + r
    decreases n - i, 0
  {
    SetThenClear(mask, i);
    var included := mask + Pow2(i);
    if x in Choose(included, i + 1, r - 1, n) {
      ChooseSound(included, i + 1, r - 1, n, x);
    } else {
      Pow2Mono(i, i + 1);
      ChooseFromSound(mask, i + 1, r, n, x);
    }
  }

  // ---- completeness: every mask of the right shape is produced ----

  /** A mask below 2^n with no bit below `at` has at most n - at bits. */
  lemma {:induction false} PopCountBound(y: nat, at: nat, n: nat)
    requires y < Pow2(n) && at <= n
    requires forall j: nat :: j < at ==> !Bit(j, y)
    ensures PopCount(y) <= n - at
    decreases y
  {
    if y > 0 {
      var i := LowestBit(y);
      if i >= n { BitsBelowPow2(y, n, i); }
      assert at <= i;
      ClearBit(i, y);
      var rest := y - Pow2(i);
      forall j: nat | j < i + 1
        ensures !Bit(j, rest)
      {
        if j < i { assert !Bit(j, y); }
      }
      PopCountBound(rest, i + 1, n);
    }
  }

  lemma {:induction false} ChooseComplete(mask: nat, at: nat, r: nat, n: nat, y: nat)
    requires mask < Pow2(at) && at <= n
    requires y < Pow2(n) && PopCount(y) == r
    requires forall j: nat :: j < at ==> !Bit(j, y)
    ensures mask + y in Choose(mask, at, r, n)
    decreases r, 1, 0
  {
    PopCountBound(y, at, n);
    if r == 0 {
      PopCountZero(y);
    } else {
      var i := LowestBit(y);
      if i >= n { BitsBelowPow2(y, n, i); }
      ChooseFromComplete(mask, at, r, n, y);
    }
  }

  /** Splitting off the lowest bit of a mask whose bits below k are clear. */
  lemma SplitLowest(y: nat, k: nat, n: nat) returns (rest: nat)
    requires y > 0 && y < Pow2(n)
    requires forall j: nat :: j < k ==> !Bit(j, y)
    ensures k <= LowestBit(y) < n
    ensures LowestBit(y) == k ==>
      && y == rest + Pow2(k) && rest < Pow2(n)
      && PopCount(rest) == PopCount(y) - 1
      && forall j: nat :: j < k + 1 ==> !Bit(j, rest)
    ensures LowestBit(y) != k ==> forall j: nat :: j < k + 1 ==> !Bit(j, y)
  {
    var i := LowestBit(y);
    if i >= n { BitsBelowPow2(y, n, i); }
    rest := 0;
    if i == k {
      ClearBit(i, y);
      rest := y - Pow2(k);
      forall j: nat | j < k + 1
        ensures !Bit(j, rest)
      {
        if j < k { assert !Bit(j, y); }
      }
    }
  }

  lemma {:induction false} ChooseFromComplete(mask: nat, k: nat, r: nat, n: nat, y: nat)
    requires r > 0 && mask < Pow2(k)
    requires y < Pow2(n) && PopCount(y) == r
    requires forall j: nat :: j < k ==> !Bit(j, y)
    ensures mask + y in ChooseFrom(mask, k, r, n)
    decreases r, 0, n - k
  {
    var rest := SplitLowest(y, k, n);
    ChooseFromStep(mask, k, r, n);
    if LowestBit(y) == k {
      ChooseLowest(mask, k, r, n, y);
    } else {
      Pow2Mono(k, k + 1);
      ChooseFromComplete(mask, k + 1, r, n, y);
    }
  }

  /** A mask whose lowest bit is k is among those chosen with bit k set. */
  lemma ChooseLowest(mask: nat, k: nat, r: nat, n: nat, y: nat)
    requires r > 0 && mask < Pow2(k) && k < n
    requires y < Pow2(n) && PopCount(y) == r && LowestBit(y) == k
    requires forall j: nat :: j < k ==> !Bit(j, y)
    ensures mask + y in Choose(mask + Pow2(k), k + 1, r - 1, n)
    decreases r - 1, 2
  {
    var rest := SplitLowest(y, k, n);
    SetThenClear(mask, k);
    ChooseComplete(mask + Pow2(k), k + 1, r - 1, n, rest);
  }

  // ---- each mask once ----

  lemma {:induction false} ChooseDistinct(mask: nat, at: nat, r: nat, n: nat)
    requires mask < Pow2(at) && at <= n
    ensures Distinct(Choose(mask, at, r, n))
    decreases n - at, 1
  {
    if n - at >= r && r > 0 {
      ChooseFromDistinct(mask, at, r, n);
    }
  }

  lemma {:induction false} ChooseFromDistinct(mask: nat, i: nat, r: nat, n: nat)
    requires r > 0 && mask < Pow2(i) && i <= n
    ensures Distinct(ChooseFrom(mask, i, r, n))
    decreases n - i, 0
  {
    if i < n {
      ChooseFromStep(mask, i, r, n);
      Pow2Mono(i, i + 1);
      ChooseDistinct(mask + Pow2(i), i + 1, r - 1, n);
      ChooseFromDistinct(mask, i + 1, r, n);
      ChooseFromApart(mask, i, r, n);
      DistinctJoin(Choose(mask + Pow2(i), i + 1, r - 1, n), ChooseFrom(mask, i + 1, r, n));
    }
  }

  /** No mask is in both lists. */
  ghost predicate NoneShared(a: seq<nat>, b: seq<nat>)
  {
    forall x :: x in a ==> x !in b
  }

  /** The subsets chosen with bit i set and those chosen without it have none in common. */
  lemma ChooseFromApart(mask: nat, i: nat, r: nat, n: nat)
    requires r > 0 && mask < Pow2(i) && i < n
    ensures NoneShared(Choose(mask + Pow2(i), i + 1, r - 1, n), ChooseFrom(mask, i + 1, r, n))
  {
    SetThenClear(mask, i);
    Pow2Mono(i, i + 1);
    var a := Choose(mask + Pow2(i), i + 1, r - 1, n);
    var b := ChooseFrom(mask, i + 1, r, n);
    forall x | x in a ensures Bit(i, x) {
      ChooseSound(mask + Pow2(i), i + 1, r - 1, n, x);
      BitFlip(i, mask);
    }
    forall x | x in b ensures !Bit(i, x) {
      ChooseFromSound(mask, i + 1, r, n, x);
    }
  }

  /** One turn of the `for` loop: the subsets with bit i, then those without it. */
  lemma ChooseFromStep(mask: nat, i: nat, r: nat, n: nat)
    requires r > 0 && mask < Pow2(i) && i < n
    ensures mask + Pow2(i) < Pow2(i + 1)
    ensures ChooseFrom(mask, i, r, n) == Choose(mask + Pow2(i), i + 1, r - 1, n) + ChooseFrom(mask, i + 1, r, n)
  {
    SetThenClear(mask, i);
  }

  /** Two lists without repeats and with no element in common join into one without repeats. */
  lemma DistinctJoin(a: seq<nat>, b: seq<nat>)
    requires Distinct(a) && Distinct(b) && NoneShared(a, b)
    ensures Distinct(a + b)
  {
    forall k, l | 0 <= k < l < |a + b|
      ensures (a + b)[k] != (a + b)[l]
    {
      if k < |a| && l >= |a| {
        assert (a + b)[k] in a && (a + b)[l] in b;
      }
    }
  }

  // ---- C(n, r) masks ----

  lemma {:induction false} BinomialZero(m: nat, r: nat)
    requires m < r
    ensures Binomial(m, r) == 0
  {
    if m > 0 { BinomialZero(m - 1, r - 1); BinomialZero(m - 1, r); }
  }

  lemma {:induction false} ChooseSize(mask: nat, at: nat, r: nat, n: nat)
    requires at <= n
    ensures |Choose(mask, at, r, n)| == Binomial(n - at, r)
    decreases n - at, 1
  {
    if n - at < r {
      BinomialZero(n - at, r);
    } else if r > 0 {
      ChooseFromSize(mask, at, r, n);
    }
  }

  lemma {:induction false} ChooseFromSize(mask: nat, i: nat, r: nat, n: nat)
    requires r > 0 && i <= n
    ensures |ChooseFrom(mask, i, r, n)| == Binomial(n - i, r)
    decreases n - i, 0
  {
    if i < n {
      var included := Or(mask, Pow2(i));
      ChooseSize(included, i + 1, r - 1, n);
      ChooseFromSize(AndNot(included, Pow2(i)), i + 1, r, n);
    }
  }
}
