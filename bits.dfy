// Subsets of vertices as non-negative integer bit masks, as DynamicProgrammingTSP
// keeps them in a 32-bit int. Java's `1 << e`, `&`, `|`, `^` and `& ~` are
// written out on unbounded naturals; the solver only uses n <= 30 bits, where
// they agree with 32-bit ints.

module Bits {

  /** `1 << k` */
  function Pow2(k: nat): (r: nat)
    ensures r >= 1
  {
    if k == 0 then 1 else 2 * Pow2(k - 1)
  }

  /** Bit e of s is set. */
  predicate Bit(e: nat, s: nat)
  {
    if e == 0 then s % 2 == 1 else Bit(e - 1, s / 2)
  }

  /** The positions of the set bits (each is below s, since bit e is worth 2^e > e). */
  ghost function Members(s: nat): set<nat>
  {
    set e: nat | e < s && Bit(e, s)
  }

  /** Number of set bits. */
  ghost function PopCount(s: nat): nat
  {
    |Members(s)|
  }

  /** Java's `a & b` */
  function And(a: nat, b: nat): nat
  {
    if a == 0 || b == 0 then 0
    else 2 * And(a / 2, b / 2) + (if a % 2 == 1 && b % 2 == 1 then 1 else 0)
  }

  /** Java's `a | b` */
  function Or(a: nat, b: nat): nat
  {
    if a == 0 then b
    else if b == 0 then a
    else 2 * Or(a / 2, b / 2) + (if a % 2 == 1 || b % 2 == 1 then 1 else 0)
  }

  /** Java's `a ^ b` */
  function Xor(a: nat, b: nat): nat
  {
    if a == 0 then b
    else if b == 0 then a
    else 2 * Xor(a / 2, b / 2) + (if a % 2 != b % 2 then 1 else 0)
  }

  /** Java's `a & ~b` */
  function AndNot(a: nat, b: nat): nat
  {
    if a == 0 then 0
    else if b == 0 then a
    else 2 * AndNot(a / 2, b / 2) + (if a % 2 == 1 && b % 2 == 0 then 1 else 0)
  }

  /** DynamicProgrammingTSP.notIn: `((1 << elem) & subset) == 0`. */
  function NotIn(elem: nat, subset: nat): (r: bool)
    ensures r <==> !Bit(elem, subset)
  {
    AndPow2(elem, subset);
    And(Pow2(elem), subset) == 0
  }

  // ---- facts about single bits ----

  lemma {:induction false} BitOfZero(e: nat)
    ensures !Bit(e, 0)
  {
    if e > 0 { BitOfZero(e - 1); }
  }

  lemma {:induction false} AndPow2(e: nat, s: nat)
    ensures And(Pow2(e), s) == 0 <==> !Bit(e, s)
  {
    if s == 0 {
      BitOfZero(e);
    } else if e > 0 {
      AndPow2(e - 1, s / 2);
      assert Pow2(e) / 2 == Pow2(e - 1) && Pow2(e) % 2 == 0;
    }
  }

  lemma {:induction false} OrZero(a: nat)
    ensures Or(a, 0) == a
  {
  }

  lemma {:induction false} OrPow2(e: nat, s: nat)
    requires !Bit(e, s)
    ensures Or(s, Pow2(e)) == s + Pow2(e)
  {
    if s != 0 {
      if e == 0 {
        OrZero(s / 2);
      } else {
        assert Pow2(e) / 2 == Pow2(e - 1) && Pow2(e) % 2 == 0;
        OrPow2(e - 1, s / 2);
      }
    }
  }

  lemma {:induction false} BitGe(e: nat, s: nat)
    requires Bit(e, s)
    ensures s >= Pow2(e)
  {
    if e > 0 { BitGe(e - 1, s / 2); }
  }

  lemma {:induction false} AndNotPow2(e: nat, s: nat)
    requires Bit(e, s)
    ensures s >= Pow2(e) && AndNot(s, Pow2(e)) == s - Pow2(e)
  {
    BitGe(e, s);
    if e > 0 {
      assert Pow2(e) / 2 == Pow2(e - 1) && Pow2(e) % 2 == 0;
      AndNotPow2(e - 1, s / 2);
    }
  }

  lemma {:induction false} XorPow2(e: nat, s: nat)
    requires Bit(e, s)
    ensures s >= Pow2(e) && Xor(s, Pow2(e)) == s - Pow2(e)
  {
    BitGe(e, s);
    if e > 0 {
      assert Pow2(e) / 2 == Pow2(e - 1) && Pow2(e) % 2 == 0;
      XorPow2(e - 1, s / 2);
    }
  }

  /** Adding 1 << e flips bit e. */
  lemma {:induction false} BitFlip(e: nat, s: nat)
    ensures Bit(e, s + Pow2(e)) <==> !Bit(e, s)
  {
    if e > 0 {
      assert (s + Pow2(e)) / 2 == s / 2 + Pow2(e - 1);
      BitFlip(e - 1, s / 2);
    }
  }

  /** Adding 1 << e leaves the bits below e alone. */
  lemma {:induction false} BitBelow(e: nat, s: nat, j: nat)
    requires j < e
    ensures Bit(j, s + Pow2(e)) <==> Bit(j, s)
  {
    assert (s + Pow2(e)) / 2 == s / 2 + Pow2(e - 1);
    assert (s + Pow2(e)) % 2 == s % 2;
    if j > 0 {
      BitBelow(e - 1, s / 2, j - 1);
    }
  }

  /** Adding 1 << e without a carry leaves the bits above e alone. */
  lemma {:induction false} BitAbove(e: nat, s: nat, j: nat)
    requires !Bit(e, s) && e < j
    ensures Bit(j, s + Pow2(e)) <==> Bit(j, s)
  {
    if e == 0 {
      assert (s + 1) / 2 == s / 2;
    } else {
      assert (s + Pow2(e)) / 2 == s / 2 + Pow2(e - 1);
      BitAbove(e - 1, s / 2, j - 1);
    }
  }

  lemma {:induction false} Pow2Above(e: nat)
    ensures Pow2(e) > e
  {
    if e > 0 { Pow2Above(e - 1); }
  }

  /** A set bit lies below the mask itself. */
  lemma BitBelowMask(e: nat, s: nat)
    requires Bit(e, s)
    ensures e < s
  {
    BitGe(e, s);
    Pow2Above(e);
  }

  lemma PopCountAdd(e: nat, s: nat)
    requires !Bit(e, s)
    ensures PopCount(s + Pow2(e)) == PopCount(s) + 1
  {
    var t := s + Pow2(e);
    BitFlip(e, s);
    BitBelowMask(e, t);
    forall j: nat
      ensures j in Members(t) <==> j in Members(s) + {e}
    {
      if j < e { BitBelow(e, s, j); } else if j > e { BitAbove(e, s, j); }
      if Bit(j, s) { BitBelowMask(j, s); }
      if Bit(j, t) { BitBelowMask(j, t); }
    }
    assert Members(t) == Members(s) + {e};
  }

  /** Setting a clear bit: that bit becomes set, one more bit in all, the rest unchanged. */
  lemma SetBit(e: nat, s: nat)
    requires !Bit(e, s)
    ensures Bit(e, s + Pow2(e))
    ensures PopCount(s + Pow2(e)) == PopCount(s) + 1
    ensures forall j: nat :: j != e ==> (Bit(j, s + Pow2(e)) <==> Bit(j, s))
  {
    BitFlip(e, s);
    PopCountAdd(e, s);
    forall j: nat | j != e
      ensures Bit(j, s + Pow2(e)) <==> Bit(j, s)
    {
      if j < e { BitBelow(e, s, j); } else { BitAbove(e, s, j); }
    }
  }

  /** Clearing a set bit: that bit becomes clear, one bit fewer, the rest unchanged. */
  lemma ClearBit(e: nat, s: nat)
    requires Bit(e, s)
    ensures s >= Pow2(e)
    ensures !Bit(e, s - Pow2(e))
    ensures PopCount(s - Pow2(e)) == PopCount(s) - 1
    ensures forall j: nat :: j != e ==> (Bit(j, s - Pow2(e)) <==> Bit(j, s))
  {
    BitGe(e, s);
    var t := s - Pow2(e);
    BitFlip(e, t);
    SetBit(e, t);
  }

  /** Only the empty mask has no set bit. */
  lemma PopCountZero(s: nat)
    ensures PopCount(s) == 0 <==> s == 0
  {
    if s == 0 {
      assert Members(s) == {};
    } else {
      var i := LowestBit(s);
      BitBelowMask(i, s);
      assert i in Members(s);
    }
  }

  lemma {:induction false} Pow2Mono(a: nat, b: nat)
    requires a <= b
    ensures Pow2(a) <= Pow2(b)
    decreases b
  {
    if a < b { Pow2Mono(a, b - 1); }
  }

  /** A mask below 1 << n has no bit at n or above. */
  lemma {:induction false} BitsBelowPow2(s: nat, n: nat, j: nat)
    requires s < Pow2(n) && n <= j
    ensures !Bit(j, s)
  {
    if s == 0 {
      BitOfZero(j);
    } else {
      BitsBelowPow2(s / 2, n - 1, j - 1);
    }
  }

  /** Index of the lowest set bit. */
  function LowestBit(s: nat): (r: nat)
    requires s > 0
    ensures Bit(r, s)
    ensures forall j: nat :: j < r ==> !Bit(j, s)
  {
    if s % 2 == 1 then 0 else 1 + LowestBit(s / 2)
  }

  /** Clearing set bit e keeps another set bit j, and leaves one bit fewer. */
  lemma ClearKeeps(e: nat, j: nat, s: nat)
    requires Bit(e, s) && Bit(j, s) && j != e
    ensures s >= Pow2(e) && Bit(j, s - Pow2(e))
    ensures PopCount(s - Pow2(e)) == PopCount(s) - 1
  {
    ClearBit(e, s);
  }

  /** A non-empty mask has a set bit other than e when it holds more than e alone. */
  lemma OtherBit(e: nat, s: nat) returns (j: nat)
    requires Bit(e, s) && PopCount(s) >= 2
    ensures j != e && Bit(j, s)
  {
    ClearBit(e, s);
    j := LowestBit(s - Pow2(e));
  }

  /** `(1 << n) - 1`, the mask of all n vertices. */
  function Full(n: nat): nat
  {
    Pow2(n) - 1
  }

  /** The full mask holds exactly the n bits below n. */
  lemma {:induction false} FullMask(n: nat)
    ensures Full(n) < Pow2(n)
    ensures PopCount(Full(n)) == n
    ensures forall j: nat :: j < n ==> Bit(j, Full(n))
  {
    if n == 0 {
      PopCountZero(0);
    } else {
      FullMask(n - 1);
      assert Full(n) == Full(n - 1) + Pow2(n - 1);
      BitsBelowPow2(Full(n - 1), n - 1, n - 1);
      PopCountAdd(n - 1, Full(n - 1));
      forall j: nat | j < n
        ensures Bit(j, Full(n))
      {
        if j < n - 1 { BitBelow(n - 1, Full(n - 1), j); } else { BitFlip(n - 1, Full(n - 1)); }
      }
    }
  }

  /** Bit i of the full mask of n vertices is set for each i below n. */
  lemma FullHas(n: nat, i: nat)
    requires i < n
    ensures Bit(i, Full(n))
  {
    FullMask(n);
  }

  /** The only mask with one bit, bit 0, is 1. */
  lemma OnlyRoot(s: nat)
    requires Bit(0, s) && PopCount(s) == 1
    ensures s == 1
  {
    ClearBit(0, s);
    PopCountZero(s - 1);
  }

  /** The mask {0, v} is `1 | (1 << v)`; a two-bit mask holding 0 and v is that one. */
  lemma PairMask(v: nat, s: nat)
    requires v != 0 && Bit(0, s) && Bit(v, s) && PopCount(s) == 2
    ensures s == 1 + Pow2(v)
  {
    ClearBit(v, s);
    OnlyRoot(s - Pow2(v));
  }
}
