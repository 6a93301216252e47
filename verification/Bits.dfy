/**
 * Bits of natural numbers: bitwise or, bit length, and the effect of a limb
 * shift, in terms of division and multiplication by powers of two.
 */
module Bits {
  import opened Arith

  function Pow2(k: nat): (r: nat)
    ensures r > 0
  {
    Pow(2, k)
  }

  lemma Pow2Add(i: nat, j: nat)
    ensures Pow2(i + j) == Pow2(i) * Pow2(j)
  {
    PowAdd(2, i, j);
  }

  lemma Pow2Step(k: nat)
    ensures Pow2(k + 1) == 2 * Pow2(k) && Pow2(0) == 1
  {}

  lemma Pow2Mono(i: nat, j: nat)
    requires i <= j
    ensures Pow2(i) <= Pow2(j)
  {
    PowMono(2, i, j);
  }

  /** Bit k of x, as (x >> k) & 1. */
  function Bit(x: nat, k: nat): nat {
    (x / Pow2(k)) % 2
  }

  // ---- bitwise or ----

  function Or(x: nat, y: nat): nat
    decreases x + y
  {
    if x == 0 then y
    else if y == 0 then x
    else 2 * Or(x / 2, y / 2) + (if x % 2 == 1 || y % 2 == 1 then 1 else 0)
  }

  /** Bits set on disjoint sides of position k add up. */
  lemma {:induction false} OrDisjoint(hi: nat, k: nat, lo: nat)
    requires lo < Pow2(k)
    ensures Or(hi * Pow2(k), lo) == hi * Pow2(k) + lo == Or(lo, hi * Pow2(k))
    decreases k
  {
    if k > 0 && hi != 0 && lo != 0 {
      Pow2Step(k - 1);
      var h := hi * Pow2(k - 1);
      Associate(hi, 2, Pow2(k - 1));
      assert hi * Pow2(k) == 2 * h;
      OrDisjoint(hi, k - 1, lo / 2);
    }
  }

  // ---- bit length ----

  /** The number of bits of x without leading zeros. */
  function BitLen(x: nat): (n: nat)
    ensures n == 0 <==> x == 0
  {
    if x == 0 then 0 else 1 + BitLen(x / 2)
  }

  lemma {:induction false} BitLenBounds(x: nat)
    requires x > 0
    ensures Pow2(BitLen(x) - 1) <= x < Pow2(BitLen(x))
  {
    if x == 1 {
      assert BitLen(1 / 2) == 0;
      Pow2Step(0);
    } else {
      BitLenBounds(x / 2);
      Pow2Step(BitLen(x / 2) - 1);
      Pow2Step(BitLen(x / 2));
    }
  }

  lemma BitLenUnique(x: nat, n: nat)
    requires n > 0 && Pow2(n - 1) <= x < Pow2(n)
    ensures BitLen(x) == n
  {
    BitLenBounds(x);
    if BitLen(x) < n {
      Pow2Mono(BitLen(x), n - 1);
    } else if BitLen(x) > n {
      Pow2Mono(n, BitLen(x) - 1);
    }
  }

  lemma BitLenLe(x: nat, n: nat)
    ensures BitLen(x) <= n <==> x < Pow2(n)
  {
    if x > 0 {
      BitLenBounds(x);
      if BitLen(x) <= n {
        Pow2Mono(BitLen(x), n);
      } else {
        Pow2Mono(n, BitLen(x) - 1);
      }
    }
  }
}
