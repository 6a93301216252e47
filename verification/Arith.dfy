/**
 * Integer arithmetic shared by the big-number, RSA and codec models: powers,
 * division with remainder, congruences and bitwise "or" on naturals.
 *
 * Products of two variables are kept behind small named lemmas, so that the
 * proofs that use them only see linear facts.
 */
module Arith {

  // ---- products ----

  lemma MulLe(a: nat, b: nat, c: nat)
    requires a <= b
    ensures a * c <= b * c && c * a <= c * b
  {}

  lemma MulNonneg(a: nat, b: nat)
    ensures a * b >= 0
  {}

  lemma MulLt(a: int, b: int, c: int)
    requires a < b && 0 < c
    ensures a * c < b * c && c * a < c * b
  {}

  lemma MulCancelLt(a: int, b: int, c: int)
    requires a * c < b * c && 0 < c
    ensures a < b
  {
    if b <= a {
      MulLe2(b, a, c);
    }
  }

  lemma Distribute(a: int, b: int, c: int)
    ensures (a + b) * c == a * c + b * c
    ensures c * (a + b) == c * a + c * b
    ensures (a - b) * c == a * c - b * c
    ensures c * (a - b) == c * a - c * b
  {}

  lemma Associate(a: int, b: int, c: int)
    ensures a * (b * c) == (a * b) * c == b * (a * c)
  {}

  /** A digit below the base over a value below its weight. */
  lemma DigitBound(low: nat, d: nat, base: nat, weight: nat)
    requires low < weight && d < base
    ensures low + d * weight < base * weight
  {
    MulLe2(d + 1, base, weight);
    Distribute(d, 1, weight);
  }

  // ---- signs and parity ----

  function Magnitude(a: int): nat {
    if a < 0 then -a else a
  }

  lemma EvenProduct(i: int, y: int)
    ensures ((2 * i) * y) % 2 == 0
  {
    var p := i * y;
    Associate(2, i, y);
    assert (2 * i) * y == 2 * p;
  }

  lemma OddProduct(i: int, y: int)
    ensures ((2 * i + 1) * y) % 2 == y % 2
  {
    var p := i * y;
    Distribute(2 * i, 1, y);
    Associate(2, i, y);
    assert (2 * i + 1) * y == 2 * p + y;
  }

  // ---- division with remainder ----

  lemma DivMod(x: int, d: int)
    requires 0 < d
    ensures x == (x / d) * d + x % d && 0 <= x % d < d
  {}

  /** Quotient and remainder are determined by the Euclidean equation. */
  lemma DivModUnique(x: int, q: int, r: int, d: int)
    requires 0 < d && 0 <= r < d && x == q * d + r
    ensures x / d == q && x % d == r
  {
    var q', r' := x / d, x % d;
    DivMod(x, d);
    Distribute(q', q, d);
    if q' < q {
      MulLe2(q' - q, -1, d);
    } else if q' > q {
      MulLe2(1, q' - q, d);
    }
  }

  lemma DivBelow(x: nat, q: nat, d: nat)
    requires 0 < d && x < q * d
    ensures x / d < q
  {
    DivMod(x, d);
    if q <= x / d {
      MulLe2(q, x / d, d);
    }
  }

  lemma MulLe2(a: int, b: int, c: int)
    requires a <= b && 0 <= c
    ensures a * c <= b * c
  {}

  lemma DivLe(x: nat, d: nat)
    requires 0 < d
    ensures 0 <= x / d <= x
  {
    DivMod(x, d);
    if x / d > x {
      MulLe2(x + 1, x / d, d);
      MulLe2(1, d, x + 1);
    }
  }

  // ---- powers ----

  function Pow(b: nat, e: nat): (r: nat)
    ensures b > 0 ==> r > 0
  {
    if e == 0 then 1 else b * Pow(b, e - 1)
  }

  lemma {:induction false} PowAdd(b: nat, i: nat, j: nat)
    ensures Pow(b, i + j) == Pow(b, i) * Pow(b, j)
  {
    if i > 0 {
      PowAdd(b, i - 1, j);
      Associate(b, Pow(b, i - 1), Pow(b, j));
    }
  }

  lemma {:induction false} PowMono(b: nat, i: nat, j: nat)
    requires b > 0 && i <= j
    ensures Pow(b, i) <= Pow(b, j)
  {
    if i < j {
      PowMono(b, i, j - 1);
      MulLe(1, b, Pow(b, j - 1));
    }
  }

  lemma {:induction false} PowPow(b: nat, i: nat, j: nat)
    ensures Pow(Pow(b, i), j) == Pow(b, i * j)
  {
    if j > 0 {
      PowPow(b, i, j - 1);
      PowAdd(b, i, i * (j - 1));
      assert i * j == i + i * (j - 1);
    }
  }

  lemma {:induction false} PowMul(a: nat, b: nat, e: nat)
    ensures Pow(a * b, e) == Pow(a, e) * Pow(b, e)
  {
    if e > 0 {
      PowMul(a, b, e - 1);
      var x, y := Pow(a, e - 1), Pow(b, e - 1);
      assert (a * b) * (x * y) == (a * x) * (b * y) by {
        Associate(a * b, x, y);
        Associate(a, b, x);
        Associate(a * x, b, y);
        assert (a * b) * x == (a * x) * b;
      }
    }
  }
}
