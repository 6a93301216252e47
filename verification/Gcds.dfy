/** Divisors and greatest common divisors of natural numbers. */
module Gcds {
  import opened Arith
  import opened Bits
  import opened Modular

  predicate Divides(d: nat, a: int) {
    d > 0 && a % d == 0
  }

  lemma DividesIntro(d: nat, a: int, k: int)
    requires d > 0 && a == k * d
    ensures Divides(d, a)
  {
    DivModUnique(a, k, 0, d);
  }

  lemma DividesElim(d: nat, a: int) returns (k: int)
    requires Divides(d, a)
    ensures a == k * d
  {
    DivMod(a, d);
    k := a / d;
  }

  /** Divisors of two numbers divide every integer combination of them. */
  lemma DividesCombo(d: nat, a: int, b: int, x: int, y: int)
    requires Divides(d, a) && Divides(d, b)
    ensures Divides(d, x * a + y * b)
  {
    hide Divides;
    var k := DividesElim(d, a);
    var l := DividesElim(d, b);
    assert d > 0 by { DividesPositive(d, a); }
    Associate(x, k, d);
    Associate(y, l, d);
    Distribute(x * k, y * l, d);
    DividesIntro(d, x * a + y * b, x * k + y * l);
  }

  lemma DividesPositive(d: nat, a: int)
    requires Divides(d, a)
    ensures d > 0
  {}

  lemma DividesLe(d: nat, a: nat)
    requires Divides(d, a) && a > 0
    ensures d <= a
  {
    hide Divides;
    var k := DividesElim(d, a);
    DividesPositive(d, a);
    if k <= 0 {
      MulLe2(k, 0, d);
    } else {
      MulLe2(1, k, d);
    }
  }

  // ---- the greatest common divisor ----

  function Gcd(a: nat, b: nat): nat
    decreases b
  {
    if b == 0 then a else Gcd(b, a % b)
  }

  /** Dividend and remainder have the same divisors in common with the divisor. */
  lemma EuclidStep(d: nat, a: nat, b: nat, q: int, r: nat)
    requires a == q * b + r && Divides(d, b)
    ensures Divides(d, a) <==> Divides(d, r)
  {
    hide Divides;
    if Divides(d, a) {
      DividesCombo(d, a, b, 1, -q);
      assert 1 * a + (-q) * b == r;
    }
    if Divides(d, r) {
      DividesCombo(d, b, r, q, 1);
    }
  }

  /** Gcd divides both arguments, and every common divisor divides it. */
  lemma {:induction false} GcdIsGreatest(a: nat, b: nat)
    requires a > 0 || b > 0
    ensures Gcd(a, b) > 0 && Divides(Gcd(a, b), a) && Divides(Gcd(a, b), b)
    ensures forall d: nat :: Divides(d, a) && Divides(d, b) ==> Divides(d, Gcd(a, b))
    decreases b
  {
    hide Divides;
    if b == 0 {
      DividesIntro(a, a, 1);
      DividesIntro(a, 0, 0);
    } else {
      var q, r := a / b, a % b;
      DivMod(a, b);
      GcdIsGreatest(b, r);
      EuclidStep(Gcd(b, r), a, b, q, r);
      forall d: nat | Divides(d, a) && Divides(d, b)
        ensures Divides(d, Gcd(a, b))
      {
        EuclidStep(d, a, b, q, r);
      }
    }
  }

  /** Numbers with the same common divisors have the same Gcd. */
  lemma GcdByDivisors(a: nat, b: nat, c: nat, d: nat)
    requires (a > 0 || b > 0) && (c > 0 || d > 0)
    requires forall k: nat :: Divides(k, a) && Divides(k, b) <==> Divides(k, c) && Divides(k, d)
    ensures Gcd(a, b) == Gcd(c, d)
  {
    hide Divides, Gcd;
    GcdIsGreatest(a, b);
    GcdIsGreatest(c, d);
    DividesLe(Gcd(a, b), Gcd(c, d));
    DividesLe(Gcd(c, d), Gcd(a, b));
  }

  lemma GcdSub(a: nat, b: nat)
    requires a >= b > 0
    ensures Gcd(a - b, b) == Gcd(a, b)
  {
    hide Divides, Gcd;
    forall k: nat
      ensures Divides(k, a) && Divides(k, b) <==> Divides(k, a - b) && Divides(k, b)
    {
      if Divides(k, a) && Divides(k, b) {
        DividesCombo(k, a, b, 1, -1);
      }
      if Divides(k, a - b) && Divides(k, b) {
        DividesCombo(k, a - b, b, 1, 1);
      }
    }
    GcdByDivisors(a, b, a - b, b);
  }

  lemma GcdComm(a: nat, b: nat)
    ensures Gcd(a, b) == Gcd(b, a)
  {
    if a > 0 || b > 0 {
      GcdByDivisors(a, b, b, a);
    }
  }

  lemma DivisorOfOdd(d: nat, b: nat)
    requires Divides(d, b) && b % 2 == 1
    ensures d % 2 == 1
  {
    var k := DividesElim(d, b);
    if d % 2 == 0 {
      Associate(k, 2, d / 2);
    }
  }

  /** A factor two next to an odd number does not count. */
  lemma GcdHalf(a: nat, b: nat)
    requires b % 2 == 1
    ensures Gcd(2 * a, b) == Gcd(a, b)
  {
    hide Divides, Gcd;
    forall k: nat
      ensures Divides(k, 2 * a) && Divides(k, b) <==> Divides(k, a) && Divides(k, b)
    {
      if Divides(k, a) && Divides(k, b) {
        DividesCombo(k, a, b, 2, 0);
      }
      if Divides(k, 2 * a) && Divides(k, b) {
        DivisorOfOdd(k, b);
        DividesCancelTwo(k, a);
      }
    }
    GcdByDivisors(2 * a, b, a, b);
  }

  lemma DividesCancelTwo(k: nat, a: nat)
    requires Divides(k, 2 * a) && k % 2 == 1
    ensures Divides(k, a)
  {
    hide Divides;
    var q := DividesElim(k, 2 * a);
    OddTimes(q, k);
    Associate(q / 2, 2, k);
    DividesIntro(k, a, q / 2);
  }

  lemma {:induction false} GcdScale(a: nat, b: nat, m: nat)
    requires m > 0
    ensures Gcd(a * m, b * m) == Gcd(a, b) * m
    decreases b
  {
    if b == 0 {
      assert 0 * m == 0;
    } else {
      var q, r := a / b, a % b;
      DivMod(a, b);
      Distribute(q * b, r, m);
      Associate(q, b, m);
      MulLt(r, b, m);
      MulLt(0, b, m);
      DivModUnique(a * m, q, r * m, b * m);
      GcdScale(b, r, m);
    }
  }
}
