/**
 * Primes, Fermat's little theorem and the Chinese remainder theorem: what
 * makes the RSA operations inverse to each other.
 */
module NumberTheory {
  import opened Arith
  import opened Bits
  import opened Modular
  import opened Gcds

  predicate Prime(p: nat) {
    p > 1 && forall d: nat :: 1 < d < p ==> !Divides(d, p)
  }

  // ---- Euclid's lemma ----

  lemma {:induction false} BezoutPair(a: nat, b: nat) returns (x: int, y: int)
    ensures x * a + y * b == Gcd(a, b)
    decreases b
  {
    if b == 0 {
      x, y := 1, 0;
    } else {
      var q, r := a / b, a % b;
      DivMod(a, b);
      var u, v := BezoutPair(b, r);
      // u*b + v*(a - q*b) == v*a + (u - v*q)*b
      x, y := v, u - v * q;
      Distribute(u, v * q, b);
      Associate(v, q, b);
      Distribute(a, q * b, v);
    }
  }

  lemma PrimeCoprime(p: nat, x: nat)
    requires Prime(p) && !Divides(p, x)
    ensures Gcd(x, p) == 1
  {
    hide Gcd, Divides;
    GcdIsGreatest(x, p);
    var g := Gcd(x, p);
    DividesLe(g, p);
  }

  lemma EuclidsLemma(p: nat, x: nat, y: int)
    requires Prime(p) && Divides(p, x * y) && !Divides(p, x)
    ensures Divides(p, y)
  {
    hide Gcd, Divides, Prime;
    PrimePositive(p);
    PrimeCoprime(p, x);
    CoprimeCancel(p, x, y);
  }

  lemma CoprimeCancel(p: nat, x: nat, y: int)
    requires p > 0 && Gcd(x, p) == 1 && Divides(p, x * y)
    ensures Divides(p, y)
  {
    hide Gcd, Divides;
    var u, v := BezoutPair(x, p);
    DividesIntro(p, p * y, y);
    DividesCombo(p, x * y, p * y, u, v);
    assert u * (x * y) + v * (p * y) == y by {
      Associate(u, x, y);
      Associate(v, p, y);
      Distribute(u * x, v * p, y);
    }
  }

  // ---- binomial coefficients ----

  function Choose(n: nat, k: nat): nat {
    if k == 0 then 1
    else if n == 0 then 0
    else Choose(n - 1, k - 1) + Choose(n - 1, k)
  }

  lemma {:induction false} ChooseAbove(n: nat, k: nat)
    requires k > n
    ensures Choose(n, k) == 0
  {
    if n > 0 {
      ChooseAbove(n - 1, k - 1);
      ChooseAbove(n - 1, k);
    }
  }

  lemma {:induction false} ChooseAll(n: nat)
    ensures Choose(n, n) == 1
  {
    if n > 0 {
      ChooseAll(n - 1);
      ChooseAbove(n - 1, n);
    }
  }

  /** k * C(n, k) == n * C(n - 1, k - 1). */
  lemma {:induction false} Absorption(n: nat, k: nat)
    requires 1 <= k && 1 <= n
    ensures k * Choose(n, k) == n * Choose(n - 1, k - 1)
    decreases n
  {
    if n == 1 {
      if k > 1 {
        ChooseAbove(1, k);
        ChooseAbove(0, k - 1);
      } else {
        assert Choose(1, 1) == Choose(0, 0) + Choose(0, 1);
      }
    } else {
      var a, b := Choose(n - 1, k - 1), Choose(n - 1, k);
      Absorption(n - 1, k);
      Distribute(a, b, k);
      if k == 1 {
        assert Choose(n - 1, 0) == 1 && Choose(n - 2, 0) == 1;
      } else {
        Absorption(n - 1, k - 1);
        var c, d := Choose(n - 2, k - 2), Choose(n - 2, k - 1);
        assert a == c + d;
        Distribute(c, d, n - 1);
        Distribute(k - 1, 1, a);
        Distribute(n - 1, 1, a);
      }
    }
  }

  lemma PrimeDividesChoose(p: nat, k: nat)
    requires Prime(p) && 0 < k < p
    ensures Divides(p, Choose(p, k))
  {
    hide Choose, Divides;
    Absorption(p, k);
    DividesIntro(p, k * Choose(p, k), Choose(p - 1, k - 1));
    if Divides(p, k) {
      DividesLe(p, k);
    }
    EuclidsLemma(p, k, Choose(p, k));
  }

  /** The sum of C(n, i) * a^i for i below k. */
  function Terms(a: nat, n: nat, k: nat): nat {
    if k == 0 then 0 else Terms(a, n, k - 1) + Choose(n, k - 1) * Pow(a, k - 1)
  }

  /** Pascal's rule under the sum. */
  lemma {:induction false} TermsStep(a: nat, n: nat, k: nat)
    ensures Terms(a, n + 1, k + 1) == Terms(a, n, k + 1) + a * Terms(a, n, k)
    decreases k
  {
    hide Choose;
    ChooseStart(n);
    if k == 0 {
      assert Terms(a, n + 1, 1) == Terms(a, n + 1, 0) + Choose(n + 1, 0) * Pow(a, 0);
      assert Terms(a, n, 1) == Terms(a, n, 0) + Choose(n, 0) * Pow(a, 0);
    } else {
      TermsStep(a, n, k - 1);
      ChoosePascal(n, k);
      var x, y, w := Choose(n, k - 1), Choose(n, k), Pow(a, k);
      Distribute(x, y, w);
      Associate(x, a, Pow(a, k - 1));
      Distribute(Terms(a, n, k - 1), x * Pow(a, k - 1), a);
    }
  }

  lemma ChooseStart(n: nat)
    ensures Choose(n, 0) == 1 && Choose(n + 1, 0) == 1
  {}

  lemma ChoosePascal(n: nat, k: nat)
    requires k > 0
    ensures Choose(n + 1, k) == Choose(n, k - 1) + Choose(n, k)
  {}

  /** The binomial theorem for a + 1. */
  lemma {:induction false} Binomial(a: nat, n: nat)
    ensures Pow(a + 1, n) == Terms(a, n, n + 1)
  {
    if n == 0 {
      assert Terms(a, 0, 1) == Terms(a, 0, 0) + Choose(0, 0) * Pow(a, 0);
    } else {
      Binomial(a, n - 1);
      TermsStep(a, n - 1, n);
      ChooseAbove(n - 1, n);
      assert Terms(a, n - 1, n + 1) == Terms(a, n - 1, n) + 0 * Pow(a, n);
      Distribute(a, 1, Terms(a, n - 1, n));
    }
  }

  /** All middle terms vanish modulo a prime. */
  lemma {:induction false} MiddleTerms(a: nat, p: nat, k: nat)
    requires Prime(p) && 1 <= k <= p
    ensures Cong(Terms(a, p, k), 1, p)
  {
    hide Choose, Divides, Prime, Cong;
    ChooseStart(p);
    PrimePositive(p);
    if k == 1 {
      assert Terms(a, p, 1) == Terms(a, p, 0) + Choose(p, 0) * Pow(a, 0);
      CongRefl(1, p);
    } else {
      MiddleTerms(a, p, k - 1);
      PrimeDividesChoose(p, k - 1);
      var m := DividesElim(p, Choose(p, k - 1));
      var w := Pow(a, k - 1);
      Associate(w, m, p);
      CongIntro(Choose(p, k - 1) * w, 0, p, w * m);
      CongAdd(Terms(a, p, k - 1), 1, Choose(p, k - 1) * w, 0, p);
    }
  }

  lemma PrimePositive(p: nat)
    requires Prime(p)
    ensures p > 1
  {}

  // ---- Fermat's little theorem ----

  lemma {:induction false} Fermat(a: nat, p: nat)
    requires Prime(p)
    ensures Cong(Pow(a, p), a, p)
    decreases a
  {
    hide Choose, Prime, Cong;
    PrimePositive(p);
    if a == 0 {
      assert Pow(0, p) == 0 * Pow(0, p - 1);
      CongRefl(0, p);
    } else {
      var b := a - 1;
      Fermat(b, p);
      Binomial(b, p);
      MiddleTerms(b, p, p);
      ChooseAll(p);
      assert Terms(b, p, p + 1) == Terms(b, p, p) + 1 * Pow(b, p);
      CongAdd(Terms(b, p, p), 1, Pow(b, p), b, p);
    }
  }

  /** For a not divisible by p, a^(p-1) is one modulo p. */
  lemma FermatUnit(a: nat, p: nat)
    requires Prime(p) && !Divides(p, a)
    ensures Cong(Pow(a, p - 1), 1, p)
  {
    hide Divides, Prime, Cong;
    PrimePositive(p);
    Fermat(a, p);
    var k := CongElim(Pow(a, p), a, p);
    var y: int := Pow(a, p - 1) - 1;
    Distribute(Pow(a, p - 1), 1, a);
    assert a * y == k * p;
    DividesIntro(p, a * y, k);
    EuclidsLemma(p, a, y);
    var m := DividesElim(p, y);
    CongIntro(Pow(a, p - 1), 1, p, m);
  }

  /** Positive exponents that agree modulo p - 1 give the same power. */
  lemma PowerPeriod(a: nat, p: nat, d: nat, e: nat, k: nat)
    requires Prime(p) && d > 0 && e == d + k * (p - 1)
    ensures Cong(Pow(a, e), Pow(a, d), p)
  {
    hide Divides, Prime, Cong, Pow;
    PrimePositive(p);
    MulLe2(0, k, p - 1);
    if Divides(p, a) {
      ZeroPower(a, p, d);
      ZeroPower(a, p, e);
      CongSym(Pow(a, d), 0, p);
      CongTrans(Pow(a, e), 0, Pow(a, d), p);
    } else {
      FermatUnit(a, p);
      CongPow(Pow(a, p - 1), 1, k, p);
      PowPow(a, p - 1, k);
      OnePower(k);
      assert (p - 1) * k == k * (p - 1);
      PowAdd(a, d, k * (p - 1));
      CongRefl(Pow(a, d), p);
      CongMul(Pow(a, d), Pow(a, d), Pow(a, k * (p - 1)), 1, p);
    }
  }

  lemma ZeroPower(a: nat, p: nat, e: nat)
    requires p > 0 && Divides(p, a) && e > 0
    ensures Cong(Pow(a, e), 0, p)
  {
    hide Divides, Cong;
    var k := DividesElim(p, a);
    Associate(Pow(a, e - 1), k, p);
    CongIntro(Pow(a, e), 0, p, Pow(a, e - 1) * k);
  }

  lemma {:induction false} OnePower(k: nat)
    ensures Pow(1, k) == 1
  {
    if k > 0 {
      OnePower(k - 1);
    }
  }

  // ---- the Chinese remainder theorem for two primes ----

  lemma PrimesCoprime(p: nat, q: nat)
    requires Prime(p) && Prime(q) && p != q
    ensures Gcd(p, q) == 1 && !Divides(q, p)
  {
    if Divides(q, p) {
      DividesLe(q, p);
    }
    PrimeCoprime(q, p);
  }

  lemma CongBoth(a: int, b: int, p: nat, q: nat)
    requires Prime(p) && Prime(q) && p != q && Cong(a, b, p) && Cong(a, b, q)
    ensures p * q > 0 && Cong(a, b, p * q)
  {
    hide Divides, Prime, Cong, Gcd;
    PrimePositive(p);
    PrimePositive(q);
    MulLe2(1, p, q);
    PrimesCoprime(p, q);
    var k := CongElim(a, b, p);
    var l := CongElim(a, b, q);
    assert p * k == l * q;
    DividesIntro(q, p * k, l);
    CoprimeCancel(q, p, k);
    var m := DividesElim(q, k);
    assert k * p == m * (p * q) by {
      Associate(m, q, p);
    }
    CongIntro(a, b, p * q, m);
  }

  /** (p-1)(q-1). */
  function Totient(p: nat, q: nat): (r: nat)
    requires p > 1 && q > 1
    ensures r > 0
  {
    MulLe2(1, p - 1, q - 1);
    (p - 1) * (q - 1)
  }

  lemma TotientMultiple(k: nat, p: nat, q: nat)
    requires p > 1 && q > 1
    ensures k * Totient(p, q) == (k * (q - 1)) * (p - 1) == (k * (p - 1)) * (q - 1)
    ensures k * (q - 1) >= 0 && k * (p - 1) >= 0
  {
    MulNonneg(k, q - 1);
    MulNonneg(k, p - 1);
    Associate(k, p - 1, q - 1);
    Associate(k, q - 1, p - 1);
  }

  /** x^(e*d) is x again, for every x, when e*d is one modulo (p-1)(q-1). */
  lemma RsaInverse(x: nat, p: nat, q: nat, m: nat)
    requires Prime(p) && Prime(q) && p != q && Cong(m, 1, Totient(p, q)) && m > 0
    ensures p * q > 0 && Cong(Pow(x, m), x, p * q)
  {
    hide Prime, Cong, Pow, Totient;
    PrimePositive(p);
    PrimePositive(q);
    var t := Totient(p, q);
    var k := CongElim(m, 1, t);
    if k < 0 {
      MulLe2(k, -1, t);
    }
    TotientMultiple(k, p, q);
    PowerPeriod(x, p, 1, m, k * (q - 1));
    PowerPeriod(x, q, 1, m, k * (p - 1));
    PowOne(x);
    CongBoth(Pow(x, m), x, p, q);
  }

  lemma PowOne(x: nat)
    ensures Pow(x, 1) == x
  {}

  // ---- RSA on numbers ----

  /** The equations rsa_gen_key sets up, for odd primes. */
  predicate KeyNumbers(n: nat, e: nat, d: nat, p: nat, q: nat, dp: nat, dq: nat, qp: nat) {
    && Prime(p) && Prime(q) && p != q && p % 2 == 1 && q % 2 == 1 && n == p * q
    && Cong(e * d, 1, Totient(p, q))
    && dp == d % (p - 1) && dq == d % (q - 1)
    && Cong(q * qp, 1, p)
  }

  /** What lines 59-87 of rsa.c put together is such a key, whatever the primes and the exponents. */
  lemma GeneratedKey(e: nat, d: nat, p: nat, q: nat, qp: nat, h: nat)
    requires Prime(p) && Prime(q) && p != q && p % 2 == 1 && q % 2 == 1
    requires h == (p - 1) * (q - 1) && h > 1 && (e * d) % h == 1 && (q * qp) % p == 1
    ensures KeyNumbers(p * q, e, d, p, q, d % (p - 1), d % (q - 1), qp)
  {
    hide Prime;
    PrimePositive(p);
    PrimePositive(q);
    DivModUnique(1, 0, 1, h);
    DivModUnique(1, 0, 1, p);
  }

  lemma PrimeIs(p: nat)
    ensures Prime(p) <==> p > 1 && forall k: nat :: 1 < k < p ==> p % k != 0
  {
    if Prime(p) {
      forall k: nat | 1 < k < p
        ensures p % k != 0
      {
        assert !Divides(k, p);
      }
    }
  }

  /** A unit modulo m > 1 is not zero modulo m. */
  lemma UnitResidue(e: nat, d: nat, m: nat, c: nat)
    requires m > 1 && c > 0 && m * c > 0 && Cong(e * d, 1, m * c)
    ensures d % m > 0 && e * d > 0
  {
    hide Cong;
    CongDivisor(e * d, 1, m, c);
    if d % m == 0 {
      DivMod(d, m);
      Associate(e, d / m, m);
      CongIntro(e * d, 0, m, e * (d / m));
      CongSym(e * d, 0, m);
      CongTrans(0, e * d, 1, m);
      CongUnique(0, 1, m);
    }
    if e * d == 0 {
      CongUnique(0, 1, m);
    }
  }

  /** x^d and x^(d mod (p-1)) agree modulo p when the latter exponent is positive. */
  lemma ReducedExponent(x: nat, p: nat, d: nat)
    requires Prime(p) && d % (p - 1) > 0
    ensures Cong(Pow(x, d % (p - 1)), Pow(x, d), p)
  {
    hide Prime, Cong, Pow;
    PrimePositive(p);
    DivMod(d, p - 1);
    PowerPeriod(x, p, d % (p - 1), d, d / (p - 1));
    CongSym(Pow(x, d), Pow(x, d % (p - 1)), p);
  }

  /** Garner's recombination of the two half-size results. */
  function Recombine(t1: int, t2: int, p: nat, q: nat, qp: nat): int
    requires p > 0
  {
    t2 + (((t1 - t2) * qp) % p) * q
  }

  lemma RecombineRange(t1: nat, t2: nat, p: nat, q: nat, qp: nat)
    requires p > 0 && t2 < q
    ensures 0 <= Recombine(t1, t2, p, q, qp) < p * q
  {
    var h := ((t1 - t2) * qp) % p;
    DivMod((t1 - t2) * qp, p);
    DigitBound(t2, h, p, q);
  }

  lemma RecombineCong(t1: nat, t2: nat, p: nat, q: nat, qp: nat)
    requires p > 0 && q > 0 && Cong(q * qp, 1, p)
    ensures Cong(Recombine(t1, t2, p, q, qp), t1, p)
    ensures Cong(Recombine(t1, t2, p, q, qp), t2, q)
  {
    hide Cong;
    var g := (t1 - t2) * qp;
    var h := g % p;
    CongIntro(t2 + h * q, t2, q, h);
    CongMod(g, p);
    CongRefl(q, p);
    CongMul(h, g, q, q, p);
    CongRefl(t1 - t2, p);
    CongMul(t1 - t2, t1 - t2, q * qp, 1, p);
    Associate(t1 - t2, qp, q);
    assert g * q == (t1 - t2) * (q * qp);
    CongTrans(h * q, g * q, t1 - t2, p);
    CongRefl(t2, p);
    CongAdd(t2, t2, h * q, t1 - t2, p);
  }

  /** Neither reduced exponent vanishes. */
  lemma ExponentsUnits(e: nat, d: nat, p: nat, q: nat)
    requires p > 2 && q > 2 && Cong(e * d, 1, Totient(p, q))
    ensures d % (p - 1) > 0 && d % (q - 1) > 0 && e * d > 0
  {
    hide Cong;
    MulLe2(1, p - 1, q - 1);
    UnitResidue(e, d, p - 1, q - 1);
    assert (p - 1) * (q - 1) == (q - 1) * (p - 1);
    UnitResidue(e, d, q - 1, p - 1);
  }

  /** The CRT private operation is x^d mod n. */
  lemma CrtPower(x: nat, n: nat, e: nat, d: nat, p: nat, q: nat, dp: nat, dq: nat, qp: nat)
    requires KeyNumbers(n, e, d, p, q, dp, dq, qp)
    ensures n > 0 && Recombine(Pow(x, dp) % p, Pow(x, dq) % q, p, q, qp) == Pow(x, d) % n
  {
    hide Prime, Cong, Pow, Recombine, Totient;
    PrimePositive(p);
    PrimePositive(q);
    OddAboveTwo(p);
    OddAboveTwo(q);
    ExponentsUnits(e, d, p, q);
    ReducedExponent(x, p, d);
    ReducedExponent(x, q, d);
    RecombineRight(Pow(x, dp), Pow(x, dq), Pow(x, d), p, q, qp);
  }

  /** The recombined number is the residue of what both halves agree with. */
  lemma RecombineRight(a: nat, b: nat, x: nat, p: nat, q: nat, qp: nat)
    requires Prime(p) && Prime(q) && p != q && Cong(q * qp, 1, p) && Cong(a, x, p) && Cong(b, x, q)
    ensures p * q > 0 && Recombine(a % p, b % q, p, q, qp) == x % (p * q)
  {
    hide Prime, Cong, Recombine;
    PrimePositive(p);
    PrimePositive(q);
    var t1, t2 := a % p, b % q;
    var t := Recombine(t1, t2, p, q, qp);
    CongMod(a, p);
    CongMod(b, q);
    RecombineRange(t1, t2, p, q, qp);
    RecombineCong(t1, t2, p, q, qp);
    CongTrans(t, t1, a, p);
    CongTrans(t, a, x, p);
    CongTrans(t, t2, b, q);
    CongTrans(t, b, x, q);
    CongBoth(t, x, p, q);
    CongResidue(t, x, p * q);
  }

  lemma OddAboveTwo(p: nat)
    requires p > 1 && p % 2 == 1
    ensures p - 1 > 1 && (p - 1) * 1 == p - 1
  {}

  /** Raising to e and to d in either order gives the number back. */
  lemma PowerRoundTrip(x: nat, n: nat, e: nat, d: nat, p: nat, q: nat, dp: nat, dq: nat, qp: nat)
    requires KeyNumbers(n, e, d, p, q, dp, dq, qp) && x < n
    ensures n > 0 && Pow(Pow(x, e) % n, d) % n == x && Pow(Pow(x, d) % n, e) % n == x
  {
    hide Prime, Cong, Pow;
    KeyExponents(n, e, d, p, q, dp, dq, qp);
    RsaInverse(x, p, q, e * d);
    PowerBack(x, n, e, d);
    assert e * d == d * e;
    PowerBack(x, n, d, e);
  }

  lemma KeyExponents(n: nat, e: nat, d: nat, p: nat, q: nat, dp: nat, dq: nat, qp: nat)
    requires KeyNumbers(n, e, d, p, q, dp, dq, qp)
    ensures e * d > 0 && n == p * q > 0
  {
    hide Prime, Cong, Totient;
    PrimePositive(p);
    PrimePositive(q);
    OddAboveTwo(p);
    OddAboveTwo(q);
    ExponentsUnits(e, d, p, q);
    MulLe2(1, p, q);
  }

  lemma PowerBack(x: nat, n: nat, e: nat, d: nat)
    requires x < n && Cong(Pow(x, e * d), x, n)
    ensures Pow(Pow(x, e) % n, d) % n == x
  {
    hide Cong, Pow;
    var y := Pow(x, e) % n;
    CongMod(Pow(x, e), n);
    CongPow(y, Pow(x, e), d, n);
    PowPow(x, e, d);
    CongTrans(Pow(y, d), Pow(x, e * d), x, n);
    CongSym(Pow(y, d), x, n);
    CongResidue(x, Pow(y, d), n);
  }
}
