/** Congruences between integers. */
module Modular {
  import opened Arith
  import opened Bits

  predicate Cong(a: int, b: int, n: int)
    requires n > 0
  {
    a % n == b % n
  }

  lemma CongIntro(a: int, b: int, n: int, k: int)
    requires n > 0 && a == b + k * n
    ensures Cong(a, b, n)
  {
    DivMod(b, n);
    Distribute(b / n, k, n);
    DivModUnique(a, b / n + k, b % n, n);
  }

  lemma CongElim(a: int, b: int, n: int) returns (k: int)
    requires n > 0 && Cong(a, b, n)
    ensures a == b + k * n
  {
    DivMod(a, n);
    DivMod(b, n);
    k := a / n - b / n;
    Distribute(a / n, b / n, n);
  }

  lemma CongRefl(a: int, n: int)
    requires n > 0
    ensures Cong(a, a, n)
  {}

  lemma CongSym(a: int, b: int, n: int)
    requires n > 0 && Cong(a, b, n)
    ensures Cong(b, a, n)
  {}

  lemma CongTrans(a: int, b: int, c: int, n: int)
    requires n > 0 && Cong(a, b, n) && Cong(b, c, n)
    ensures Cong(a, c, n)
  {}

  lemma CongAdd(a: int, b: int, c: int, d: int, n: int)
    requires n > 0 && Cong(a, b, n) && Cong(c, d, n)
    ensures Cong(a + c, b + d, n) && Cong(a - c, b - d, n)
  {
    hide Cong;
    var k := CongElim(a, b, n);
    var l := CongElim(c, d, n);
    Distribute(k, l, n);
    CongIntro(a + c, b + d, n, k + l);
    CongIntro(a - c, b - d, n, k - l);
  }

  lemma CongMul(a: int, b: int, c: int, d: int, n: int)
    requires n > 0 && Cong(a, b, n) && Cong(c, d, n)
    ensures Cong(a * c, b * d, n)
  {
    hide Cong;
    var k := CongElim(a, b, n);
    var l := CongElim(c, d, n);
    Distribute(b, k * n, c);
    Distribute(d, l * n, b);
    Associate(b, l, n);
    Associate(c, k, n);
    Distribute(c * k, b * l, n);
    assert (k * n) * c == c * (k * n);
    CongIntro(a * c, b * d, n, c * k + b * l);
  }

  lemma CongMod(a: int, n: int)
    requires n > 0
    ensures Cong(a % n, a, n) && 0 <= a % n < n
  {
    hide Cong;
    DivMod(a, n);
    CongIntro(a, a % n, n, a / n);
    CongSym(a, a % n, n);
  }

  lemma CongUnique(a: int, b: int, n: int)
    requires n > 0 && Cong(a, b, n) && 0 <= a < n && 0 <= b < n
    ensures a == b
  {
    DivModUnique(a, 0, a, n);
    DivModUnique(b, 0, b, n);
  }

  /** A residue is determined by its class. */
  lemma CongResidue(a: int, b: int, n: int)
    requires n > 0 && Cong(a, b, n) && 0 <= a < n
    ensures a == b % n
  {
    DivModUnique(a, 0, a, n);
  }

  lemma CongDivisor(a: int, b: int, n: int, m: int)
    requires n > 0 && m > 0 && n * m > 0 && Cong(a, b, n * m)
    ensures Cong(a, b, n)
  {
    hide Cong;
    var k := CongElim(a, b, n * m);
    Associate(k, n, m);
    assert k * (n * m) == (k * m) * n;
    CongIntro(a, b, n, k * m);
  }

  lemma {:induction false} CongPow(a: nat, b: nat, e: nat, n: int)
    requires n > 0 && Cong(a, b, n)
    ensures Cong(Pow(a, e), Pow(b, e), n)
  {
    hide Cong;
    if e == 0 {
      CongRefl(1, n);
    } else {
      CongPow(a, b, e - 1, n);
      CongMul(a, b, Pow(a, e - 1), Pow(b, e - 1), n);
    }
  }

  // ---- odd moduli ----

  lemma OddOdd(k: int, n: int)
    requires k % 2 == 1 && n % 2 == 1
    ensures (k * n) % 2 == 1
  {
    OddProduct(k / 2, n);
    assert k == 2 * (k / 2) + 1;
  }

  lemma OddTimes(k: int, n: int)
    requires n % 2 == 1 && (k * n) % 2 == 0
    ensures k % 2 == 0
  {
    if k % 2 == 1 {
      OddOdd(k, n);
    }
  }

  lemma CancelTwo(a: int, b: int, n: int)
    requires n > 0 && n % 2 == 1 && Cong(2 * a, 2 * b, n)
    ensures Cong(a, b, n)
  {
    hide Cong;
    var k := CongElim(2 * a, 2 * b, n);
    OddTimes(k, n);
    Associate(k / 2, 2, n);
    CongIntro(a, b, n, k / 2);
  }

  /** A power of two cancels modulo an odd number. */
  lemma {:induction false} CancelPow2(a: int, b: int, k: nat, n: int)
    requires n > 0 && n % 2 == 1 && Cong(a * Pow2(k), b * Pow2(k), n)
    ensures Cong(a, b, n)
  {
    hide Cong, Pow2;
    if k == 0 {
      Pow2Step(0);
    } else {
      Pow2Step(k - 1);
      Associate(a, 2, Pow2(k - 1));
      Associate(b, 2, Pow2(k - 1));
      CancelTwo(a * Pow2(k - 1), b * Pow2(k - 1), n);
      CancelPow2(a, b, k - 1, n);
    }
  }
}
