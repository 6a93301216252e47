/**
 * Coprime numbers and combinations of two numbers: what the gcd and inverse
 * loops keep, as facts about integers.
 */
module Coprimes {
  import opened Arith
  import opened Bits
  import opened Modular
  import opened Gcds

  lemma GcdZero(b: nat)
    ensures Gcd(0, b) == b
  {
    if b > 0 {
      DivModUnique(0, 0, 0, b);
    }
  }

  lemma ParityProduct(x: int, y: int)
    ensures (x * y) % 2 == 1 <==> x % 2 == 1 && y % 2 == 1
  {
    if x % 2 == 0 {
      EvenProduct(x / 2, y);
      assert x == 2 * (x / 2);
    } else {
      OddProduct(x / 2, y);
      assert x == 2 * (x / 2) + 1;
    }
  }

  /** The correction at lines 1489-1493 makes both coefficients even. */
  lemma HalvesExactly(c1: int, c2: int, ta: int, tb: int)
    requires (c1 * ta + c2 * tb) % 2 == 0 && (ta % 2 == 1 || tb % 2 == 1)
    requires c1 % 2 != 0 || c2 % 2 != 0
    ensures (c1 + tb) % 2 == 0 && (c2 - ta) % 2 == 0
  {
    ParityProduct(c1, ta);
    ParityProduct(c2, tb);
    Parities(c1 * ta, c2 * tb, c1, c2, ta, tb);
  }

  lemma Parities(p: int, r: int, c1: int, c2: int, ta: int, tb: int)
    requires (p + r) % 2 == 0 && (ta % 2 == 1 || tb % 2 == 1) && (c1 % 2 == 1 || c2 % 2 == 1)
    requires (p % 2 == 1 <==> c1 % 2 == 1 && ta % 2 == 1) && (r % 2 == 1 <==> c2 % 2 == 1 && tb % 2 == 1)
    ensures (c1 + tb) % 2 == 0 && (c2 - ta) % 2 == 0
  {
    assert p % 2 == r % 2;
    assert c1 % 2 == tb % 2 && c2 % 2 == ta % 2;
  }

  /** The corrected coefficients combine to the same number. */
  lemma SameCombination(c1: int, c2: int, ta: int, tb: int)
    ensures (c1 + tb) * ta + (c2 - ta) * tb == c1 * ta + c2 * tb
  {
    Distribute(c1, tb, ta);
    Distribute(c2, ta, tb);
  }

  lemma HalfCombination(c1: int, c2: int, ta: int, tb: int, t: int)
    requires c1 % 2 == 0 && c2 % 2 == 0 && c1 * ta + c2 * tb == t
    ensures (c1 / 2) * ta + (c2 / 2) * tb == t / 2
  {
    Associate(2, c1 / 2, ta);
    Associate(2, c2 / 2, tb);
    assert c1 == 2 * (c1 / 2) && c2 == 2 * (c2 / 2);
  }

  lemma CoprimeHalf(t: nat, other: nat)
    requires t > 0 && t % 2 == 0 && Gcd(t, other) == 1
    ensures Gcd(t / 2, other) == 1
  {
    hide Gcd, Divides;
    var h := t / 2;
    GcdIsGreatest(t, other);
    GcdIsGreatest(h, other);
    var g := Gcd(h, other);
    DividesCombo(g, h, h, 1, 1);
    DividesLe(g, 1);
  }

  /** gcd(A, n) and the residue of A have the same common factors with n. */
  lemma GcdResidue(a: int, n: nat)
    requires n > 0
    ensures Gcd(Magnitude(a), n) == Gcd(a % n, n)
  {
    hide Divides, Gcd;
    DivMod(a, n);
    var q := a / n;
    var r: nat := a % n;
    var m := Magnitude(a);
    forall k: nat
      ensures Divides(k, m) && Divides(k, n) <==> Divides(k, r) && Divides(k, n)
    {
      if Divides(k, n) {
        var s := if a < 0 then -1 else 1;
        if Divides(k, m) {
          DividesCombo(k, m, n, s, -q);
          assert s * m + (-q) * n == r;
        }
        if Divides(k, r) {
          DividesCombo(k, r, n, s, s * q);
          assert s * r + (s * q) * n == m by {
            Associate(s, q, n);
            Distribute(r, q * n, s);
          }
        }
      }
    }
    GcdByDivisors(m, n, r, n);
  }

  /** Coprime numbers are not both even. */
  lemma NotBothEven(a: nat, n: nat)
    requires n > 0 && Gcd(a, n) == 1
    ensures a % 2 == 1 || n % 2 == 1
  {
    hide Gcd;
    GcdIsGreatest(a, n);
    assert !(Divides(2, a) && Divides(2, n));
  }

  /** v1 * ta + v2 * n == 1 - e with ta == a mod n makes v1 an inverse of a but for e. */
  lemma InverseButFor(v1: int, v2: int, e: int, a: int, n: nat)
    requires n > 0 && v1 * (a % n) + v2 * n == 1 - e
    ensures Cong(a * v1, 1 - e, n)
  {
    DivMod(a, n);
    Distribute((a / n) * n, a % n, v1);
    Associate(v1, a / n, n);
    Distribute(v1 * (a / n), v2, n);
    CongIntro(a * v1, 1 - e, n, v1 * (a / n) - v2);
  }

  lemma InverseShift(a: int, x: int, y: int, n: nat)
    requires n > 0 && Cong(a * x, 1, n) && (y == x + n || y == x - n)
    ensures Cong(a * y, 1, n)
  {
    hide Cong;
    var k := CongElim(a * x, 1, n);
    Distribute(x, n, a);
    Distribute(k, a, n);
    CongIntro(a * y, 1, n, if y == x + n then k + a else k - a);
  }

  lemma NotZero(a: int, x: int, n: nat)
    requires n > 1 && Cong(a * x, 1, n)
    ensures x % n != 0 && x != 0
  {
    if x % n == 0 {
      DivMod(x, n);
      Associate(a, x / n, n);
      DivModUnique(a * x, a * (x / n), 0, n);
      DivModUnique(1, 0, 1, n);
    }
    DivModUnique(0, 0, 0, n);
  }
}
