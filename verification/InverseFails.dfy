/**
 * Inputs for which mpi_inv_mod goes wrong because a carry sticks
 * (src/bootloader/myboot/bignum.c, lines 611-620 and 1483-1526).
 */
module InverseFails {
  import opened Arith
  import opened Bits
  import opened Modular
  import opened Gcds
  import opened Coprimes
  import opened Limbs
  import opened Shift
  import opened InverseRun

  // ---- additions whose outcome is known ----

  /** How the numbers below lie among the weights of the limbs. */
  predicate Shape(w: nat, q: nat) {
    w >= 65536 && q >= 65536 && q % 2 == 0
    && Pow(w, 2) <= q && Pow(w, 3) == 16 * q && Pow(w, 4) > 100 * q
  }

  /** 16 * q is the cube of w. */
  predicate Cube(w: nat, q: nat) {
    w % 16 == 0 && Pow(w, 1) == w && q == (w / 16) * (w * w)
  }

  lemma ThreeLimbs(w: nat, q: nat, v: nat)
    requires Shape(w, q) && q <= v < 16 * q
    ensures LimbCount(w, v) == 3
  {
    hide Pow;
    LimbsBetween(w, v, 2);
  }

  lemma FourLimbs(w: nat, q: nat, v: nat)
    requires Shape(w, q) && 16 * q <= v <= 100 * q
    ensures LimbCount(w, v) == 4
  {
    hide Pow;
    LimbsBetween(w, v, 3);
  }

  lemma OneLimb(w: nat, v: nat)
    requires 0 < v < w && w >= 2
    ensures LimbCount(w, v) == 1
  {
    WeightStep(w, 0);
    LimbsBetween(w, v, 0);
  }

  lemma FewLimbs(w: nat, q: nat, v: nat)
    requires Shape(w, q) && v <= 100 * q
    ensures LimbCount(w, v) <= 4 && (v < 16 * q ==> LimbCount(w, v) <= 3)
  {
    if v >= 16 * q {
      FourLimbs(w, q, v);
    } else if v >= q {
      ThreeLimbs(w, q, v);
    } else {
      LimbsMono(w, v, q);
      ThreeLimbs(w, q, q);
    }
  }

  lemma {:induction false} LimbsMono(w: nat, u: nat, v: nat)
    requires w >= 2 && u <= v
    ensures LimbCount(w, u) <= LimbCount(w, v)
    decreases v
  {
    if u > 0 {
      DivShrinks(w, u);
      DivShrinks(w, v);
      DivMod(u, w);
      DivMod(v, w);
      if u / w > v / w {
        MulLe2(v / w + 1, u / w, w);
        Distribute(v / w, 1, w);
      }
      LimbsMono(w, u / w, v / w);
    }
  }

  /** Adding a number with as many limbs, to one of the same sign. */
  lemma PlusLong(w: nat, x: Num, s: int, b: nat)
    requires w >= 2 && x.s == s && x.n <= LimbCount(w, b) + 1
    ensures !Stuck(w, x, b) && Loss(w, x, b) == 0
    ensures Plus(w, x, s, b) == Num(s, Larger(Larger(x.n, LimbCount(w, b)), LimbCount(w, x.v + b)), x.v + b)
  {
    hide Pow;
  }

  /** Adding a larger number of the other sign. */
  lemma PlusFlip(w: nat, x: Num, s: int, b: nat)
    requires w >= 2 && x.s != s && x.v < b
    ensures Plus(w, x, s, b) == Num(-x.s, Larger(x.n, Larger(1, LimbCount(w, b))), b - x.v)
  {
  }

  /** Adding one limb below which there is room. */
  lemma PlusShortRoom(w: nat, x: Num, s: int, b: nat, rest: nat, low: nat)
    requires w >= 65536 && Pow(w, 1) == w && x.s == s && 0 < b < w && x.v == rest * (w * w) + low && low + b < w
    requires LimbCount(w, x.v + b) <= x.n && x.n >= 1
    ensures !Stuck(w, x, b) && Loss(w, x, b) == 0 && Plus(w, x, s, b) == Num(s, x.n, x.v + b)
  {
    hide Pow;
    OneLimb(w, b);
    Associate(rest, w, w);
    DivModUnique(x.v, rest * w, low, w);
  }

  /** Adding one limb onto two that are all ones, with more behind. */
  lemma PlusShortStuck(w: nat, x: Num, s: int, b: nat, rest: nat)
    requires w >= 65536 && Pow(w, 1) == w && x.s == s && 0 < b < w && x.v + 1 == rest * (w * w) && rest > 0
    requires x.n >= 3 && LimbCount(w, x.v + b) <= x.n
    ensures Stuck(w, x, b) && Loss(w, x, b) == w * w - w
    ensures w * w - w <= x.v + b && Plus(w, x, s, b) == Num(s, x.n, x.v + b - (w * w - w))
  {
    hide Pow;
    OneLimb(w, b);
    Associate(rest, w, w);
    Distribute(rest * w, 1, w);
    MulLe2(1, rest, w);
    MulLe2(1, rest * w, w);
    DivModUnique(x.v, rest * w - 1, w - 1, w);
    Distribute(rest, 1, w);
    DivModUnique(rest * w - 1, rest - 1, w - 1, w);
    Distribute(w, 1, w);
    MulLe2(1, rest, w * w);
    LimbsMono(w, x.v + b - (w * w - w), x.v + b);
  }

  // ---- the run for A = 8 * q + 2 and N = 16 * q + 5, where 16 * q is W * W * W ----

  function Base(q: nat): nat { 8 * q + 2 }

  function Modulus(q: nat): nat { 16 * q + 5 }

  lemma AddBothFree(w: nat, r: Row, s1: int, b1: nat, s2: int, b2: nat, ta: nat, tb: nat)
    requires w >= 2
    requires r.c1.s == s1 ==> Loss(w, r.c1, b1) == 0
    requires r.c2.s == s2 ==> Loss(w, r.c2, b2) == 0
    ensures AddBoth(w, r, s1, b1, s2, b2, ta, tb)
         == Row(r.t, Plus(w, r.c1, s1, b1), Plus(w, r.c2, s2, b2), r.e, r.stuck)
  {
    hide Pow, Loss, Stuck, Plus;
  }

  lemma HalveTo(w: nat, r: Row, ta: nat, tb: nat, d: Row)
    requires w >= 2 && Corrected(w, r, ta, tb) == d && d.c1.v % 2 == 0 && d.c2.v % 2 == 0
    ensures HalveRow(w, r, ta, tb) == Row(d.t / 2, Half(d.c1), Half(d.c2), d.e / 2, d.stuck)
  {
    hide Pow, Corrected;
  }

  /** Halving with correction, for coefficients of the signs they mostly have. */
  lemma CorrectedIs(w: nat, a: nat, n: nat, r: Row)
    requires w >= 2 && r.c1.v % 2 == 1 && r.c1.s == 1 && r.c2.s == -1
    requires LimbCount(w, n) == r.c1.n && LimbCount(w, a) == r.c2.n
    requires LimbCount(w, r.c1.v + n) <= r.c1.n && LimbCount(w, r.c2.v + a) <= r.c2.n
    ensures Corrected(w, r, a, n)
         == Row(r.t, Num(1, r.c1.n, r.c1.v + n), Num(-1, r.c2.n, r.c2.v + a), r.e, r.stuck)
  {
    hide Pow, Plus, Loss, Stuck, AddBoth, LimbCount;
    PlusLong(w, r.c1, 1, n);
    PlusLong(w, r.c2, -1, a);
    AddBothFree(w, r, 1, n, -1, a, a, n);
  }

  lemma CorrectedHere(w: nat, q: nat, r: Row)
    requires Shape(w, q) && r.c1.s == 1 && r.c1.n == 4 && r.c2.s == -1 && r.c2.n == 3
    requires r.c1.v % 2 == 1 && r.c1.v <= 20 * q && r.c2.v < 8 * q - 2
    ensures Corrected(w, r, Base(q), Modulus(q))
         == Row(r.t, Num(1, 4, r.c1.v + Modulus(q)), Num(-1, 3, r.c2.v + Base(q)), r.e, r.stuck)
  {
    hide Pow, Corrected, LimbCount;
    var a, n := Base(q), Modulus(q);
    FourLimbs(w, q, n);
    ThreeLimbs(w, q, a);
    FewLimbs(w, q, r.c1.v + n);
    FewLimbs(w, q, r.c2.v + a);
    CorrectedIs(w, a, n, r);
  }

  lemma HalveCorrected(w: nat, q: nat, r: Row)
    requires Shape(w, q) && r.c1.s == 1 && r.c1.n == 4 && r.c2.s == -1 && r.c2.n == 3
    requires r.c1.v % 2 == 1 && r.c1.v <= 20 * q && r.c2.v % 2 == 0 && r.c2.v < 8 * q - 2
    ensures HalveRow(w, r, Base(q), Modulus(q))
         == Row(r.t / 2, Num(1, 4, (r.c1.v + Modulus(q)) / 2), Num(-1, 3, (r.c2.v + Base(q)) / 2), r.e / 2, r.stuck)
  {
    hide Pow, Corrected, HalveRow;
    CorrectedHere(w, q, r);
    var d := Corrected(w, r, Base(q), Modulus(q));
    assert d.c1.v % 2 == 0 && d.c2.v % 2 == 0;
    HalveTo(w, r, Base(q), Modulus(q), d);
  }

  /** N is added to 1, and A taken from 0. */
  lemma FirstCoefficients(w: nat, q: nat)
    requires Shape(w, q)
    ensures Loss(w, Num(1, 1, 1), Modulus(q)) == 0
    ensures Plus(w, Num(1, 1, 1), 1, Modulus(q)) == Num(1, 4, Modulus(q) + 1)
    ensures Plus(w, Num(1, 1, 0), -1, Base(q)) == Num(-1, 3, Base(q))
  {
    hide Pow, Plus, Loss, Stuck, LimbCount;
    FourLimbs(w, q, Modulus(q));
    FourLimbs(w, q, Modulus(q) + 1);
    ThreeLimbs(w, q, Base(q));
    PlusLong(w, Num(1, 1, 1), 1, Modulus(q));
    PlusFlip(w, Num(1, 1, 0), -1, Base(q));
  }

  lemma FirstCorrected(w: nat, q: nat)
    requires Shape(w, q)
    ensures Corrected(w, FirstU(Base(q)), Base(q), Modulus(q))
         == Row(Base(q), Num(1, 4, Modulus(q) + 1), Num(-1, 3, Base(q)), 0, false)
  {
    hide Pow, Plus, Loss, Stuck, AddBoth, LimbCount, Base, Modulus;
    FirstCoefficients(w, q);
    var a, n := Base(q), Modulus(q);
    AddBothFree(w, FirstU(a), 1, n, -1, a, a, n);
  }

  /** TU = A is even: one halving, with correction. */
  lemma FirstHalving(w: nat, q: nat)
    requires Shape(w, q)
    ensures HalveRow(w, FirstU(Base(q)), Base(q), Modulus(q))
         == Row(4 * q + 1, Num(1, 4, 8 * q + 3), Num(-1, 3, 4 * q + 1), 0, false)
  {
    hide Pow, Corrected, HalveRow;
    FirstCorrected(w, q);
    assert w >= 2;
    hide Shape;
    var a, n := Base(q), Modulus(q);
    var d := Row(a, Num(1, 4, n + 1), Num(-1, 3, a), 0, false);
    assert a == 2 * (4 * q + 1) && n + 1 == 2 * (8 * q + 3);
    HalveTo(w, FirstU(a), a, n, d);
  }

  lemma BaseParity(q: nat)
    ensures Base(q) > 0 && Base(q) % 2 == 0 && (4 * q + 1) % 2 == 1
  {
    hide Pow;
    DivModUnique(Base(q), 4 * q + 1, 0, 2);
    DivModUnique(4 * q + 1, 2 * q, 1, 2);
  }

  lemma First(w: nat, q: nat)
    requires Shape(w, q)
    ensures HalveAll(w, FirstU(Base(q)), Base(q), Modulus(q))
         == Row(4 * q + 1, Num(1, 4, 8 * q + 3), Num(-1, 3, 4 * q + 1), 0, false)
  {
    hide Pow, HalveRow, HalveAll;
    FirstHalving(w, q);
    assert w >= 2;
    BaseParity(q);
    hide Shape, Base, Modulus;
    HalvedOnce(w, FirstU(Base(q)), Row(4 * q + 1, Num(1, 4, 8 * q + 3), Num(-1, 3, 4 * q + 1), 0, false),
               Base(q), Modulus(q));
  }

  lemma FirstTurn(w: nat, q: nat)
    requires Shape(w, q)
    ensures var u := Row(4 * q + 1, Num(1, 4, 8 * q + 3), Num(-1, 3, 4 * q + 1), 0, false);
      Subtract(w, FirstV(Modulus(q)), u, Base(q), Modulus(q))
      == Row(12 * q + 4, Num(-1, 3, 8 * q + 3), Num(1, 3, 4 * q + 2), 0, false)
  {
    hide Pow, Plus, Loss, Stuck, AddBoth, LimbCount;
    var u, v := Row(4 * q + 1, Num(1, 4, 8 * q + 3), Num(-1, 3, 4 * q + 1), 0, false), FirstV(Modulus(q));
    ThreeLimbs(w, q, 8 * q + 3);
    ThreeLimbs(w, q, 4 * q + 1);
    ThreeLimbs(w, q, 4 * q + 2);
    PlusFlip(w, v.c1, -1, 8 * q + 3);
    PlusLong(w, v.c2, 1, 4 * q + 1);
    AddBothFree(w, v, -1, 8 * q + 3, 1, 4 * q + 1, Base(q), Modulus(q));
  }

  lemma SecondHalving(w: nat, q: nat)
    requires Shape(w, q)
    ensures HalveRow(w, Row(12 * q + 4, Num(-1, 3, 8 * q + 3), Num(1, 3, 4 * q + 2), 0, false), Base(q), Modulus(q))
         == Row(6 * q + 2, Num(1, 4, 4 * q + 1), Num(-1, 3, 2 * q), 0, false)
  {
    hide Pow, Plus, Loss, Stuck, AddBoth, HalveRow, LimbCount;
    var a, n, r := Base(q), Modulus(q), Row(12 * q + 4, Num(-1, 3, 8 * q + 3), Num(1, 3, 4 * q + 2), 0, false);
    FourLimbs(w, q, n);
    ThreeLimbs(w, q, a);
    PlusFlip(w, r.c1, 1, n);
    PlusFlip(w, r.c2, -1, a);
    AddBothFree(w, r, 1, n, -1, a, a, n);
    HalveTo(w, r, a, n, Row(12 * q + 4, Num(1, 4, 8 * q + 2), Num(-1, 3, 4 * q), 0, false));
  }

  lemma SecondAgain(w: nat, q: nat)
    requires Shape(w, q)
    ensures HalveRow(w, Row(6 * q + 2, Num(1, 4, 4 * q + 1), Num(-1, 3, 2 * q), 0, false), Base(q), Modulus(q))
         == Row(3 * q + 1, Num(1, 4, 10 * q + 3), Num(-1, 3, 5 * q + 1), 0, false)
  {
    hide Pow, HalveRow;
    SecondHalves(q);
    HalveCorrected(w, q, Row(6 * q + 2, Num(1, 4, 4 * q + 1), Num(-1, 3, 2 * q), 0, false));
  }

  lemma SecondHalves(q: nat)
    ensures (6 * q + 2) / 2 == 3 * q + 1 && 0 / 2 == 0
    ensures (4 * q + 1) % 2 == 1 && (4 * q + 1 + Modulus(q)) / 2 == 10 * q + 3
    ensures (2 * q) % 2 == 0 && (2 * q + Base(q)) / 2 == 5 * q + 1
  {
    hide Pow;
    DivModUnique(6 * q + 2, 3 * q + 1, 0, 2);
    DivModUnique(4 * q + 1, 2 * q, 1, 2);
    DivModUnique(4 * q + 1 + Modulus(q), 10 * q + 3, 0, 2);
    DivModUnique(2 * q, q, 0, 2);
    DivModUnique(2 * q + Base(q), 5 * q + 1, 0, 2);
  }

  lemma SecondTwice(w: nat, q: nat)
    requires Shape(w, q)
    ensures HalveAll(w, Row(6 * q + 2, Num(1, 4, 4 * q + 1), Num(-1, 3, 2 * q), 0, false), Base(q), Modulus(q))
         == Row(3 * q + 1, Num(1, 4, 10 * q + 3), Num(-1, 3, 5 * q + 1), 0, false)
  {
    hide Pow, HalveRow, HalveAll;
    SecondAgain(w, q);
    HalvedOnce(w, Row(6 * q + 2, Num(1, 4, 4 * q + 1), Num(-1, 3, 2 * q), 0, false),
               Row(3 * q + 1, Num(1, 4, 10 * q + 3), Num(-1, 3, 5 * q + 1), 0, false), Base(q), Modulus(q));
  }

  lemma Second(w: nat, q: nat)
    requires Shape(w, q)
    ensures HalveAll(w, Row(12 * q + 4, Num(-1, 3, 8 * q + 3), Num(1, 3, 4 * q + 2), 0, false), Base(q), Modulus(q))
         == Row(3 * q + 1, Num(1, 4, 10 * q + 3), Num(-1, 3, 5 * q + 1), 0, false)
  {
    hide Pow, HalveRow, HalveAll;
    SecondTwice(w, q);
    SecondHalving(w, q);
    HalvedFirst(w, Row(12 * q + 4, Num(-1, 3, 8 * q + 3), Num(1, 3, 4 * q + 2), 0, false), Base(q), Modulus(q));
  }

  lemma HalvedOnce(w: nat, r: Row, h: Row, a: nat, n: nat)
    requires w >= 2 && r.t > 0 && r.t % 2 == 0 && h == HalveRow(w, r, a, n) && h.t % 2 == 1
    ensures HalveAll(w, r, a, n) == h
  {
    hide Pow, HalveRow;
    HalvesNumber(w, r, a, n);
    OddStays(w, h, a, n);
  }

  lemma SecondTurn(w: nat, q: nat)
    requires Shape(w, q)
    ensures var u := Row(4 * q + 1, Num(1, 4, 8 * q + 3), Num(-1, 3, 4 * q + 1), 0, false);
      var v := Row(3 * q + 1, Num(1, 4, 10 * q + 3), Num(-1, 3, 5 * q + 1), 0, false);
      Subtract(w, u, v, Base(q), Modulus(q)) == Row(q, Num(-1, 4, 2 * q), Num(1, 3, q), 0, false)
  {
    hide Pow, Plus, Loss, Stuck, AddBoth, LimbCount;
    var u := Row(4 * q + 1, Num(1, 4, 8 * q + 3), Num(-1, 3, 4 * q + 1), 0, false);
    ThreeLimbs(w, q, 10 * q + 3);
    ThreeLimbs(w, q, 5 * q + 1);
    PlusFlip(w, u.c1, -1, 10 * q + 3);
    PlusFlip(w, u.c2, 1, 5 * q + 1);
    AddBothFree(w, u, -1, 10 * q + 3, 1, 5 * q + 1, Base(q), Modulus(q));
  }

  /** A number and its coefficients times p. */
  function Scaled(r: Row, p: nat): Row {
    Row(r.t * p, Num(r.c1.s, r.c1.n, r.c1.v * p), Num(r.c2.s, r.c2.n, r.c2.v * p), r.e, r.stuck)
  }

  lemma ScaledTwice(r: Row, p: nat)
    requires r.t > 0 && p > 0
    ensures Scaled(r, 2 * p).t == 2 * Scaled(r, p).t && Scaled(r, p).t > 0
    ensures Scaled(r, 2 * p).c1.v == 2 * Scaled(r, p).c1.v
    ensures Scaled(r, 2 * p).c2.v == 2 * Scaled(r, p).c2.v
  {
    Associate(2, r.t, p);
    Associate(2, r.c1.v, p);
    Associate(2, r.c2.v, p);
    MulLe2(1, r.t, p);
  }

  lemma ScaledOnce(r: Row)
    ensures Scaled(r, 1) == r
  {}

  /** They shrink together. */
  lemma {:induction false} Strip(w: nat, r: Row, k: nat, a: nat, n: nat)
    requires w >= 2 && r.t % 2 == 1 && r.e == 0
    ensures HalveAll(w, Scaled(r, Pow2(k)), a, n) == r
    decreases k
  {
    hide Pow, Pow2, HalveRow, HalveAll;
    if k == 0 {
      Pow2Zero();
      ScaledOnce(r);
      OddStays(w, r, a, n);
    } else {
      Strip(w, r, k - 1, a, n);
      Pow2Step(k - 1);
      ScaledTwice(r, Pow2(k - 1));
      PlainHalving(w, Scaled(r, Pow2(k - 1)), a, n);
    }
  }

  lemma PlainHalving(w: nat, h: Row, a: nat, n: nat)
    requires w >= 2 && h.t > 0 && h.e == 0
    ensures HalveAll(w, Row(2 * h.t, Num(h.c1.s, h.c1.n, 2 * h.c1.v), Num(h.c2.s, h.c2.n, 2 * h.c2.v), 0, h.stuck),
                     a, n)
         == HalveAll(w, h, a, n)
  {
    hide AddBoth, HalveRow;
    var r := Row(2 * h.t, Num(h.c1.s, h.c1.n, 2 * h.c1.v), Num(h.c2.s, h.c2.n, 2 * h.c2.v), 0, h.stuck);
    HalveTo(w, r, a, n, r);
    HalvedFirst(w, r, a, n);
  }

  /** TU is a power of two and so are its coefficients. */
  lemma Third(w: nat, k: nat, a: nat, n: nat)
    requires w >= 2
    ensures HalveAll(w, Row(Pow2(k), Num(-1, 4, 2 * Pow2(k)), Num(1, 3, Pow2(k)), 0, false), a, n)
         == Row(1, Num(-1, 4, 2), Num(1, 3, 1), 0, false)
  {
    hide Pow2, HalveAll;
    Strip(w, Row(1, Num(-1, 4, 2), Num(1, 3, 1), 0, false), k, a, n);
  }

  lemma ThirdTurn(w: nat, q: nat)
    requires Shape(w, q) && Cube(w, q)
    ensures var v := Row(3 * q + 1, Num(1, 4, 10 * q + 3), Num(-1, 3, 5 * q + 1), 0, false);
      var u := Row(1, Num(-1, 4, 2), Num(1, 3, 1), 0, false);
      Subtract(w, v, u, Base(q), Modulus(q)) == Row(3 * q, Num(1, 4, 10 * q + 5), Num(-1, 3, 5 * q + 2), 0, false)
  {
    hide Pow, Plus, Loss, Stuck, AddBoth, LimbCount;
    var v := Row(3 * q + 1, Num(1, 4, 10 * q + 3), Num(-1, 3, 5 * q + 1), 0, false);
    var h := w / 16;
    Associate(10, h, w * w);
    Associate(5, h, w * w);
    FewLimbs(w, q, 10 * q + 5);
    FewLimbs(w, q, 5 * q + 2);
    PlusShortRoom(w, v.c1, 1, 2, 10 * h, 3);
    PlusShortRoom(w, v.c2, -1, 1, 5 * h, 1);
    AddBothFree(w, v, 1, 2, -1, 1, Base(q), Modulus(q));
  }

  /** TV as three times p, with coefficients that run up to N - 6 and A - 3 as p goes down to one. */
  function FourthRow(q: nat, p: nat): Row
    requires p <= q
  {
    Row(3 * p, Num(1, 4, Modulus(q) - 6 * p), Num(-1, 3, Base(q) - 3 * p), 0, false)
  }

  lemma FourthParity(q: nat, p: nat)
    requires 2 * p <= q
    ensures (Modulus(q) - 12 * p) % 2 == 1 && (Base(q) - 6 * p) % 2 == 0
  {
    hide Pow;
    DivModUnique(Modulus(q) - 12 * p, 8 * q + 2 - 6 * p, 1, 2);
    DivModUnique(Base(q) - 6 * p, 4 * q + 1 - 3 * p, 0, 2);
  }

  lemma FourthHalf(q: nat, p: nat)
    requires 2 * p <= q
    ensures (6 * p) / 2 == 3 * p
    ensures (Modulus(q) - 12 * p + Modulus(q)) / 2 == Modulus(q) - 6 * p
    ensures (Base(q) - 6 * p + Base(q)) / 2 == Base(q) - 3 * p
  {
    hide Pow;
    DivModUnique(6 * p, 3 * p, 0, 2);
    DivModUnique(Modulus(q) - 12 * p + Modulus(q), Modulus(q) - 6 * p, 0, 2);
    DivModUnique(Base(q) - 6 * p + Base(q), Base(q) - 3 * p, 0, 2);
  }

  lemma FourthStep(w: nat, q: nat, p: nat)
    requires Shape(w, q) && 0 < p && 2 * p <= q
    ensures HalveRow(w, FourthRow(q, 2 * p), Base(q), Modulus(q)) == FourthRow(q, p)
    ensures HalveAll(w, FourthRow(q, 2 * p), Base(q), Modulus(q)) == HalveAll(w, FourthRow(q, p), Base(q), Modulus(q))
  {
    hide Pow, HalveRow, HalveAll;
    var r := FourthRow(q, 2 * p);
    FourthParity(q, p);
    HalveCorrected(w, q, r);
    assert w >= 2;
    hide Shape;
    FourthHalf(q, p);
    HalvedFirst(w, r, Base(q), Modulus(q));
  }

  lemma HalvedFirst(w: nat, r: Row, a: nat, n: nat)
    requires w >= 2 && r.t > 0 && r.t % 2 == 0
    ensures HalveRow(w, r, a, n).t > 0 && HalveAll(w, r, a, n) == HalveAll(w, HalveRow(w, r, a, n), a, n)
  {
    hide Pow, HalveRow;
    HalvesNumber(w, r, a, n);
  }

  lemma {:induction false} Fourth(w: nat, q: nat, k: nat)
    requires Shape(w, q) && Pow2(k) <= q
    ensures w >= 2 && HalveAll(w, FourthRow(q, Pow2(k)), Base(q), Modulus(q)) == FourthRow(q, 1)
    decreases k
  {
    hide Pow, Pow2, HalveRow, HalveAll;
    if k == 0 {
      Pow2Step(0);
      OddStays(w, FourthRow(q, 1), Base(q), Modulus(q));
    } else {
      Pow2Step(k - 1);
      FourthStep(w, q, Pow2(k - 1));
      Fourth(w, q, k - 1);
    }
  }

  lemma OddStays(w: nat, r: Row, a: nat, n: nat)
    requires w >= 2 && r.t % 2 == 1
    ensures HalveAll(w, r, a, n) == r
  {
    hide Pow, HalveRow;
  }

  /** Both carries stick. */
  lemma FourthTurn(w: nat, q: nat)
    requires Shape(w, q) && Cube(w, q)
    ensures var v := Row(3, Num(1, 4, 16 * q - 1), Num(-1, 3, 8 * q - 1), 0, false);
      var u := Row(1, Num(-1, 4, 2), Num(1, 3, 1), 0, false);
      var l := w * w - w;
      0 <= l < 8 * q
      && Subtract(w, v, u, Base(q), Modulus(q))
         == Row(2, Num(1, 4, 16 * q + 1 - l), Num(-1, 3, 8 * q - l), l * Base(q) - l * Modulus(q), true)
  {
    hide Pow, LimbCount;
    var v := Row(3, Num(1, 4, 16 * q - 1), Num(-1, 3, 8 * q - 1), 0, false);
    var h := w / 16;
    Associate(16, h, w * w);
    Associate(8, h, w * w);
    MulLe2(1, w, w);
    FewLimbs(w, q, 16 * q + 1);
    FewLimbs(w, q, 8 * q);
    PlusShortStuck(w, v.c1, 1, 2, 16 * h);
    PlusShortStuck(w, v.c2, -1, 1, 8 * h);
    hide Pow, Plus, Loss, Stuck;
    StuckTurn(w, v, w * w - w, Base(q), Modulus(q));
  }

  lemma StuckTurn(w: nat, v: Row, l: nat, ta: nat, tb: nat)
    requires w >= 2 && v.t == 3 && v.e == 0 && v.c1.s == 1 && v.c2.s == -1
    requires Stuck(w, v.c1, 2) && Loss(w, v.c1, 2) == l && Stuck(w, v.c2, 1) && Loss(w, v.c2, 1) == l
    ensures Subtract(w, v, Row(1, Num(-1, 4, 2), Num(1, 3, 1), 0, false), ta, tb)
         == Row(2, Plus(w, v.c1, 1, 2), Plus(w, v.c2, -1, 1), l * ta - l * tb, true)
  {
    hide Pow, Plus, Loss, Stuck;
  }

  /** One more halving, and the run is over. */
  lemma Fifth(w: nat, q: nat, l: nat, e: int)
    requires Shape(w, q) && 2 < l < 8 * q && l % 2 == 0
    ensures var v := Row(2, Num(1, 4, 16 * q + 1 - l), Num(-1, 3, 8 * q - l), e, true);
      var r := HalveAll(w, v, Base(q), Modulus(q));
      r.t == 1 && r.c1 == Num(1, 4, 16 * q + 3 - l / 2) && r.stuck && r.e == e / 2
  {
    hide Pow, HalveRow, HalveAll;
    var r := Row(2, Num(1, 4, 16 * q + 1 - l), Num(-1, 3, 8 * q - l), e, true);
    var h := Row(1, Num(1, 4, 16 * q + 3 - l / 2), Num(-1, 3, 8 * q + 1 - l / 2), e / 2, true);
    assert HalveRow(w, r, Base(q), Modulus(q)) == h by { HalveCorrected(w, q, r); }
    HalvedOnce(w, r, h, Base(q), Modulus(q));
  }

  lemma RunUp(w: nat, u: Row, v: Row, u1: Row, v1: Row, v2: Row, a: nat, n: nat)
    requires w >= 2 && u.t > 0 && v.t > 0 && HalveAll(w, u, a, n) == u1 && HalveAll(w, v, a, n) == v1
    requires u1.t < v1.t && Subtract(w, v1, u1, a, n) == v2
    ensures v2.t > 0 && Run(w, u, v, a, n) == Run(w, u1, v2, a, n)
  {
    hide HalveAll, AddBoth;
  }

  lemma RunDown(w: nat, u: Row, v: Row, u1: Row, v1: Row, u2: Row, a: nat, n: nat)
    requires w >= 2 && u.t > 0 && v.t > 0 && HalveAll(w, u, a, n) == u1 && HalveAll(w, v, a, n) == v1
    requires u1.t > v1.t && Subtract(w, u1, v1, a, n) == u2
    ensures u2.t > 0 && Run(w, u, v, a, n) == Run(w, u2, v1, a, n)
  {
    hide HalveAll, AddBoth;
  }

  /** The first two turns. */
  lemma RunToThird(w: nat, q: nat)
    requires Shape(w, q)
    ensures Outcome(w, Base(q), Modulus(q))
         == Run(w, Row(q, Num(-1, 4, 2 * q), Num(1, 3, q), 0, false),
                Row(3 * q + 1, Num(1, 4, 10 * q + 3), Num(-1, 3, 5 * q + 1), 0, false), Base(q), Modulus(q))
  {
    hide Pow, HalveAll, Subtract, Run;
    var a, n := Base(q), Modulus(q);
    var u1 := Row(4 * q + 1, Num(1, 4, 8 * q + 3), Num(-1, 3, 4 * q + 1), 0, false);
    var v1 := Row(12 * q + 4, Num(-1, 3, 8 * q + 3), Num(1, 3, 4 * q + 2), 0, false);
    var v2 := Row(3 * q + 1, Num(1, 4, 10 * q + 3), Num(-1, 3, 5 * q + 1), 0, false);
    First(w, q);
    OddStays(w, FirstV(n), a, n);
    FirstTurn(w, q);
    RunUp(w, FirstU(a), FirstV(n), u1, FirstV(n), v1, a, n);
    OddStays(w, u1, a, n);
    Second(w, q);
    SecondTurn(w, q);
    RunDown(w, u1, v1, u1, v2, Row(q, Num(-1, 4, 2 * q), Num(1, 3, q), 0, false), a, n);
  }

  /** The third, which brings TU to one. */
  lemma RunToFourth(w: nat, q: nat, k: nat)
    requires Shape(w, q) && Cube(w, q) && q == Pow2(k)
    ensures Run(w, Row(q, Num(-1, 4, 2 * q), Num(1, 3, q), 0, false),
                Row(3 * q + 1, Num(1, 4, 10 * q + 3), Num(-1, 3, 5 * q + 1), 0, false), Base(q), Modulus(q))
         == Run(w, Row(1, Num(-1, 4, 2), Num(1, 3, 1), 0, false), FourthRow(q, q), Base(q), Modulus(q))
  {
    hide Pow, Pow2, HalveAll, Subtract, Run;
    var a, n := Base(q), Modulus(q);
    var v := Row(3 * q + 1, Num(1, 4, 10 * q + 3), Num(-1, 3, 5 * q + 1), 0, false);
    Third(w, k, a, n);
    OddStays(w, v, a, n);
    ThirdTurn(w, q);
    RunUp(w, Row(q, Num(-1, 4, 2 * q), Num(1, 3, q), 0, false), v,
          Row(1, Num(-1, 4, 2), Num(1, 3, 1), 0, false), v, FourthRow(q, q), a, n);
  }

  /** The fourth, in which the carries stick, and the end. */
  lemma RunToEnd(w: nat, q: nat, k: nat)
    requires Shape(w, q) && Cube(w, q) && q == Pow2(k)
    ensures var l := w * w - w;
      var r := Run(w, Row(1, Num(-1, 4, 2), Num(1, 3, 1), 0, false), FourthRow(q, q), Base(q), Modulus(q));
      0 < l < 8 * q && r.stuck && r.c1 == Num(1, 4, 16 * q + 3 - l / 2)
  {
    hide Pow, Pow2, HalveAll, Subtract, Run;
    var a, n, l := Base(q), Modulus(q), w * w - w;
    var u := Row(1, Num(-1, 4, 2), Num(1, 3, 1), 0, false);
    var e := l * a - l * n;
    LossSize(w);
    Fourth(w, q, k);
    OddStays(w, u, a, n);
    FourthTurn(w, q);
    var v := Row(2, Num(1, 4, 16 * q + 1 - l), Num(-1, 3, 8 * q - l), e, true);
    Fifth(w, q, l, e);
    assert w >= 2;
    hide Shape, Cube;
    RunUp(w, u, FourthRow(q, q), u, FourthRow(q, 1), v, a, n);
    RunOver(w, u, v, a, n);
  }

  lemma RunOver(w: nat, u: Row, v: Row, a: nat, n: nat)
    requires w >= 2 && u.t == 1 && v.t > 0 && HalveAll(w, v, a, n).t == 1
    ensures Run(w, u, v, a, n) == HalveAll(w, v, a, n)
  {
    OddStays(w, u, a, n);
    hide HalveAll, Subtract;
  }

  lemma LossSize(w: nat)
    requires w >= 65536 && w % 16 == 0
    ensures w * w - w > 2 && (w * w - w) % 2 == 0
  {
    assert w == 2 * (8 * (w / 16));
    EvenSquare(w, 8 * (w / 16));
    MulLe2(2, w, w);
    EvenDifference(w * w, w);
  }

  lemma EvenDifference(s: nat, w: nat)
    requires s % 2 == 0 && w % 2 == 0 && w > 2 && s >= 2 * w
    ensures s - w > 2 && (s - w) % 2 == 0
  {
    hide Pow;
    var i, j := s / 2, w / 2;
    assert s == 2 * i && w == 2 * j;
    assert s - w == 2 * (i - j);
    DivModUnique(s - w, i - j, 0, 2);
  }

  lemma EvenSquare(w: nat, h: nat)
    requires w == 2 * h
    ensures (w * w) % 2 == 0
  {
    EvenProduct(h, w);
  }

  /** An inverse less something below the modulus is no inverse. */
  lemma NoLongerInverse(a: int, y: int, m: nat, n: nat)
    requires n > 1 && Cong(a * y, 1, n) && 0 < m < n
    ensures !Cong(a * (y - m), 1, n)
  {
    hide Cong;
    if Cong(a * (y - m), 1, n) {
      Distribute(y, m, a);
      CongAdd(a * y, 1, a * (y - m), 1, n);
      CongRefl(y, n);
      CongRefl(m, n);
      CongMul(a * m, 0, y, y, n);
      CongMul(a * y, 1, m, m, n);
      assert (a * m) * y == (a * y) * m by {
        Associate(a, m, y);
        Associate(a, y, m);
        Associate(m, y, 1);
      }
      CongSym((a * y) * m, m, n);
      CongTrans(m, (a * y) * m, 0, n);
      CongUnique(m, 0, n);
    }
  }

  lemma BaseInverse(q: nat)
    requires q > 0
    ensures Cong(Base(q) * (16 * q + 3), 1, Modulus(q)) && Gcd(Base(q), Modulus(q)) == 1
  {
    hide Cong, Gcd;
    var a, n := Base(q), Modulus(q);
    Distribute(n, 2, a);
    Distribute(a, 1, n);
    CongIntro(a * (16 * q + 3), 1, n, a - 1);
    GcdIsGreatest(a, n);
    var g := Gcd(a, n);
    DividesCombo(g, a, n, -2, 1);
    DividesLe(g, 1);
  }

  lemma Weights(w: nat)
    requires w >= 2
    ensures Pow(w, 1) == w && Pow(w, 2) == w * w && Pow(w, 3) == w * w * w && Pow(w, 4) == w * w * w * w
  {
    hide Pow;
    WeightStep(w, 0);
    WeightStep(w, 1);
    WeightStep(w, 2);
    WeightStep(w, 3);
  }

  /** W is sixteen times a power of two, and so is its cube. */
  lemma WidthPowers(q: nat, h: nat)
    requires q == Pow2(3 * biL - 4) && h == Pow2(biL - 4)
    ensures W == 16 * h && h >= 1 && q == h * (W * W) && q % 2 == 0
  {
    hide Pow, Pow2;
    WIsPow2(4);
    SixteenIs();
    WIsPow2(biL);
    Pow2Zero();
    Pow2Add(biL - 4, 2 * biL);
    Pow2Add(biL, biL);
    Pow2Step(3 * biL - 5);
  }

  lemma ShapeOf(w: nat, q: nat, h: nat)
    requires w >= 65536 && w == 16 * h && q == h * (w * w) && q % 2 == 0
    ensures Shape(w, q) && Cube(w, q) && 16 * q == w * w * w
  {
    Weights(w);
    hide Pow;
    var s := w * w;
    Associate(16, h, s);
    Associate(w, w, w);
    var c := 16 * q;
    assert Pow(w, 3) == c && Pow(w, 4) == c * w;
    SizesOf(w, h, s, q, c * w);
  }

  lemma SizesOf(w: nat, h: nat, s: nat, q: nat, f: nat)
    requires w >= 65536 && h >= 1 && s == w * w && q == h * s && f == (16 * q) * w
    ensures s <= q && q >= 65536 && f > 100 * q
  {
    MulLe2(1, w, w);
    MulLe2(1, h, s);
    MulLe2(65536, w, 16 * q);
    Associate(16, q, w);
  }

  lemma WidthShape(q: nat)
    requires q == Pow2(3 * biL - 4)
    ensures Shape(W, q) && Cube(W, q) && 16 * q == W * W * W
  {
    var h := Pow2(biL - 4);
    WidthPowers(q, h);
    WBound();
    hide Pow, Pow2, Shape, Cube;
    ShapeOf(W, q, h);
  }

  lemma SixteenIs()
    ensures Pow2(4) == 16
  {
  }

  /**
   * In every limb width the run goes wrong for A = W^3 / 2 + 2 and
   * N = W^3 + 5: two carries stick, and what is found is no inverse.
   */
  lemma FourLimbsGoWrong()
    ensures var q := Pow2(3 * biL - 4);
      var a, n := 8 * q + 2, 16 * q + 5;
      16 * q == W * W * W && 0 < a < n && Gcd(a, n) == 1
      && W >= 2 && Outcome(W, a, n).stuck && !Cong(a * Value(Outcome(W, a, n).c1), 1, n)
  {
    hide Pow, Pow2, Cong, Gcd, Shape, Cube, Run;
    var q := Pow2(3 * biL - 4);
    WidthShape(q);
    WBound();
    var l := W * W - W;
    RunToThird(W, q);
    RunToFourth(W, q, 3 * biL - 4);
    RunToEnd(W, q, 3 * biL - 4);
    BaseInverse(q);
    CubeSays(W, q);
    LossSize(W);
    NoLongerInverse(Base(q), 16 * q + 3, l / 2, Modulus(q));
  }

  lemma CubeSays(w: nat, q: nat)
    requires Cube(w, q)
    ensures w % 16 == 0
  {
  }

  // ---- two limbs can be too many: a run in limbs of 16 bits ----

  lemma Counts(v: nat)
    requires 65536 <= v < 281474976710656
    ensures LimbCount(65536, v) == if v < 4294967296 then 2 else 3
  {
    Weights(65536);
    hide Pow;
    LimbsBetween(65536, v, if v < 4294967296 then 1 else 2);
  }

  /** An addition of which one knows the outcome y, and that no carry sticks in it. */
  ghost predicate Known(x: Num, s: int, b: nat, y: Num) {
    Plus(65536, x, s, b) == y && (x.s == s ==> Loss(65536, x, b) == 0)
  }

  lemma PlusKnown(x: Num, s: int, b: nat)
    requires 1 <= x.n <= 3 && 65536 <= b < 4294967296 && x.v < 140737488355328
    ensures Known(x, s, b,
      if x.s == s then Num(s, if x.n == 3 || x.v + b >= 4294967296 then 3 else 2, x.v + b)
      else if x.v >= b then Num(x.s, x.n, x.v - b)
      else Num(-x.s, if x.n >= 2 then x.n else 2, b - x.v))
  {
    hide Pow, LimbCount, Loss, Stuck;
    Counts(b);
    Counts(x.v + b);
    if x.s == s {
      PlusLong(65536, x, s, b);
    }
  }

  lemma PlusLittle(x: Num, s: int)
    requires x.n == 2 && 65536 <= x.v < 4294967296
    ensures x.s != s ==> Known(x, s, 1, Num(x.s, x.n, x.v - 1))
    ensures x.s == s ==> Known(x, s, 0, x)
  {
    hide Pow, LimbCount;
    Counts(x.v);
    assert LimbCount(65536, 0) == 0;
    ShortNeverSticks(65536, x, 0);
    hide Loss, Stuck;
  }

  lemma HalveKnown(r: Row, y1: Num, y2: Num, a: nat, n: nat)
    requires Known(r.c1, 1, n, y1) && Known(r.c2, -1, a, y2) && y1.v % 2 == 0 && y2.v % 2 == 0
    requires (r.c1.v % 2 == 1 || r.c2.v % 2 == 1) && r.e == 0
    ensures HalveRow(65536, r, a, n) == Row(r.t / 2, Half(y1), Half(y2), 0, r.stuck)
  {
    hide Plus, Loss, Stuck, AddBoth, HalveRow;
    AddBothFree(65536, r, 1, n, -1, a, a, n);
    HalveTo(65536, r, a, n, Row(r.t, y1, y2, 0, r.stuck));
  }

  lemma SubtractKnown(r: Row, q: Row, y1: Num, y2: Num, a: nat, n: nat)
    requires Known(r.c1, -q.c1.s, q.c1.v, y1) && Known(r.c2, -q.c2.s, q.c2.v, y2)
    requires r.t >= q.t && r.e == 0 && q.e == 0 && !r.stuck && !q.stuck
    ensures Subtract(65536, r, q, a, n) == Row(r.t - q.t, y1, y2, 0, false)
  {
    hide Plus, Loss, Stuck, AddBoth;
    AddBothFree(65536, r, -q.c1.s, q.c1.v, -q.c2.s, q.c2.v, a, n);
  }

  const A16: nat := 151859749
  const N16: nat := 4180640084

  // Its rows, before and after each halving.
  const U0: Row := Row(151859749, Num(1, 1, 1), Num(1, 1, 0), 0, false)
  const V0: Row := Row(4180640084, Num(1, 1, 0), Num(1, 1, 1), 0, false)
  const V0_HALVED: Row := Row(1045160021, Num(1, 2, 1045160021), Num(-1, 2, 37964937), 0, false)
  const V1: Row := Row(893300272, Num(1, 2, 1045160020), Num(-1, 2, 37964937), 0, false)
  const V1_HALVED: Row := Row(55831267, Num(1, 3, 2939512559), Num(-1, 2, 106776386), 0, false)
  const U1: Row := Row(96028482, Num(-1, 2, 2939512558), Num(1, 2, 106776386), 0, false)
  const U1_HALVED: Row := Row(48014241, Num(-1, 2, 1469756279), Num(1, 2, 53388193), 0, false)
  const V2: Row := Row(7817026, Num(1, 3, 4409268838), Num(-1, 2, 160164579), 0, false)
  const V2_HALVED: Row := Row(3908513, Num(1, 3, 4294954461), Num(-1, 2, 156012164), 0, false)
  const U2: Row := Row(44105728, Num(-1, 3, 5764710740), Num(1, 2, 209400357), 0, false)
  const U2_HALVED: Row := Row(673, Num(-1, 3, 24171), Num(1, 2, 878), 0, false)

  lemma Turn1()
    ensures HalveAll(65536, V0, A16, N16)
         == V0_HALVED
  {
    hide Plus, Loss, Stuck, Pow, LimbCount, AddBoth, HalveRow, HalveAll, Known;
    var r0 := V0;
    PlusKnown(r0.c1, 1, N16);
    PlusKnown(r0.c2, -1, A16);
    HalveKnown(r0, Num(1, 2, 4180640084), Num(-1, 2, 151859748), A16, N16);
    HalvedFirst(65536, r0, A16, N16);
    PlainHalving(65536, V0_HALVED, A16, N16);
    OddStays(65536, V0_HALVED, A16, N16);
  }

  lemma Turn2()
    ensures HalveAll(65536, V1, A16, N16)
         == V1_HALVED
  {
    hide Plus, Loss, Stuck, Pow, LimbCount, AddBoth, HalveRow, HalveAll, Known;
    var r0 := V1;
    PlusKnown(r0.c1, 1, N16);
    PlusKnown(r0.c2, -1, A16);
    HalveKnown(r0, Num(1, 3, 5225800104), Num(-1, 2, 189824686), A16, N16);
    HalvedFirst(65536, r0, A16, N16);
    var r1 := Row(446650136, Num(1, 3, 2612900052), Num(-1, 2, 94912343), 0, false);
    PlusKnown(r1.c1, 1, N16);
    PlusKnown(r1.c2, -1, A16);
    HalveKnown(r1, Num(1, 3, 6793540136), Num(-1, 2, 246772092), A16, N16);
    HalvedFirst(65536, r1, A16, N16);
    PlainHalving(65536, Row(111662534, Num(1, 3, 1698385034), Num(-1, 2, 61693023), 0, false), A16, N16);
    var r3 := Row(111662534, Num(1, 3, 1698385034), Num(-1, 2, 61693023), 0, false);
    PlusKnown(r3.c1, 1, N16);
    PlusKnown(r3.c2, -1, A16);
    HalveKnown(r3, Num(1, 3, 5879025118), Num(-1, 2, 213552772), A16, N16);
    HalvedFirst(65536, r3, A16, N16);
    OddStays(65536, V1_HALVED, A16, N16);
  }

  lemma Turn3()
    ensures HalveAll(65536, U1, A16, N16)
         == U1_HALVED
  {
    hide Plus, Loss, Stuck, Pow, LimbCount, AddBoth, HalveRow, HalveAll, Known;
    PlainHalving(65536, U1_HALVED, A16, N16);
    OddStays(65536, U1_HALVED, A16, N16);
  }

  lemma Turn4()
    ensures HalveAll(65536, V2, A16, N16)
         == V2_HALVED
  {
    hide Plus, Loss, Stuck, Pow, LimbCount, AddBoth, HalveRow, HalveAll, Known;
    var r0 := V2;
    PlusKnown(r0.c1, 1, N16);
    PlusKnown(r0.c2, -1, A16);
    HalveKnown(r0, Num(1, 3, 8589908922), Num(-1, 2, 312024328), A16, N16);
    HalvedFirst(65536, r0, A16, N16);
    OddStays(65536, V2_HALVED, A16, N16);
  }

  lemma Turn5()
    ensures HalveAll(65536, U2, A16, N16)
         == U2_HALVED
  {
    hide Plus, Loss, Stuck, Pow, Pow2, LimbCount, AddBoth, HalveRow, HalveAll, Known;
    var r := U2;
    PlusKnown(r.c1, 1, N16);
    PlusKnown(r.c2, -1, A16);
    HalveKnown(r, Num(-1, 3, 1584070656), Num(1, 2, 57540608), A16, N16);
    HalvedFirst(65536, r, A16, N16);
    FifteenBits();
    Strip(65536, U2_HALVED, 15, A16, N16);
  }

  lemma FifteenBits()
    ensures Pow2(15) == 32768
  {
    assert Pow2(7) == 128 && Pow2(8) == 256;
    Pow2Add(7, 8);
  }

  lemma Minus1()
    ensures Subtract(65536, V0_HALVED,
                     U0, A16, N16)
         == V1
  {
    hide Plus, Loss, Stuck, Pow, LimbCount, AddBoth, Known;
    var r := V0_HALVED;
    var q := U0;
    PlusLittle(r.c1, -q.c1.s);
    PlusLittle(r.c2, -q.c2.s);
    SubtractKnown(r, q, Num(1, 2, 1045160020), Num(-1, 2, 37964937), A16, N16);
  }

  lemma Minus2()
    ensures Subtract(65536, U0,
                     V1_HALVED, A16, N16)
         == U1
  {
    hide Plus, Loss, Stuck, Pow, LimbCount, AddBoth, Known;
    var r := U0;
    var q := V1_HALVED;
    PlusKnown(r.c1, -q.c1.s, q.c1.v);
    PlusKnown(r.c2, -q.c2.s, q.c2.v);
    SubtractKnown(r, q, Num(-1, 2, 2939512558), Num(1, 2, 106776386), A16, N16);
  }

  lemma Minus3()
    ensures Subtract(65536, V1_HALVED,
                     U1_HALVED, A16, N16)
         == V2
  {
    hide Plus, Loss, Stuck, Pow, LimbCount, AddBoth, Known;
    var r := V1_HALVED;
    var q := U1_HALVED;
    PlusKnown(r.c1, -q.c1.s, q.c1.v);
    PlusKnown(r.c2, -q.c2.s, q.c2.v);
    SubtractKnown(r, q, Num(1, 3, 4409268838), Num(-1, 2, 160164579), A16, N16);
  }

  lemma Minus4()
    ensures Subtract(65536, U1_HALVED,
                     V2_HALVED, A16, N16)
         == U2
  {
    hide Plus, Loss, Stuck, Pow, LimbCount, AddBoth, Known;
    var r := U1_HALVED;
    var q := V2_HALVED;
    PlusKnown(r.c1, -q.c1.s, q.c1.v);
    PlusKnown(r.c2, -q.c2.s, q.c2.v);
    SubtractKnown(r, q, Num(-1, 3, 5764710740), Num(1, 2, 209400357), A16, N16);
  }

  /** Here it sticks. */
  lemma Minus5()
    ensures Subtract(65536, V2_HALVED,
                     U2_HALVED, A16, N16).stuck
  {
    hide Pow, LimbCount, Plus, Loss, Lost;
    Weights(65536);
    OneLimb(65536, 24171);
  }

  /** A row that has lost something stays so. */
  lemma {:induction false} HalveAllStuck(w: nat, r: Row, a: nat, n: nat)
    requires w >= 2 && r.t > 0 && r.stuck
    ensures HalveAll(w, r, a, n).stuck
    decreases r.t
  {
    hide Plus, Loss, Stuck, Lost;
    if r.t % 2 == 0 {
      HalvesNumber(w, r, a, n);
      HalveAllStuck(w, HalveRow(w, r, a, n), a, n);
    }
  }

  lemma SubtractStuck(w: nat, r: Row, q: Row, a: nat, n: nat)
    requires w >= 2 && r.t >= q.t && (r.stuck || q.stuck)
    ensures Subtract(w, r, q, a, n).stuck
  {
    hide Plus, Loss, Stuck, Lost;
  }

  lemma {:induction false} RunStuck(w: nat, u: Row, v: Row, a: nat, n: nat)
    requires w >= 2 && u.t > 0 && v.t > 0 && v.stuck
    ensures Run(w, u, v, a, n).stuck
    decreases u.t + v.t
  {
    hide HalveAll, AddBoth;
    HalveAllStuck(w, v, a, n);
    var u1, v1 := HalveAll(w, u, a, n), HalveAll(w, v, a, n);
    if u1.t > v1.t {
      RunStuck(w, Subtract(w, u1, v1, a, n), v1, a, n);
    } else if u1.t < v1.t {
      SubtractStuck(w, v1, u1, a, n);
      RunStuck(w, u1, Subtract(w, v1, u1, a, n), a, n);
    }
  }

  // ---- the rest of that run, whatever has been lost ----

  /** What a row shows, apart from its losses. */
  predicate At(r: Row, t: nat, c1: Num, c2: Num) {
    r.t == t && r.c1 == c1 && r.c2 == c2
  }

  /** Adding two limbs of sign s, at base 65536. */
  function Sum16(x: Num, s: int, b: nat): Num {
    if x.s == s then Num(s, if x.n == 3 || x.v + b >= 4294967296 then 3 else 2, x.v + b)
    else if x.v >= b then Num(x.s, x.n, x.v - b)
    else Num(-x.s, if x.n >= 2 then x.n else 2, b - x.v)
  }

  predicate Small16(x: Num) {
    1 <= x.n <= 3 && x.v < 140737488355328
  }

  /** A halving with correction. */
  lemma Halve16(r: Row, t: nat, c1: Num, c2: Num) returns (h: Row)
    requires At(r, t, c1, c2) && t > 0 && t % 2 == 0 && (c1.v % 2 != 0 || c2.v % 2 != 0)
    requires Small16(c1) && Small16(c2)
    ensures At(h, t / 2, Half(Sum16(c1, 1, N16)), Half(Sum16(c2, -1, A16))) && h.t > 0
    ensures HalveAll(65536, r, A16, N16) == HalveAll(65536, h, A16, N16)
  {
    hide Plus, Loss, Lost, Stuck, Pow, LimbCount, HalveAll;
    PlusKnown(c1, 1, N16);
    PlusKnown(c2, -1, A16);
    h := HalveRow(65536, r, A16, N16);
    HalvedFirst(65536, r, A16, N16);
  }

  /** A halving without. */
  lemma Even16(r: Row, t: nat, c1: Num, c2: Num) returns (h: Row)
    requires At(r, t, c1, c2) && t > 0 && t % 2 == 0 && c1.v % 2 == 0 && c2.v % 2 == 0
    ensures At(h, t / 2, Half(c1), Half(c2)) && h.t > 0
    ensures HalveAll(65536, r, A16, N16) == HalveAll(65536, h, A16, N16)
  {
    hide AddBoth, HalveAll;
    h := HalveRow(65536, r, A16, N16);
    HalvedFirst(65536, r, A16, N16);
  }

  lemma Subtract16(r: Row, q: Row)
    requires r.t >= q.t && Small16(r.c1) && Small16(r.c2)
    requires 65536 <= q.c1.v < 4294967296 && 65536 <= q.c2.v < 4294967296
    ensures At(Subtract(65536, r, q, A16, N16), r.t - q.t,
               Sum16(r.c1, -q.c1.s, q.c1.v), Sum16(r.c2, -q.c2.s, q.c2.v))
  {
    hide Plus, Loss, Lost, Stuck, Pow, LimbCount;
    PlusKnown(r.c1, -q.c1.s, q.c1.v);
    PlusKnown(r.c2, -q.c2.s, q.c2.v);
  }

  /** Adding one limb where it does not stick. */
  lemma PlusOne16(x: Num, s: int, b: nat)
    requires x.s == s && 0 < b < 65536 <= x.v && x.v + b < 4294967296 && (x.n == 2 || x.n == 3)
    requires x.n == 3 ==> (x.v / 65536) % 65536 != 65535
    ensures Plus(65536, x, s, b) == Num(s, x.n, x.v + b)
  {
    hide Pow, LimbCount;
    Weights(65536);
    OneLimb(65536, b);
    Counts(x.v + b);
  }

  /** The addition that sticks. */
  lemma PlusStuck16()
    ensures Plus(65536, Num(1, 3, 4294954461), 1, 24171) == Num(1, 3, 76872)
  {
    hide Pow, LimbCount;
    Weights(65536);
    OneLimb(65536, 24171);
    Counts(76872);
  }

  lemma LastAt()
    ensures At(Subtract(65536, V2_HALVED, U2_HALVED, A16, N16), 3907840,
               Num(1, 3, 76872), Num(-1, 2, 156013042))
  {
    hide Plus, Loss, Lost, Stuck, Pow, LimbCount;
    PlusStuck16();
    PlusOne16(Num(-1, 2, 156012164), -1, 878);
  }

  lemma NextAt(v: Row)
    requires At(v, 15265, Num(1, 3, 1927014089), Num(-1, 2, 70607279))
    ensures At(Subtract(65536, v, U2_HALVED, A16, N16), 14592,
               Num(1, 3, 1927038260), Num(-1, 2, 70608157))
  {
    hide Plus, Loss, Lost, Stuck, Pow, LimbCount;
    PlusOne16(Num(1, 3, 1927014089), 1, 24171);
    PlusOne16(Num(-1, 2, 70607279), -1, 878);
  }

  lemma LateTurn1(r: Row)
    requires At(r, 3907840, Num(1, 3, 76872), Num(-1, 2, 156013042))
    ensures At(HalveAll(65536, r, A16, N16), 15265, Num(1, 3, 1927014089), Num(-1, 2, 70607279))
  {
    hide Plus, Loss, Stuck, Pow, LimbCount, AddBoth, HalveRow, HalveAll;
    var r1 := Even16(r, 3907840, Num(1, 3, 76872), Num(-1, 2, 156013042));
    var r2 := Halve16(r1, 1953920, Num(1, 3, 38436), Num(-1, 2, 78006521));
    var r3 := Halve16(r2, 976960, Num(1, 3, 2090339260), Num(-1, 2, 114933135));
    var r4 := Even16(r3, 488480, Num(1, 3, 3135489672), Num(-1, 2, 133396442));
    var r5 := Halve16(r4, 244240, Num(1, 3, 1567744836), Num(-1, 2, 66698221));
    var r6 := Halve16(r5, 122120, Num(1, 3, 2874192460), Num(-1, 2, 109278985));
    var r7 := Halve16(r6, 61060, Num(1, 3, 3527416272), Num(-1, 2, 130569367));
    var r8 := Even16(r7, 30530, Num(1, 3, 3854028178), Num(-1, 2, 141214558));
    OddStays(65536, r8, A16, N16);
  }

  lemma LateTurn2(r: Row)
    requires At(r, 14592, Num(1, 3, 1927038260), Num(-1, 2, 70608157))
    ensures At(HalveAll(65536, r, A16, N16), 57, Num(1, 3, 1689581902), Num(-1, 2, 61375634))
  {
    hide Plus, Loss, Stuck, Pow, LimbCount, AddBoth, HalveRow, HalveAll;
    var r1 := Halve16(r, 14592, Num(1, 3, 1927038260), Num(-1, 2, 70608157));
    var r2 := Halve16(r1, 7296, Num(1, 3, 3053839172), Num(-1, 2, 111233953));
    var r3 := Halve16(r2, 3648, Num(1, 3, 3617239628), Num(-1, 2, 131546851));
    var r4 := Even16(r3, 1824, Num(1, 3, 3898939856), Num(-1, 2, 141703300));
    var r5 := Even16(r4, 912, Num(1, 3, 1949469928), Num(-1, 2, 70851650));
    var r6 := Halve16(r5, 456, Num(1, 3, 974734964), Num(-1, 2, 35425825));
    var r7 := Halve16(r6, 228, Num(1, 3, 2577687524), Num(-1, 2, 93642787));
    var r8 := Even16(r7, 114, Num(1, 3, 3379163804), Num(-1, 2, 122751268));
    OddStays(65536, r8, A16, N16);
  }

  lemma LateTurn3(r: Row)
    requires At(r, 616, Num(-1, 3, 1689606073), Num(1, 2, 61376512))
    ensures At(HalveAll(65536, r, A16, N16), 77, Num(1, 3, 3446859314), Num(-1, 2, 125205216))
  {
    hide Plus, Loss, Stuck, Pow, LimbCount, AddBoth, HalveRow, HalveAll;
    var r1 := Halve16(r, 616, Num(-1, 3, 1689606073), Num(1, 2, 61376512));
    var r2 := Halve16(r1, 308, Num(1, 3, 1245517005), Num(-1, 2, 45241618));
    var r3 := Halve16(r2, 154, Num(1, 3, 2713078544), Num(-1, 2, 98550683));
    OddStays(65536, r3, A16, N16);
  }

  lemma LateTurn4(r: Row)
    requires At(r, 20, Num(1, 3, 1757277412), Num(-1, 2, 63829582))
    ensures At(HalveAll(65536, r, A16, N16), 5, Num(1, 3, 2529639395), Num(-1, 2, 91887270))
  {
    hide Plus, Loss, Stuck, Pow, LimbCount, AddBoth, HalveRow, HalveAll;
    var r1 := Even16(r, 20, Num(1, 3, 1757277412), Num(-1, 2, 63829582));
    var r2 := Halve16(r1, 10, Num(1, 3, 878638706), Num(-1, 2, 31914791));
    OddStays(65536, r2, A16, N16);
  }

  lemma LateTurn5(r: Row)
    requires At(r, 52, Num(-1, 3, 840057493), Num(1, 2, 30511636))
    ensures At(HalveAll(65536, r, A16, N16), 13, Num(1, 3, 2925465689), Num(-1, 2, 106266902))
  {
    hide Plus, Loss, Stuck, Pow, LimbCount, AddBoth, HalveRow, HalveAll;
    var r1 := Halve16(r, 52, Num(-1, 3, 840057493), Num(1, 2, 30511636));
    var r2 := Halve16(r1, 26, Num(1, 3, 1670291295), Num(-1, 2, 60674056));
    OddStays(65536, r2, A16, N16);
  }

  lemma LateTurn6(r: Row)
    requires At(r, 8, Num(1, 3, 395826294), Num(-1, 2, 14379632))
    ensures At(HalveAll(65536, r, A16, N16), 1, Num(1, 3, 3184958349), Num(-1, 2, 115692265))
  {
    hide Plus, Loss, Stuck, Pow, LimbCount, AddBoth, HalveRow, HalveAll;
    var r1 := Even16(r, 8, Num(1, 3, 395826294), Num(-1, 2, 14379632));
    var r2 := Halve16(r1, 4, Num(1, 3, 197913147), Num(-1, 2, 7189816));
    var r3 := Halve16(r2, 2, Num(1, 3, 2189276615), Num(-1, 2, 79524782));
    OddStays(65536, r3, A16, N16);
  }

  lemma LateTurn7(r: Row)
    requires At(r, 4, Num(-1, 3, 655318954), Num(1, 2, 23804995))
    ensures At(HalveAll(65536, r, A16, N16), 1, Num(1, 3, 2971650324), Num(-1, 2, 107943563))
  {
    hide Plus, Loss, Stuck, Pow, LimbCount, AddBoth, HalveRow, HalveAll;
    var r1 := Halve16(r, 4, Num(-1, 3, 655318954), Num(1, 2, 23804995));
    var r2 := Halve16(r1, 2, Num(1, 3, 1762660565), Num(-1, 2, 64027377));
    OddStays(65536, r2, A16, N16);
  }

  lemma RunEnds(w: nat, u: Row, v: Row, a: nat, n: nat)
    requires w >= 2 && u.t > 0 && v.t > 0 && HalveAll(w, u, a, n).t == HalveAll(w, v, a, n).t
    ensures Run(w, u, v, a, n) == HalveAll(w, v, a, n)
  {
    hide HalveAll, Subtract;
  }

  /** From the addition that sticks on. */
  lemma LateRun(v0: Row)
    requires At(v0, 3907840, Num(1, 3, 76872), Num(-1, 2, 156013042))
    ensures Run(65536, U2_HALVED, v0, A16, N16).c1 == Num(1, 3, 3184958349)
  {
    hide HalveAll, HalveRow, Subtract, Run;
    LateTurn1(v0);
    var v1 := HalveAll(65536, v0, A16, N16);
    OddStays(65536, U2_HALVED, A16, N16);
    NextAt(v1);
    var v2 := Subtract(65536, v1, U2_HALVED, A16, N16);
    RunUp(65536, U2_HALVED, v0, U2_HALVED, v1, v2, A16, N16);
    LateTurn2(v2);
    var v3 := HalveAll(65536, v2, A16, N16);
    Subtract16(U2_HALVED, v3);
    var u1 := Subtract(65536, U2_HALVED, v3, A16, N16);
    RunDown(65536, U2_HALVED, v2, U2_HALVED, v3, u1, A16, N16);
    LateRunOn(u1, v3);
  }

  lemma LateRunOn(u1: Row, v3: Row)
    requires At(u1, 616, Num(-1, 3, 1689606073), Num(1, 2, 61376512))
    requires At(v3, 57, Num(1, 3, 1689581902), Num(-1, 2, 61375634))
    ensures Run(65536, u1, v3, A16, N16).c1 == Num(1, 3, 3184958349)
  {
    hide HalveAll, HalveRow, Subtract, Run;
    OddStays(65536, v3, A16, N16);
    LateTurn3(u1);
    var u2 := HalveAll(65536, u1, A16, N16);
    Subtract16(u2, v3);
    var u3 := Subtract(65536, u2, v3, A16, N16);
    RunDown(65536, u1, v3, u2, v3, u3, A16, N16);
    LateTurn4(u3);
    var u4 := HalveAll(65536, u3, A16, N16);
    Subtract16(v3, u4);
    var v4 := Subtract(65536, v3, u4, A16, N16);
    RunUp(65536, u3, v3, u4, v3, v4, A16, N16);
    LateRunOut(u4, v4);
  }

  lemma LateRunOut(u4: Row, v4: Row)
    requires At(u4, 5, Num(1, 3, 2529639395), Num(-1, 2, 91887270))
    requires At(v4, 52, Num(-1, 3, 840057493), Num(1, 2, 30511636))
    ensures Run(65536, u4, v4, A16, N16).c1 == Num(1, 3, 3184958349)
  {
    hide HalveAll, HalveRow, Subtract, Run;
    OddStays(65536, u4, A16, N16);
    LateTurn5(v4);
    var v5 := HalveAll(65536, v4, A16, N16);
    Subtract16(v5, u4);
    var v6 := Subtract(65536, v5, u4, A16, N16);
    RunUp(65536, u4, v4, u4, v5, v6, A16, N16);
    LateTurn6(v6);
    var v7 := HalveAll(65536, v6, A16, N16);
    Subtract16(u4, v7);
    var u5 := Subtract(65536, u4, v7, A16, N16);
    RunDown(65536, u4, v6, u4, v7, u5, A16, N16);
    LateTurn7(u5);
    OddStays(65536, v7, A16, N16);
    RunEnds(65536, u5, v7, A16, N16);
  }

  /** The two are coprime: 323021189 is the inverse, which the run does not find. */
  lemma TwoLimbsCoprime()
    ensures Gcd(A16, N16) == 1
  {
    hide Gcd;
    GcdIsGreatest(A16, N16);
    var g := Gcd(A16, N16);
    DividesCombo(g, A16, N16, 323021189, -11733590);
    DividesLe(g, 1);
  }

  lemma NoInverse16()
    ensures !Cong(A16 * 3184958349, 1, N16)
  {
    DivModUnique(A16 * 3184958349, 115692086, 3321419177, N16);
    DivModUnique(1, 0, 1, N16);
  }

  /** A modulus of two limbs for which a carry sticks, and the result is no inverse. */
  lemma TwoLimbsGoWrong()
    ensures 0 < A16 < N16 < 65536 * 65536 && Gcd(A16, N16) == 1
    ensures Outcome(65536, A16, N16).stuck
    ensures !Cong(A16 * Value(Outcome(65536, A16, N16).c1), 1, N16)
  {
    hide HalveAll, Subtract, Run, HalveRow, Gcd, Cong;
    Turn1();
    OddStays(65536, U0, A16, N16);
    Minus1();
    RunUp(65536, U0, V0, U0, V0_HALVED, V1, A16, N16);
    Turn2();
    OddStays(65536, U0, A16, N16);
    Minus2();
    RunDown(65536, U0, V1, U0, V1_HALVED, U1, A16, N16);
    Turn3();
    OddStays(65536, V1_HALVED, A16, N16);
    Minus3();
    RunUp(65536, U1, V1_HALVED, U1_HALVED, V1_HALVED, V2, A16, N16);
    Turn4();
    OddStays(65536, U1_HALVED, A16, N16);
    Minus4();
    RunDown(65536, U1_HALVED, V2, U1_HALVED, V2_HALVED, U2, A16, N16);
    Turn5();
    OddStays(65536, V2_HALVED, A16, N16);
    Minus5();
    var last := Subtract(65536, V2_HALVED, U2_HALVED, A16, N16);
    RunUp(65536, U2, V2_HALVED, U2_HALVED, V2_HALVED, last, A16, N16);
    RunStuck(65536, U2_HALVED, last, A16, N16);
    LastAt();
    LateRun(last);
    TwoLimbsCoprime();
    NoInverse16();
  }
}
