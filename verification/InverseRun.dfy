/**
 * The run of mpi_inv_mod (src/bootloader/myboot/bignum.c, lines 1473-1526) on
 * numbers, with the carry loop of mpi_add_abs as it is written. A coefficient is
 * its sign, the limbs it has and its magnitude, in base w; that decides every
 * later step, sticking carries included.
 */
module InverseRun {
  import opened Arith
  import opened Bits
  import opened Modular
  import opened Gcds
  import opened Coprimes

  datatype Num = Num(s: int, n: nat, v: nat)

  function Value(x: Num): int { x.s * x.v }

  predicate Signed(x: Num) { x.s == 1 || x.s == -1 }

  function Larger(a: nat, b: nat): nat { if a < b then b else a }

  /** Significant limbs of a magnitude. */
  function LimbCount(w: nat, v: nat): (k: nat)
    requires w >= 2
    ensures k == 0 <==> v == 0
    decreases v
  {
    if v == 0 then 0 else
      DivShrinks(w, v);
      1 + LimbCount(w, v / w)
  }

  lemma DivShrinks(w: nat, v: nat)
    requires w >= 2 && v > 0
    ensures 0 <= v / w < v
  {
    DivMod(v, w);
    MulLe2(2, w, v / w);
  }

  lemma {:induction false} LimbsBetween(w: nat, v: nat, k: nat)
    requires w >= 2 && Pow(w, k) <= v < Pow(w, k + 1)
    ensures LimbCount(w, v) == k + 1
    decreases k
  {
    hide Pow;
    WeightStep(w, k);
    DivMod(v, w);
    DivBelow(v, Pow(w, k), w);
    if k == 0 {
      DivModUnique(v, 0, v, w);
    } else {
      WeightStep(w, k - 1);
      DivLe(v, w);
      if v / w < Pow(w, k - 1) {
        MulLe2(v / w + 1, Pow(w, k - 1), w);
        Distribute(v / w, 1, w);
      }
      LimbsBetween(w, v / w, k - 1);
    }
  }

  lemma WeightStep(w: nat, k: nat)
    requires w >= 2
    ensures Pow(w, k + 1) == Pow(w, k) * w && Pow(w, 0) == 1 && Pow(w, k) >= 1
  {
    Associate(w, Pow(w, k), 1);
  }

  /** Where the carry of mpi_add_abs sticks when b is added to x in place. */
  predicate Stuck(w: nat, x: Num, b: nat)
    requires w >= 2
  {
    var m := LimbCount(w, b);
    var weight := Pow(w, m);
    m + 1 < x.n && (x.v / weight) % w == w - 1 && x.v % weight + b >= weight
  }

  /** What that costs. */
  function Loss(w: nat, x: Num, b: nat): (l: nat)
    requires w >= 2
    ensures l != 0 <==> Stuck(w, x, b)
    ensures l <= x.v
  {
    var weight := Pow(w, LimbCount(w, b));
    if Stuck(w, x, b) then
      StuckIsLarge(w, weight, x.v);
      (w - 1) * weight
    else 0
  }

  lemma StuckIsLarge(w: nat, weight: nat, v: nat)
    requires w >= 2 && weight > 0 && (v / weight) % w == w - 1
    ensures 0 < (w - 1) * weight <= v
  {
    DivMod(v, weight);
    DivMod(v / weight, w);
    DivLe(v, weight);
    DivLe(v / weight, w);
    MulLe2(0, (v / weight) / w, w);
    MulLe2(w - 1, v / weight, weight);
    MulLe2(1, w - 1, weight);
  }

  /** mpi_add_mpi in place: x plus the number of sign s and magnitude b. */
  function Plus(w: nat, x: Num, s: int, b: nat): Num
    requires w >= 2
  {
    if x.s != s then
      if x.v >= b then Num(x.s, x.n, x.v - b)
      else Num(-x.s, Larger(x.n, Larger(1, LimbCount(w, b))), b - x.v)
    else
      var v := x.v + b - Loss(w, x, b);
      Num(x.s, Larger(Larger(x.n, LimbCount(w, b)), LimbCount(w, v)), v)
  }

  /** The value lost by that addition, with its sign. */
  function Lost(w: nat, x: Num, s: int, b: nat): int
    requires w >= 2
  {
    if x.s != s then 0 else x.s * Loss(w, x, b)
  }

  lemma SignTimes(s: int, v: int)
    requires s == 1 || s == -1
    ensures s * v == if s == 1 then v else 0 - v
  {}

  lemma PlusValue(w: nat, x: Num, s: int, b: nat)
    requires w >= 2 && Signed(x) && (s == 1 || s == -1)
    ensures Signed(Plus(w, x, s, b))
    ensures Value(Plus(w, x, s, b)) == Value(x) + s * b - Lost(w, x, s, b)
  {
    hide Loss, Stuck, LimbCount, Larger, Pow;
    SignTimes(x.s, x.v);
    SignTimes(s, b);
    SignTimes(x.s, Loss(w, x, b));
    SignTimes(Plus(w, x, s, b).s, Plus(w, x, s, b).v);
  }

  function Half(x: Num): Num { Num(x.s, x.n, x.v / 2) }

  /** What halving cuts off: the sign for an odd number. */
  function Cut(x: Num): int { x.s * (x.v % 2) }

  /**
   * A number t with its two coefficients, what has been lost of their
   * combination, and whether a carry has stuck on the way to them.
   */
  datatype Row = Row(t: nat, c1: Num, c2: Num, e: int, stuck: bool)

  predicate Proper(r: Row) { Signed(r.c1) && Signed(r.c2) }

  /** The combination is t but for what has been lost, and nothing is lost before a carry sticks. */
  predicate Holds(r: Row, ta: nat, tb: nat) {
    Proper(r) && Value(r.c1) * ta + Value(r.c2) * tb == r.t - r.e && (!r.stuck ==> r.e == 0)
  }

  /** Row r with b1 of sign s1 and b2 of sign s2 added to its coefficients. */
  function AddBoth(w: nat, r: Row, s1: int, b1: nat, s2: int, b2: nat, ta: nat, tb: nat): Row
    requires w >= 2
  {
    Row(r.t, Plus(w, r.c1, s1, b1), Plus(w, r.c2, s2, b2),
        r.e + Lost(w, r.c1, s1, b1) * ta + Lost(w, r.c2, s2, b2) * tb,
        r.stuck || (r.c1.s == s1 && Stuck(w, r.c1, b1)) || (r.c2.s == s2 && Stuck(w, r.c2, b2)))
  }

  /** Lines 1489-1493: with an odd coefficient, TB is added to one and TA taken from the other. */
  function Corrected(w: nat, r: Row, ta: nat, tb: nat): Row
    requires w >= 2
  {
    if r.c1.v % 2 != 0 || r.c2.v % 2 != 0 then AddBoth(w, r, 1, tb, -1, ta, ta, tb) else r
  }

  /** Lines 1487-1496. */
  function HalveRow(w: nat, r: Row, ta: nat, tb: nat): Row
    requires w >= 2
  {
    var q := Corrected(w, r, ta, tb);
    Row(q.t / 2, Half(q.c1), Half(q.c2), (q.e + Cut(q.c1) * ta + Cut(q.c2) * tb) / 2, q.stuck)
  }

  /** Lines 1485-1497. */
  function HalveAll(w: nat, r: Row, ta: nat, tb: nat): (q: Row)
    requires w >= 2 && r.t > 0
    ensures 0 < q.t <= r.t && q.t % 2 == 1
    decreases r.t
  {
    if r.t % 2 != 0 then r else HalveAll(w, HalveRow(w, r, ta, tb), ta, tb)
  }

  /** Lines 1515-1517. */
  function Subtract(w: nat, r: Row, q: Row, ta: nat, tb: nat): Row
    requires w >= 2 && r.t >= q.t
  {
    var d := AddBoth(w, r, -q.c1.s, q.c1.v, -q.c2.s, q.c2.v, ta, tb);
    Row(r.t - q.t, d.c1, d.c2, d.e - q.e, d.stuck || q.stuck)
  }

  /** Lines 1483-1526: the row of TV when TU has become zero. */
  function Run(w: nat, u: Row, v: Row, ta: nat, tb: nat): Row
    requires w >= 2 && u.t > 0 && v.t > 0
    decreases u.t + v.t
  {
    var u1, v1 := HalveAll(w, u, ta, tb), HalveAll(w, v, ta, tb);
    if u1.t == v1.t then v1
    else if u1.t > v1.t then Run(w, Subtract(w, u1, v1, ta, tb), v1, ta, tb)
    else Run(w, u1, Subtract(w, v1, u1, ta, tb), ta, tb)
  }

  /** Lines 1475-1481. */
  function FirstU(a: nat): Row { Row(a, Num(1, 1, 1), Num(1, 1, 0), 0, false) }

  function FirstV(n: nat): Row { Row(n, Num(1, 1, 0), Num(1, 1, 1), 0, false) }

  /** The whole run from A mod N and N. */
  function Outcome(w: nat, a: nat, n: nat): Row
    requires w >= 2 && a > 0 && n > 0
  {
    Run(w, FirstU(a), FirstV(n), a, n)
  }

  // ---- what the run keeps ----

  lemma AddBothHolds(w: nat, r: Row, s1: int, b1: nat, s2: int, b2: nat, ta: nat, tb: nat)
    requires w >= 2 && Proper(r) && (s1 == 1 || s1 == -1) && (s2 == 1 || s2 == -1)
    ensures var q := AddBoth(w, r, s1, b1, s2, b2, ta, tb);
      Proper(q)
      && Value(q.c1) * ta + Value(q.c2) * tb + q.e
         == Value(r.c1) * ta + Value(r.c2) * tb + r.e + (s1 * b1) * ta + (s2 * b2) * tb
      && (!q.stuck ==> !r.stuck && q.e == r.e)
      && (!q.stuck ==> Value(q.c1) == Value(r.c1) + s1 * b1 && Value(q.c2) == Value(r.c2) + s2 * b2)
  {
    hide Plus, Loss, Stuck, Value;
    PlusValue(w, r.c1, s1, b1);
    PlusValue(w, r.c2, s2, b2);
    var l1, l2 := Lost(w, r.c1, s1, b1), Lost(w, r.c2, s2, b2);
    Distribute(Value(r.c1) + s1 * b1, l1, ta);
    Distribute(Value(r.c1), s1 * b1, ta);
    Distribute(Value(r.c2) + s2 * b2, l2, tb);
    Distribute(Value(r.c2), s2 * b2, tb);
  }

  lemma CorrectedHolds(w: nat, r: Row, ta: nat, tb: nat)
    requires w >= 2 && Holds(r, ta, tb)
    ensures Holds(Corrected(w, r, ta, tb), ta, tb) && Corrected(w, r, ta, tb).t == r.t
  {
    hide Plus, Loss, Stuck, Value;
    AddBothHolds(w, r, 1, tb, -1, ta, ta, tb);
    Associate(tb, ta, 1);
  }

  lemma ParityOf(x: Num)
    requires Signed(x)
    ensures Value(x) % 2 == x.v % 2
  {
  }

  /** Until a carry sticks, halving cuts nothing off. */
  lemma CorrectedIsEven(w: nat, r: Row, ta: nat, tb: nat)
    requires w >= 2 && Holds(r, ta, tb) && r.t % 2 == 0 && (ta % 2 == 1 || tb % 2 == 1)
    requires !Corrected(w, r, ta, tb).stuck
    ensures var q := Corrected(w, r, ta, tb); q.c1.v % 2 == 0 && q.c2.v % 2 == 0
  {
    hide Plus, Loss, Stuck, Value;
    ParityOf(r.c1);
    ParityOf(r.c2);
    if r.c1.v % 2 != 0 || r.c2.v % 2 != 0 {
      AddBothHolds(w, r, 1, tb, -1, ta, ta, tb);
      HalvesExactly(Value(r.c1), Value(r.c2), ta, tb);
      var q := Corrected(w, r, ta, tb);
      ParityOf(q.c1);
      ParityOf(q.c2);
    }
  }

  lemma HalfValue(x: Num)
    requires Signed(x)
    ensures Signed(Half(x)) && Value(x) == 2 * Value(Half(x)) + Cut(x)
  {
    DivMod(x.v, 2);
  }

  lemma HalveRowHolds(w: nat, r: Row, ta: nat, tb: nat)
    requires w >= 2 && Holds(r, ta, tb) && r.t % 2 == 0 && (ta % 2 == 1 || tb % 2 == 1)
    ensures Holds(HalveRow(w, r, ta, tb), ta, tb)
  {
    hide Corrected, Value;
    var q := Corrected(w, r, ta, tb);
    CorrectedHolds(w, r, ta, tb);
    HalfValue(q.c1);
    HalfValue(q.c2);
    if !q.stuck {
      CorrectedIsEven(w, r, ta, tb);
    }
    HalfRow(Value(q.c1), Value(q.c2), Value(Half(q.c1)), Value(Half(q.c2)), Cut(q.c1), Cut(q.c2), q.t, q.e, ta, tb);
    assert !q.stuck ==> Cut(q.c1) == 0 && Cut(q.c2) == 0 by { CutOfEven(q.c1); CutOfEven(q.c2); }
    assert HalveRow(w, r, ta, tb).e == (q.e + Cut(q.c1) * ta + Cut(q.c2) * tb) / 2;
    if !q.stuck {
      assert q.e + Cut(q.c1) * ta + Cut(q.c2) * tb == 0;
    }
  }

  lemma CutOfEven(x: Num)
    ensures x.v % 2 == 0 ==> Cut(x) == 0
  {
  }

  lemma HalfRow(c1: int, c2: int, h1: int, h2: int, k1: int, k2: int, t: nat, e: int, ta: nat, tb: nat)
    requires c1 == 2 * h1 + k1 && c2 == 2 * h2 + k2 && c1 * ta + c2 * tb == t - e && t % 2 == 0
    ensures h1 * ta + h2 * tb == t / 2 - (e + k1 * ta + k2 * tb) / 2
  {
    Distribute(2 * h1, k1, ta);
    Distribute(2 * h2, k2, tb);
    Associate(2, h1, ta);
    Associate(2, h2, tb);
    var p := h1 * ta + h2 * tb;
    assert t == 2 * p + (e + k1 * ta + k2 * tb);
  }

  lemma {:induction false} HalveAllHolds(w: nat, r: Row, ta: nat, tb: nat, other: nat)
    requires w >= 2 && Holds(r, ta, tb) && r.t > 0 && (ta % 2 == 1 || tb % 2 == 1) && Gcd(r.t, other) == 1
    ensures Holds(HalveAll(w, r, ta, tb), ta, tb) && Gcd(HalveAll(w, r, ta, tb).t, other) == 1
    decreases r.t
  {
    hide HalveRow, Holds, Gcd;
    if r.t % 2 == 0 {
      HalveRowHolds(w, r, ta, tb);
      HalvesNumber(w, r, ta, tb);
      CoprimeHalf(r.t, other);
      HalveAllHolds(w, HalveRow(w, r, ta, tb), ta, tb, other);
    }
  }

  lemma HalvesNumber(w: nat, r: Row, ta: nat, tb: nat)
    requires w >= 2
    ensures HalveRow(w, r, ta, tb).t == r.t / 2
  {
  }

  lemma SubtractHolds(w: nat, r: Row, q: Row, ta: nat, tb: nat)
    requires w >= 2 && Holds(r, ta, tb) && Holds(q, ta, tb) && r.t >= q.t
    ensures Holds(Subtract(w, r, q, ta, tb), ta, tb) && Subtract(w, r, q, ta, tb).t == r.t - q.t
  {
    hide Plus, Loss, Stuck;
    AddBothHolds(w, r, -q.c1.s, q.c1.v, -q.c2.s, q.c2.v, ta, tb);
    Distribute(0, q.c1.s * q.c1.v, ta);
    Distribute(0, q.c2.s * q.c2.v, tb);
    NegateProduct(q.c1.s, q.c1.v);
    NegateProduct(q.c2.s, q.c2.v);
    NegateProduct(Value(q.c1), ta);
    NegateProduct(Value(q.c2), tb);
  }

  lemma NegateProduct(x: int, y: int)
    ensures (-x) * y == -(x * y)
  {
  }

  /** The run ends with the number one and a row that holds. */
  lemma {:induction false} RunHolds(w: nat, u: Row, v: Row, ta: nat, tb: nat)
    requires w >= 2 && u.t > 0 && v.t > 0 && (ta % 2 == 1 || tb % 2 == 1)
    requires Holds(u, ta, tb) && Holds(v, ta, tb) && Gcd(u.t, v.t) == 1
    ensures Holds(Run(w, u, v, ta, tb), ta, tb) && Run(w, u, v, ta, tb).t == 1
    decreases u.t + v.t
  {
    hide Holds, Gcd, HalveAll, Subtract;
    HalveAllHolds(w, u, ta, tb, v.t);
    var u1 := HalveAll(w, u, ta, tb);
    GcdComm(u1.t, v.t);
    HalveAllHolds(w, v, ta, tb, u1.t);
    var v1 := HalveAll(w, v, ta, tb);
    GcdComm(v1.t, u1.t);
    if u1.t == v1.t {
      GcdSame(u1.t);
    } else if u1.t > v1.t {
      SubtractHolds(w, u1, v1, ta, tb);
      GcdSub(u1.t, v1.t);
      RunHolds(w, Subtract(w, u1, v1, ta, tb), v1, ta, tb);
    } else {
      SubtractHolds(w, v1, u1, ta, tb);
      GcdSub(v1.t, u1.t);
      GcdComm(v1.t - u1.t, u1.t);
      RunHolds(w, u1, Subtract(w, v1, u1, ta, tb), ta, tb);
    }
  }

  lemma GcdSame(x: nat)
    ensures Gcd(x, x) == x
  {
    if x > 0 {
      GcdSub(x, x);
      GcdZero(x);
    }
  }

  lemma FirstRowsHold(a: nat, n: nat)
    ensures Holds(FirstU(a), a, n) && Holds(FirstV(n), a, n)
  {
  }

  /**
   * What the run finds is an inverse of a but for what has been lost: an
   * inverse if and only if n divides the loss, and so whenever no carry that
   * counts has stuck.
   */
  lemma OutcomeIsInverse(w: nat, a: int, n: nat)
    requires w >= 2 && n > 1 && Gcd(Magnitude(a), n) == 1
    ensures 0 < a % n && Gcd(a % n, n) == 1
    ensures var r := Outcome(w, a % n, n);
      Signed(r.c1) && Cong(a * Value(r.c1), 1 - r.e, n)
      && (Cong(a * Value(r.c1), 1, n) <==> r.e % n == 0)
      && (!r.stuck ==> r.e == 0)
  {
    hide Gcd, Holds, Run, Cong, Value;
    GcdResidue(a, n);
    GcdZero(n);
    var b: nat := a % n;
    NotBothEven(b, n);
    FirstRowsHold(b, n);
    RunHolds(w, FirstU(b), FirstV(n), b, n);
    var r := Outcome(w, b, n);
    HoldsSays(r, b, n);
    InverseButFor(Value(r.c1), Value(r.c2), r.e, a, n);
    LossDivides(a * Value(r.c1), r.e, n);
  }

  lemma HoldsSays(r: Row, ta: nat, tb: nat)
    requires Holds(r, ta, tb)
    ensures Signed(r.c1) && Value(r.c1) * ta + Value(r.c2) * tb == r.t - r.e && (!r.stuck ==> r.e == 0)
  {
  }

  lemma LossDivides(x: int, e: int, n: nat)
    requires n > 1 && Cong(x, 1 - e, n)
    ensures Cong(x, 1, n) <==> e % n == 0
  {
    hide Cong;
    DivMod(e, n);
    if e % n == 0 {
      CongIntro(1 - e, 1, n, -(e / n));
      NegateProduct(e / n, n);
      CongTrans(x, 1 - e, 1, n);
    }
    if Cong(x, 1, n) {
      CongSym(x, 1 - e, n);
      CongTrans(1 - e, x, 1, n);
      var k := CongElim(1 - e, 1, n);
      NegateProduct(k, n);
      DivModUnique(e, -k, 0, n);
    }
  }

  // ---- moduli for which no carry sticks ----

  /** Limbs and weights: below w * w there are at most two. */
  lemma TwoLimbsFit(w: nat, v: nat)
    requires w >= 2 && v < w * w
    ensures LimbCount(w, v) <= 2
  {
    if v > 0 {
      DivShrinks(w, v);
      DivBelow(v, w, w);
      var q := v / w;
      if q > 0 {
        DivModUnique(q, 0, q, w);
      }
    }
  }

  /** A number of two limbs lets its carry out at the top. */
  lemma ShortNeverSticks(w: nat, x: Num, b: nat)
    requires w >= 2 && x.n <= 2
    ensures !Stuck(w, x, b) && Loss(w, x, b) == 0
  {
    if LimbCount(w, b) == 0 {
      assert Pow(w, 0) == 1;
      DivModUnique(x.v, x.v, 0, 1);
    }
  }

  lemma PlusShort(w: nat, x: Num, s: int, b: nat, bound: nat)
    requires w >= 2 && x.n <= 2 && x.v <= bound && bound + b < w * w
    ensures Plus(w, x, s, b).n <= 2 && Plus(w, x, s, b).v <= bound + b
  {
    hide Loss, Stuck;
    ShortNeverSticks(w, x, b);
    TwoLimbsFit(w, b);
    TwoLimbsFit(w, x.v + b);
  }

  /** Coefficients of two limbs, no larger than m1 and m2. */
  predicate Small(r: Row, m1: nat, m2: nat) {
    !r.stuck && r.c1.n <= 2 && r.c2.n <= 2 && r.c1.v <= m1 && r.c2.v <= m2
  }

  lemma AddBothSmall(w: nat, r: Row, s1: int, b1: nat, s2: int, b2: nat, ta: nat, tb: nat, m1: nat, m2: nat)
    requires w >= 2 && Small(r, m1, m2) && m1 + b1 < w * w && m2 + b2 < w * w
    ensures Small(AddBoth(w, r, s1, b1, s2, b2, ta, tb), m1 + b1, m2 + b2)
  {
    hide Loss, Stuck, Plus, Lost;
    PlusShort(w, r.c1, s1, b1, m1);
    PlusShort(w, r.c2, s2, b2, m2);
    ShortNeverSticks(w, r.c1, b1);
    ShortNeverSticks(w, r.c2, b2);
  }

  lemma HalveRowSmall(w: nat, r: Row, ta: nat, tb: nat, m1: nat, m2: nat)
    requires w >= 2 && Small(r, m1, m2) && m1 + tb < w * w && m2 + ta < w * w
    ensures Small(HalveRow(w, r, ta, tb), (m1 + tb) / 2, (m2 + ta) / 2)
  {
    hide AddBoth;
    AddBothSmall(w, r, 1, tb, -1, ta, ta, tb, m1, m2);
  }

  lemma {:induction false} HalveAllSmall(w: nat, r: Row, ta: nat, tb: nat, m1: nat, m2: nat)
    requires w >= 2 && r.t > 0 && Small(r, m1, m2) && tb <= m1 && ta <= m2 && m1 + tb < w * w && m2 + ta < w * w
    ensures Small(HalveAll(w, r, ta, tb), m1, m2)
    decreases r.t
  {
    hide HalveRow;
    if r.t % 2 == 0 {
      HalveRowSmall(w, r, ta, tb, m1, m2);
      HalvesNumber(w, r, ta, tb);
      HalveAllSmall(w, HalveRow(w, r, ta, tb), ta, tb, m1, m2);
    }
  }

  /** Small at m for an odd number, at 2 * m for an even one that will be halved. */
  predicate SmallNow(r: Row, m1: nat, m2: nat) {
    if r.t % 2 == 0 then Small(r, 2 * m1, 2 * m2) else Small(r, m1, m2)
  }

  lemma HalvedOut(w: nat, r: Row, ta: nat, tb: nat, m1: nat, m2: nat)
    requires w >= 2 && r.t > 0 && SmallNow(r, m1, m2) && tb <= m1 && ta <= m2
    requires 2 * m1 + 2 * tb < w * w && 2 * m2 + 2 * ta < w * w
    ensures var q := HalveAll(w, r, ta, tb);
      if r.t % 2 == 0 then Small(q, m1 + tb, m2 + ta) && BitLen(q.t) < BitLen(r.t)
      else Small(q, m1, m2) && q == r
  {
    hide HalveRow;
    if r.t % 2 == 0 {
      HalveRowSmall(w, r, ta, tb, 2 * m1, 2 * m2);
      HalvesNumber(w, r, ta, tb);
      var h := HalveRow(w, r, ta, tb);
      HalveAllSmall(w, h, ta, tb, m1 + tb, m2 + ta);
      BitLenMono(HalveAll(w, h, ta, tb).t, h.t);
    }
  }

  lemma BitLenMono(x: nat, y: nat)
    requires x <= y
    ensures BitLen(x) <= BitLen(y)
  {
    hide BitLen, Pow2;
    BitLenLe(y, BitLen(y));
    BitLenLe(x, BitLen(y));
  }

  lemma SubtractSmall(w: nat, r: Row, q: Row, ta: nat, tb: nat, m1: nat, m2: nat)
    requires w >= 2 && r.t > q.t && r.t % 2 == 1 && q.t % 2 == 1 && Small(r, m1, m2) && Small(q, m1, m2)
    requires 2 * m1 < w * w && 2 * m2 < w * w
    ensures SmallNow(Subtract(w, r, q, ta, tb), m1, m2) && Subtract(w, r, q, ta, tb).t == r.t - q.t
  {
    hide AddBoth;
    AddBothSmall(w, r, -q.c1.s, q.c1.v, -q.c2.s, q.c2.v, ta, tb, m1, m2);
  }

  /** How far coefficients at m can grow in s more turns. */
  function Reach(m: nat, s: nat, b: nat): (r: nat)
    ensures r >= m
  {
    MulNonneg(s, b);
    m + s * b
  }

  lemma Spend(m: nat, s: nat, b: nat)
    requires s > 0
    ensures Reach(m + b, s - 1, b) == Reach(m, s, b)
  {
    Distribute(s, 1, b);
  }

  /** Each turn that halves takes a bit off the numbers and lets the coefficients grow by one TB, one TA. */
  lemma {:induction false} RunSmall(w: nat, u: Row, v: Row, ta: nat, tb: nat, m1: nat, m2: nat, s: nat)
    requires w >= 2 && u.t > 0 && v.t > 0 && SmallNow(u, m1, m2) && SmallNow(v, m1, m2)
    requires tb <= m1 && ta <= m2 && BitLen(u.t) + BitLen(v.t) <= s
    requires 2 * Reach(m1, s, tb) + 2 * tb < w * w && 2 * Reach(m2, s, ta) + 2 * ta < w * w
    ensures !Run(w, u, v, ta, tb).stuck
    decreases u.t + v.t
  {
    hide HalveAll, Subtract, BitLen, Reach, Small;
    HalvedOut(w, u, ta, tb, m1, m2);
    HalvedOut(w, v, ta, tb, m1, m2);
    var u1, v1 := HalveAll(w, u, ta, tb), HalveAll(w, v, ta, tb);
    if u.t % 2 == 0 || v.t % 2 == 0 {
      Spend(m1, s, tb);
      Spend(m2, s, ta);
      Looser(u1, m1, m2, m1 + tb, m2 + ta);
      Looser(v1, m1, m2, m1 + tb, m2 + ta);
      RunOn(w, u1, v1, ta, tb, m1 + tb, m2 + ta, s - 1);
      if u1.t > v1.t {
        RunSmall(w, Subtract(w, u1, v1, ta, tb), v1, ta, tb, m1 + tb, m2 + ta, s - 1);
      } else if u1.t < v1.t {
        RunSmall(w, u1, Subtract(w, v1, u1, ta, tb), ta, tb, m1 + tb, m2 + ta, s - 1);
      }
    } else {
      RunOn(w, u1, v1, ta, tb, m1, m2, s);
      if u1.t > v1.t {
        RunSmall(w, Subtract(w, u1, v1, ta, tb), v1, ta, tb, m1, m2, s);
      } else if u1.t < v1.t {
        RunSmall(w, u1, Subtract(w, v1, u1, ta, tb), ta, tb, m1, m2, s);
      }
    }
    SmallIsFree(v1);
  }

  lemma Looser(r: Row, m1: nat, m2: nat, n1: nat, n2: nat)
    requires m1 <= n1 && m2 <= n2
    ensures Small(r, m1, m2) ==> Small(r, n1, n2)
  {
  }

  lemma SmallIsFree(r: Row)
    ensures forall m1, m2 :: Small(r, m1, m2) ==> !r.stuck
  {
  }

  /** The rows after the subtraction, in either direction. */
  lemma RunOn(w: nat, u: Row, v: Row, ta: nat, tb: nat, m1: nat, m2: nat, s: nat)
    requires w >= 2 && u.t > 0 && v.t > 0 && u.t % 2 == 1 && v.t % 2 == 1 && Small(u, m1, m2) && Small(v, m1, m2)
    requires BitLen(u.t) + BitLen(v.t) <= s && 2 * m1 < w * w && 2 * m2 < w * w
    ensures u.t > v.t ==> var r := Subtract(w, u, v, ta, tb);
      r.t == u.t - v.t && SmallNow(r, m1, m2) && SmallNow(v, m1, m2) && BitLen(r.t) + BitLen(v.t) <= s
    ensures u.t < v.t ==> var r := Subtract(w, v, u, ta, tb);
      r.t == v.t - u.t && SmallNow(r, m1, m2) && SmallNow(u, m1, m2) && BitLen(u.t) + BitLen(r.t) <= s
  {
    hide Subtract, BitLen, Small;
    if u.t > v.t {
      SubtractSmall(w, u, v, ta, tb, m1, m2);
      BitLenMono(u.t - v.t, u.t);
    } else if u.t < v.t {
      SubtractSmall(w, v, u, ta, tb, m1, m2);
      BitLenMono(v.t - u.t, v.t);
    }
  }

  /** N leaves the coefficients room in two limbs. */
  predicate Roomy(w: nat, n: nat) {
    n * (4 * BitLen(n) + 6) <= w * w
  }

  /** What a caller can look at: for these moduli no carry sticks, whatever is inverted. */
  lemma RoomyNeverSticks(w: nat, a: nat, n: nat)
    requires w >= 2 && 0 < a < n && Roomy(w, n)
    ensures !Outcome(w, a, n).stuck
  {
    hide Run, BitLen;
    var s := 2 * BitLen(n);
    BitLenMono(a, n);
    Distribute(2 * s, 6, n);
    Associate(2, s, n);
    assert n * (2 * s + 6) == 2 * Reach(n, s, n) + 4 * n;
    MulLe2(a, n, s);
    RunSmall(w, FirstU(a), FirstV(n), a, n, n, a, s);
  }
}
