/**
 * The run of mpi_inv_mod (src/bootloader/myboot/bignum.c, lines 1473-1526) with
 * exact sums: first on plain integers, then with the sign and the limbs every
 * coefficient is stored with, which decide where a carry would stick.
 */
module InverseExact {
  import opened Arith
  import opened Bits
  import opened Modular
  import opened Gcds
  import opened Coprimes
  import opened InverseRun

  // ---- on integers ----

  /** A number and its two coefficients. */
  datatype Exact = Exact(t: nat, c1: int, c2: int)

  /** Lines 1487-1496. */
  function HalfExact(r: Exact, a: nat, n: nat): Exact {
    if r.c1 % 2 != 0 || r.c2 % 2 != 0 then Exact(r.t / 2, (r.c1 + n) / 2, (r.c2 - a) / 2)
    else Exact(r.t / 2, r.c1 / 2, r.c2 / 2)
  }

  /** Lines 1485-1497. */
  function OddExact(r: Exact, a: nat, n: nat): (q: Exact)
    requires r.t > 0
    ensures 0 < q.t <= r.t && q.t % 2 == 1
    decreases r.t
  {
    if r.t % 2 != 0 then r else OddExact(HalfExact(r, a, n), a, n)
  }

  /** Lines 1515-1517. */
  function LessExact(r: Exact, q: Exact): Exact
    requires r.t >= q.t
  {
    Exact(r.t - q.t, r.c1 - q.c1, r.c2 - q.c2)
  }

  /** Lines 1483-1526. */
  function RunExact(u: Exact, v: Exact, a: nat, n: nat): Exact
    requires u.t > 0 && v.t > 0
    decreases u.t + v.t
  {
    var u1, v1 := OddExact(u, a, n), OddExact(v, a, n);
    if u1.t == v1.t then v1
    else if u1.t > v1.t then RunExact(LessExact(u1, v1), v1, a, n)
    else RunExact(u1, LessExact(v1, u1), a, n)
  }

  /** The coefficient of a that the exact run finds. */
  function Coefficient(a: nat, n: nat): int
    requires a > 0 && n > 0
  {
    RunExact(Exact(a, 1, 0), Exact(n, 0, 1), a, n).c1
  }

  predicate Combines(r: Exact, a: nat, n: nat) { r.c1 * a + r.c2 * n == r.t }

  lemma HalfExactly(r: Exact, a: nat, n: nat)
    requires Combines(r, a, n) && r.t % 2 == 0 && (a % 2 == 1 || n % 2 == 1)
    ensures Combines(HalfExact(r, a, n), a, n)
    ensures var odd := r.c1 % 2 != 0 || r.c2 % 2 != 0;
      (if odd then r.c1 + n else r.c1) % 2 == 0 && (if odd then r.c2 - a else r.c2) % 2 == 0
  {
    if r.c1 % 2 != 0 || r.c2 % 2 != 0 {
      HalvesExactly(r.c1, r.c2, a, n);
      SameCombination(r.c1, r.c2, a, n);
      HalfCombination(r.c1 + n, r.c2 - a, a, n, r.t);
    } else {
      HalfCombination(r.c1, r.c2, a, n, r.t);
    }
  }

  lemma {:induction false} OddExactly(r: Exact, a: nat, n: nat, other: nat)
    requires Combines(r, a, n) && r.t > 0 && (a % 2 == 1 || n % 2 == 1) && Gcd(r.t, other) == 1
    ensures Combines(OddExact(r, a, n), a, n) && Gcd(OddExact(r, a, n).t, other) == 1
    decreases r.t
  {
    hide Combines, Gcd;
    if r.t % 2 == 0 {
      HalfExactly(r, a, n);
      CoprimeHalf(r.t, other);
      OddExactly(HalfExact(r, a, n), a, n, other);
    }
  }

  lemma LessExactly(r: Exact, q: Exact, a: nat, n: nat)
    requires Combines(r, a, n) && Combines(q, a, n) && r.t >= q.t
    ensures Combines(LessExact(r, q), a, n)
  {
    Distribute(r.c1, q.c1, a);
    Distribute(r.c2, q.c2, n);
  }

  lemma {:induction false} RunExactly(u: Exact, v: Exact, a: nat, n: nat)
    requires u.t > 0 && v.t > 0 && (a % 2 == 1 || n % 2 == 1) && Gcd(u.t, v.t) == 1
    requires Combines(u, a, n) && Combines(v, a, n)
    ensures Combines(RunExact(u, v, a, n), a, n) && RunExact(u, v, a, n).t == 1
    decreases u.t + v.t
  {
    hide Combines, Gcd, OddExact;
    OddExactly(u, a, n, v.t);
    var u1 := OddExact(u, a, n);
    GcdComm(u1.t, v.t);
    OddExactly(v, a, n, u1.t);
    var v1 := OddExact(v, a, n);
    GcdComm(v1.t, u1.t);
    if u1.t == v1.t {
      GcdSame(u1.t);
    } else if u1.t > v1.t {
      LessExactly(u1, v1, a, n);
      GcdSub(u1.t, v1.t);
      RunExactly(LessExact(u1, v1), v1, a, n);
    } else {
      LessExactly(v1, u1, a, n);
      GcdSub(v1.t, u1.t);
      GcdComm(v1.t - u1.t, u1.t);
      RunExactly(u1, LessExact(v1, u1), a, n);
    }
  }

  /** The exact run finds an inverse of every number coprime to n. */
  lemma CoefficientIsInverse(a: int, n: nat)
    requires n > 1 && Gcd(Magnitude(a), n) == 1
    ensures 0 < a % n && (a * Coefficient(a % n, n)) % n == 1
  {
    hide Gcd, RunExact, Cong;
    GcdResidue(a, n);
    GcdZero(n);
    var b: nat := a % n;
    NotBothEven(b, n);
    RunExactly(Exact(b, 1, 0), Exact(n, 0, 1), b, n);
    var r := RunExact(Exact(b, 1, 0), Exact(n, 0, 1), b, n);
    InverseButFor(r.c1, r.c2, 0, a, n);
    CongResidue(1, a * r.c1, n) by { CongSym(a * r.c1, 1, n); }
  }

  // ---- as it is stored ----

  /** A number and its two coefficients with their signs and limbs. */
  datatype Stored = Stored(t: nat, c1: Num, c2: Num)

  /** The number of sign s and magnitude b is added to x. */
  datatype Addition = Addition(x: Num, s: int, b: nat)

  /** Whether the carry sticks there: nothing is carried when the signs differ. */
  predicate Sticks(w: nat, o: Addition)
    requires w >= 2
  {
    o.x.s == o.s && Stuck(w, o.x, o.b)
  }

  predicate NoneSticks(w: nat, s: seq<Addition>)
    requires w >= 2
  {
    forall o :: o in s ==> !Sticks(w, o)
  }

  /** Its exact result, with the limbs mpi_add_mpi leaves. */
  function Sum(w: nat, o: Addition): Num
    requires w >= 2
  {
    var x, k := o.x, LimbCount(w, o.b);
    if x.s == o.s then Num(x.s, Larger(Larger(x.n, k), LimbCount(w, x.v + o.b)), x.v + o.b)
    else if x.v >= o.b then Num(x.s, x.n, x.v - o.b)
    else Num(-x.s, Larger(x.n, Larger(1, k)), o.b - x.v)
  }

  /** The additions of lines 1489-1493. */
  function HalfAdditions(r: Stored, a: nat, n: nat): seq<Addition> {
    if r.c1.v % 2 != 0 || r.c2.v % 2 != 0 then [Addition(r.c1, 1, n), Addition(r.c2, -1, a)] else []
  }

  function HalfStored(w: nat, r: Stored, a: nat, n: nat): Stored
    requires w >= 2
  {
    var s := HalfAdditions(r, a, n);
    if s == [] then Stored(r.t / 2, Half(r.c1), Half(r.c2))
    else Stored(r.t / 2, Half(Sum(w, s[0])), Half(Sum(w, s[1])))
  }

  /** Lines 1485-1497. */
  function OddStored(w: nat, r: Stored, a: nat, n: nat): (q: Stored)
    requires w >= 2 && r.t > 0
    ensures 0 < q.t <= r.t && q.t % 2 == 1
    decreases r.t
  {
    if r.t % 2 != 0 then r else OddStored(w, HalfStored(w, r, a, n), a, n)
  }

  function OddAdditions(w: nat, r: Stored, a: nat, n: nat): seq<Addition>
    requires w >= 2 && r.t > 0
    decreases r.t
  {
    if r.t % 2 != 0 then [] else HalfAdditions(r, a, n) + OddAdditions(w, HalfStored(w, r, a, n), a, n)
  }

  /** Lines 1515-1517: a coefficient is added with the sign turned over. */
  function LessAdditions(r: Stored, q: Stored): (s: seq<Addition>)
    ensures |s| == 2
  {
    [Addition(r.c1, -q.c1.s, q.c1.v), Addition(r.c2, -q.c2.s, q.c2.v)]
  }

  function LessStored(w: nat, r: Stored, q: Stored): Stored
    requires w >= 2 && r.t >= q.t
  {
    var s := LessAdditions(r, q);
    Stored(r.t - q.t, Sum(w, s[0]), Sum(w, s[1]))
  }

  /** All additions of lines 1483-1526 before the two numbers meet. */
  function RunAdditions(w: nat, u: Stored, v: Stored, a: nat, n: nat): seq<Addition>
    requires w >= 2 && u.t > 0 && v.t > 0
    decreases u.t + v.t
  {
    var u1, v1 := OddStored(w, u, a, n), OddStored(w, v, a, n);
    OddAdditions(w, u, a, n) + OddAdditions(w, v, a, n)
    + if u1.t == v1.t then []
      else if u1.t > v1.t then LessAdditions(u1, v1) + RunAdditions(w, LessStored(w, u1, v1), v1, a, n)
      else LessAdditions(v1, u1) + RunAdditions(w, u1, LessStored(w, v1, u1), a, n)
  }

  /** Lines 1475-1481 and on. */
  function Additions(w: nat, a: nat, n: nat): seq<Addition>
    requires w >= 2 && a > 0 && n > 0
  {
    RunAdditions(w, Stored(a, Num(1, 1, 1), Num(1, 1, 0)), Stored(n, Num(1, 1, 0), Num(1, 1, 1)), a, n)
  }

  /** Which additions these are: of an odd number none, of an even one the correction's, and those of its half. */
  lemma HalvingsAre(w: nat, r: Stored, a: nat, n: nat, o: Addition)
    requires w >= 2 && r.t > 0
    ensures o in OddAdditions(w, r, a, n) <==>
      && r.t % 2 == 0
      && (((r.c1.v % 2 == 1 || r.c2.v % 2 == 1) && (o == Addition(r.c1, 1, n) || o == Addition(r.c2, -1, a)))
          || o in OddAdditions(w, HalfStored(w, r, a, n), a, n))
    ensures HalfStored(w, r, a, n).t == r.t / 2
    ensures OddStored(w, r, a, n) == if r.t % 2 == 1 then r else OddStored(w, HalfStored(w, r, a, n), a, n)
  {
    hide Sum, Half;
  }

  /**
   * Of a run those of the halvings, those that take the smaller number's coefficients
   * from the larger one's, and those of the run from there; and no others.
   */
  lemma AdditionsAre(w: nat, u: Stored, v: Stored, a: nat, n: nat, o: Addition)
    requires w >= 2 && u.t > 0 && v.t > 0
    ensures var u1, v1 := OddStored(w, u, a, n), OddStored(w, v, a, n);
      o in RunAdditions(w, u, v, a, n) <==>
        || o in OddAdditions(w, u, a, n) || o in OddAdditions(w, v, a, n)
        || (u1.t > v1.t && (o in LessAdditions(u1, v1) || o in RunAdditions(w, LessStored(w, u1, v1), v1, a, n)))
        || (u1.t < v1.t && (o in LessAdditions(v1, u1) || o in RunAdditions(w, u1, LessStored(w, v1, u1), a, n)))
  {
    hide Sum, Half, OddAdditions, OddStored, LessStored, LessAdditions;
  }

  lemma FirstAdditions(w: nat, a: nat, n: nat, u: Stored, v: Stored, o: Addition)
    requires w >= 2 && a > 0 && n > 0
    ensures Additions(w, a, n)
         == RunAdditions(w, Stored(a, Num(1, 1, 1), Num(1, 1, 0)), Stored(n, Num(1, 1, 0), Num(1, 1, 1)), a, n)
    ensures o in LessAdditions(u, v) <==> o == Addition(u.c1, -v.c1.s, v.c1.v) || o == Addition(u.c2, -v.c2.s, v.c2.v)
  {
    hide RunAdditions;
  }

  // ---- without a stuck carry all three runs agree ----

  /** Row r of the written run is as stored in q, has lost nothing, and has the integers of x. */
  predicate Agree(r: Row, q: Stored, x: Exact, a: nat, n: nat) {
    && !r.stuck && Signed(r.c1) && Signed(r.c2)
    && r.t == q.t == x.t && r.c1 == q.c1 && r.c2 == q.c2
    && Value(r.c1) == x.c1 && Value(r.c2) == x.c2 && Combines(x, a, n)
  }

  lemma SumIsPlus(w: nat, o: Addition)
    requires w >= 2 && Signed(o.x) && (o.s == 1 || o.s == -1) && !Sticks(w, o)
    ensures Plus(w, o.x, o.s, o.b) == Sum(w, o)
    ensures Signed(Sum(w, o)) && Value(Sum(w, o)) == Value(o.x) + o.s * o.b
  {
    hide Stuck, LimbCount, Pow;
    PlusValue(w, o.x, o.s, o.b);
  }

  lemma HalfOfEven(x: Num)
    requires Signed(x)
    ensures Signed(Half(x)) && (Value(x) % 2 == 0 ==> Value(Half(x)) == Value(x) / 2)
  {
    HalfValue(x);
    ParityOf(x);
    CutOfEven(x);
  }

  lemma InTwo(w: nat, s: seq<Addition>)
    requires w >= 2 && |s| == 2 && NoneSticks(w, s)
    ensures !Sticks(w, s[0]) && !Sticks(w, s[1])
  {
    assert s[0] in s && s[1] in s;
  }

  lemma HalfAgrees(w: nat, r: Row, q: Stored, x: Exact, a: nat, n: nat)
    requires w >= 2 && Agree(r, q, x, a, n) && r.t % 2 == 0 && (a % 2 == 1 || n % 2 == 1)
    requires NoneSticks(w, HalfAdditions(q, a, n))
    ensures Agree(HalveRow(w, r, a, n), HalfStored(w, q, a, n), HalfExact(x, a, n), a, n)
  {
    hide Plus, Lost, Stuck, Sum, Value, NoneSticks, Combines, Half;
    HalfExactly(x, a, n);
    ParityOf(r.c1);
    ParityOf(r.c2);
    if r.c1.v % 2 != 0 || r.c2.v % 2 != 0 {
      var s := HalfAdditions(q, a, n);
      InTwo(w, s);
      SumIsPlus(w, s[0]);
      SumIsPlus(w, s[1]);
      HalfOfEven(Sum(w, s[0]));
      HalfOfEven(Sum(w, s[1]));
    } else {
      HalfOfEven(q.c1);
      HalfOfEven(q.c2);
    }
  }

  lemma InParts(w: nat, s: seq<Addition>, t: seq<Addition>)
    requires w >= 2
    ensures NoneSticks(w, s + t) <==> NoneSticks(w, s) && NoneSticks(w, t)
  {
    hide Sticks;
    if NoneSticks(w, s + t) {
      assert forall o :: o in s ==> o in s + t;
      assert forall o :: o in t ==> o in s + t;
    }
  }

  lemma {:induction false} OddAgrees(w: nat, r: Row, q: Stored, x: Exact, a: nat, n: nat)
    requires w >= 2 && Agree(r, q, x, a, n) && r.t > 0 && (a % 2 == 1 || n % 2 == 1)
    requires NoneSticks(w, OddAdditions(w, q, a, n))
    ensures Agree(HalveAll(w, r, a, n), OddStored(w, q, a, n), OddExact(x, a, n), a, n)
    decreases r.t
  {
    hide HalveRow, HalfStored, HalfExact, HalfAdditions, NoneSticks, Value, Combines;
    if r.t % 2 == 0 {
      var rest := HalfStored(w, q, a, n);
      HalfTimes(w, r, q, x, a, n);
      InParts(w, HalfAdditions(q, a, n), OddAdditions(w, rest, a, n));
      HalfAgrees(w, r, q, x, a, n);
      OddAgrees(w, HalveRow(w, r, a, n), rest, HalfExact(x, a, n), a, n);
    }
  }

  lemma HalfTimes(w: nat, r: Row, q: Stored, x: Exact, a: nat, n: nat)
    requires w >= 2
    ensures HalveRow(w, r, a, n).t == r.t / 2 && HalfStored(w, q, a, n).t == q.t / 2
    ensures HalfExact(x, a, n).t == x.t / 2
  {
  }

  lemma LessAgrees(w: nat, r: Row, q: Stored, x: Exact, r1: Row, q1: Stored, x1: Exact, a: nat, n: nat)
    requires w >= 2 && Agree(r, q, x, a, n) && Agree(r1, q1, x1, a, n) && r.t >= r1.t
    requires NoneSticks(w, LessAdditions(q, q1))
    ensures Agree(Subtract(w, r, r1, a, n), LessStored(w, q, q1), LessExact(x, x1), a, n)
  {
    hide Plus, Lost, Stuck, Sum, NoneSticks, Combines;
    var s := LessAdditions(q, q1);
    InTwo(w, s);
    SumIsPlus(w, s[0]);
    SumIsPlus(w, s[1]);
    LessExactly(x, x1, a, n);
    NegateProduct(q1.c1.s, q1.c1.v);
    NegateProduct(q1.c2.s, q1.c2.v);
  }

  lemma {:induction false} RunAgrees(w: nat, u: Row, v: Row, qu: Stored, qv: Stored, xu: Exact, xv: Exact,
                                     a: nat, n: nat)
    requires w >= 2 && u.t > 0 && v.t > 0 && (a % 2 == 1 || n % 2 == 1)
    requires Agree(u, qu, xu, a, n) && Agree(v, qv, xv, a, n) && NoneSticks(w, RunAdditions(w, qu, qv, a, n))
    ensures !Run(w, u, v, a, n).stuck && Value(Run(w, u, v, a, n).c1) == RunExact(xu, xv, a, n).c1
    decreases u.t + v.t
  {
    hide OddAdditions, LessAdditions, Subtract, LessStored, LessExact, NoneSticks, Value, Combines;
    hide HalveAll, OddStored, OddExact;
    var s, t := OddAdditions(w, qu, a, n), OddAdditions(w, qv, a, n);
    var qu1, qv1 := OddStored(w, qu, a, n), OddStored(w, qv, a, n);
    RunParts(w, qu, qv, a, n);
    OddAgrees(w, u, qu, xu, a, n);
    OddAgrees(w, v, qv, xv, a, n);
    var u1, v1 := HalveAll(w, u, a, n), HalveAll(w, v, a, n);
    var xu1, xv1 := OddExact(xu, a, n), OddExact(xv, a, n);
    if u1.t > v1.t {
      LessAgrees(w, u1, qu1, xu1, v1, qv1, xv1, a, n);
      LessTimes(w, u1, v1, a, n);
      RunAgrees(w, Subtract(w, u1, v1, a, n), v1, LessStored(w, qu1, qv1), qv1, LessExact(xu1, xv1), xv1, a, n);
    } else if u1.t < v1.t {
      LessAgrees(w, v1, qv1, xv1, u1, qu1, xu1, a, n);
      LessTimes(w, v1, u1, a, n);
      RunAgrees(w, u1, Subtract(w, v1, u1, a, n), qu1, LessStored(w, qv1, qu1), xu1, LessExact(xv1, xu1), a, n);
    }
  }

  lemma LessTimes(w: nat, r: Row, q: Row, a: nat, n: nat)
    requires w >= 2 && r.t >= q.t
    ensures Subtract(w, r, q, a, n).t == r.t - q.t
  {
  }

  /** The additions of a run by its parts. */
  lemma RunParts(w: nat, u: Stored, v: Stored, a: nat, n: nat)
    requires w >= 2 && u.t > 0 && v.t > 0
    ensures var u1, v1 := OddStored(w, u, a, n), OddStored(w, v, a, n);
      NoneSticks(w, RunAdditions(w, u, v, a, n)) <==>
        && NoneSticks(w, OddAdditions(w, u, a, n)) && NoneSticks(w, OddAdditions(w, v, a, n))
        && (u1.t > v1.t ==> NoneSticks(w, LessAdditions(u1, v1))
                            && NoneSticks(w, RunAdditions(w, LessStored(w, u1, v1), v1, a, n)))
        && (u1.t < v1.t ==> NoneSticks(w, LessAdditions(v1, u1))
                            && NoneSticks(w, RunAdditions(w, u1, LessStored(w, v1, u1), a, n)))
  {
    hide OddAdditions, LessAdditions, OddStored, Sticks;
    var s, t := OddAdditions(w, u, a, n), OddAdditions(w, v, a, n);
    var u1, v1 := OddStored(w, u, a, n), OddStored(w, v, a, n);
    InParts(w, s, t);
    if u1.t > v1.t {
      var rest := RunAdditions(w, LessStored(w, u1, v1), v1, a, n);
      InParts(w, LessAdditions(u1, v1), rest);
      InParts(w, s + t, LessAdditions(u1, v1) + rest);
    } else if u1.t < v1.t {
      var rest := RunAdditions(w, u1, LessStored(w, v1, u1), a, n);
      InParts(w, LessAdditions(v1, u1), rest);
      InParts(w, s + t, LessAdditions(v1, u1) + rest);
    }
  }

  /** If no addition of the exact run meets a stuck carry, the written run is exact. */
  lemma ExactUnlessSticking(w: nat, a: nat, n: nat)
    requires w >= 2 && a > 0 && n > 0 && (a % 2 == 1 || n % 2 == 1)
    requires forall o :: o in Additions(w, a, n) ==> !(o.x.s == o.s && Stuck(w, o.x, o.b))
    ensures !Outcome(w, a, n).stuck && Value(Outcome(w, a, n).c1) == Coefficient(a, n)
  {
    hide Stuck, RunAdditions, Run, RunExact;
    var u, v := Stored(a, Num(1, 1, 1), Num(1, 1, 0)), Stored(n, Num(1, 1, 0), Num(1, 1, 1));
    RunAgrees(w, FirstU(a), FirstV(n), u, v, Exact(a, 1, 0), Exact(n, 0, 1), a, n);
  }

  // ---- numbers of every length for which no carry sticks ----

  /** A magnitude no larger than what is added to it has only zeros where the carry could go. */
  lemma SmallerNeverSticks(w: nat, o: Addition)
    requires w >= 2 && (o.x.s != o.s || o.x.v <= o.b || o.b == 0)
    ensures !Sticks(w, o)
  {
    hide Pow;
    var m := LimbCount(w, o.b);
    WeightStep(w, m);
    var weight := Pow(w, m);
    if o.b == 0 {
      DivModUnique(o.x.v, o.x.v, 0, 1);
    } else if o.x.v <= o.b {
      BelowWeight(w, o.b);
      DivModUnique(o.x.v, 0, o.x.v, weight);
      DivModUnique(0, 0, 0, w);
    }
  }

  lemma {:induction false} BelowWeight(w: nat, v: nat)
    requires w >= 2
    ensures v < Pow(w, LimbCount(w, v))
    decreases v
  {
    hide Pow;
    WeightStep(w, 0);
    if v > 0 {
      DivShrinks(w, v);
      BelowWeight(w, v / w);
      DivMod(v, w);
      WeightStep(w, LimbCount(w, v / w));
      MulLe2(v / w + 1, Pow(w, LimbCount(w, v / w)), w);
      Distribute(v / w, 1, w);
    }
  }

  /** Between -lo and hi. */
  predicate Within(x: Num, lo: nat, hi: nat) {
    if x.s == 1 then x.v <= hi else x.s == -1 && x.v <= lo
  }

  /** Halving with the correction brings the first coefficient to at most n and the second to at least -a. */
  lemma HalfWithin(w: nat, r: Stored, a: nat, n: nat, lo: nat, hi: nat)
    requires w >= 2 && Within(r.c1, 2 * lo, n) && Within(r.c2, a, 2 * hi)
    ensures NoneSticks(w, HalfAdditions(r, a, n))
    ensures var q := HalfStored(w, r, a, n); Within(q.c1, lo, n) && Within(q.c2, a, hi) && q.t == r.t / 2
    ensures r.c1.s == 1 ==> HalfStored(w, r, a, n).c1.s == 1
  {
    hide LimbCount, Larger, Stuck;
    if r.c1.v % 2 != 0 || r.c2.v % 2 != 0 {
      var s := HalfAdditions(r, a, n);
      SmallerNeverSticks(w, s[0]);
      SmallerNeverSticks(w, s[1]);
    }
  }

  lemma {:induction false} OddWithin(w: nat, r: Stored, a: nat, n: nat, lo: nat, hi: nat)
    requires w >= 2 && r.t > 0
    requires if r.t % 2 == 0 then Within(r.c1, 2 * lo, n) && Within(r.c2, a, 2 * hi)
             else Within(r.c1, lo, n) && Within(r.c2, a, hi)
    ensures NoneSticks(w, OddAdditions(w, r, a, n))
    ensures Within(OddStored(w, r, a, n).c1, lo, n) && Within(OddStored(w, r, a, n).c2, a, hi)
    decreases r.t
  {
    hide HalfStored, HalfAdditions, Sticks;
    if r.t % 2 == 0 {
      HalfWithin(w, r, a, n, lo, hi);
      var q := HalfStored(w, r, a, n);
      OddWithin(w, q, a, n, lo, hi);
      InParts(w, HalfAdditions(r, a, n), OddAdditions(w, q, a, n));
    }
  }

  /** A row whose number has become one: it stays as it is. */
  predicate Fixed(q: Stored, a: nat, n: nat) {
    && q.t == 1 && q.c1.s == 1 && q.c1.v <= n
    && q.c2.v <= a && (q.c2.s == -1 || (q.c2.s == 1 && q.c2.v == 0))
  }

  /** Where the coefficients of the other row are then. */
  predicate Beside(r: Stored, q: Stored, a: nat, n: nat) {
    r.t % 2 == 1 && Within(r.c1, q.c1.v, n) && Within(r.c2, a, Larger(1, q.c2.v))
  }

  lemma LessBeside(w: nat, r: Stored, q: Stored, a: nat, n: nat)
    requires w >= 2 && Fixed(q, a, n) && Beside(r, q, a, n) && r.t > 1
    ensures NoneSticks(w, LessAdditions(r, q))
    ensures var l := LessStored(w, r, q);
      l.t == r.t - 1 && Within(l.c1, 2 * q.c1.v, n) && Within(l.c2, a, 2 * Larger(1, q.c2.v))
  {
    hide LimbCount, Stuck;
    var s := LessAdditions(r, q);
    SmallerNeverSticks(w, s[0]);
    SmallerNeverSticks(w, s[1]);
  }

  lemma OddOnce(w: nat, r: Stored, a: nat, n: nat)
    requires w >= 2 && r.t % 2 == 1
    ensures OddStored(w, r, a, n) == r && OddAdditions(w, r, a, n) == []
  {
  }

  lemma {:induction false} FixedRun(w: nat, u: Stored, v: Stored, a: nat, n: nat)
    requires w >= 2 && u.t > 0 && v.t > 0
    requires NoneSticks(w, OddAdditions(w, u, a, n)) && NoneSticks(w, OddAdditions(w, v, a, n))
    requires var u1, v1 := OddStored(w, u, a, n), OddStored(w, v, a, n);
      (Fixed(u1, a, n) && Beside(v1, u1, a, n)) || (Fixed(v1, a, n) && Beside(u1, v1, a, n))
    ensures NoneSticks(w, RunAdditions(w, u, v, a, n))
    decreases u.t + v.t
  {
    hide OddAdditions, OddStored, Sticks, LessStored, LessAdditions, Within, RunAdditions;
    var u1, v1 := OddStored(w, u, a, n), OddStored(w, v, a, n);
    RunParts(w, u, v, a, n);
    OddOnce(w, u1, a, n);
    OddOnce(w, v1, a, n);
    if u1.t > v1.t {
      LessBeside(w, u1, v1, a, n);
      var l := LessStored(w, u1, v1);
      OddWithin(w, l, a, n, v1.c1.v, Larger(1, v1.c2.v));
      FixedRun(w, l, v1, a, n);
    } else if u1.t < v1.t {
      LessBeside(w, v1, u1, a, n);
      var l := LessStored(w, v1, u1);
      OddWithin(w, l, a, n, u1.c1.v, Larger(1, u1.c2.v));
      FixedRun(w, u1, l, a, n);
    }
  }

  /** A row with a power of two is fixed once it has been halved out. */
  lemma {:induction false} PowerIsFixed(w: nat, r: Stored, a: nat, n: nat, k: nat)
    requires w >= 2 && r.t == Pow2(k) && Fixed(Stored(1, r.c1, r.c2), a, n)
    ensures NoneSticks(w, OddAdditions(w, r, a, n)) && Fixed(OddStored(w, r, a, n), a, n)
    decreases k
  {
    hide HalfStored, HalfAdditions, Sticks;
    Pow2Parity(k);
    if k > 0 {
      HalfWithin(w, r, a, n, n, 0);
      HalfFixed(w, r, a, n);
      var q := HalfStored(w, r, a, n);
      PowerIsFixed(w, q, a, n, k - 1);
      InParts(w, HalfAdditions(r, a, n), OddAdditions(w, q, a, n));
    }
  }

  lemma Pow2Parity(k: nat)
    ensures Pow2(k) % 2 == (if k == 0 then 1 else 0) && (k > 0 ==> Pow2(k) / 2 == Pow2(k - 1))
  {
  }

  lemma HalfFixed(w: nat, r: Stored, a: nat, n: nat)
    requires w >= 2 && Fixed(Stored(1, r.c1, r.c2), a, n)
    ensures var q := HalfStored(w, r, a, n); Fixed(Stored(1, q.c1, q.c2), a, n) && q.t == r.t / 2
  {
    hide LimbCount;
  }

  /** A power of two modulo an odd number, or an odd number modulo a power of two. */
  lemma PowersNeverStick(w: nat, a: nat, n: nat, k: nat)
    requires w >= 2 && 0 < a < n
    requires (a == Pow2(k) && n % 2 == 1) || (n == Pow2(k) && a % 2 == 1)
    ensures forall o :: o in Additions(w, a, n) ==> !(o.x.s == o.s && Stuck(w, o.x, o.b))
  {
    hide OddStored, OddAdditions, RunAdditions, Stuck;
    var u, v := Stored(a, Num(1, 1, 1), Num(1, 1, 0)), Stored(n, Num(1, 1, 0), Num(1, 1, 1));
    Pow2Parity(k);
    if n % 2 == 1 {
      OddOnce(w, v, a, n);
      PowerIsFixed(w, u, a, n, k);
    } else {
      OddOnce(w, u, a, n);
      FirstHalving(w, v, a, n, k);
    }
    FixedRun(w, u, v, a, n);
  }

  /** The first halving of the modulus gives its row the signs of a fixed one. */
  lemma FirstHalving(w: nat, v: Stored, a: nat, n: nat, k: nat)
    requires w >= 2 && a > 0 && n == Pow2(k) && n > 1 && v == Stored(n, Num(1, 1, 0), Num(1, 1, 1))
    ensures NoneSticks(w, OddAdditions(w, v, a, n)) && Fixed(OddStored(w, v, a, n), a, n)
  {
    hide LimbCount, Sticks;
    Pow2Parity(k);
    HalfWithin(w, v, a, n, 0, 1);
    var q := HalfStored(w, v, a, n);
    PowerIsFixed(w, q, a, n, k - 1);
    InParts(w, HalfAdditions(v, a, n), OddAdditions(w, q, a, n));
  }
}
