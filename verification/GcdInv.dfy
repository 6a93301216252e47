/**
 * Binary gcd and modular inverse (src/bootloader/myboot/bignum.c, lines
 * 1403-1542).
 */
module GcdInv {
  import opened Arith
  import opened Bits
  import opened Modular
  import opened Gcds
  import opened Coprimes
  import opened Limbs
  import opened Mpis
  import opened AddSub
  import opened Mul
  import opened Shift
  import opened Division
  import opened Exponentiation

  lemma HalfOf(x: nat)
    ensures x / Pow2(1) == x / 2
  {
    Pow2Step(0);
  }

  /** while( ( T.p[0] & 1 ) == 0 ) mpi_shift_r( T, 1 ), next to an odd number. */
  method StripTwos(T: Mpi, ghost other: nat)
    requires T.Ready() && T.Abs() > 0 && (T.Abs() % 2 == 1 || other % 2 == 1)
    modifies T
    ensures T.Ready() && T.s == old(T.s) && |T.p| == old(|T.p|)
    ensures 0 < T.Abs() <= old(T.Abs()) && T.Abs() % 2 == 1
    ensures Gcd(T.Abs(), other) == Gcd(old(T.Abs()), other)
  {
    hide Val, Pow, Wp, Pow2, Gcd;
    ParityOfLow(T.p);
    while T.p[0] % 2 == 0
      invariant T.Ready() && T.s == old(T.s) && |T.p| == old(|T.p|)
      invariant 0 < T.Abs() <= old(T.Abs()) && T.Abs() % 2 == T.p[0] % 2
      invariant Gcd(T.Abs(), other) == Gcd(old(T.Abs()), other)
      invariant T.Abs() % 2 == 1 || other % 2 == 1
      decreases T.Abs()
    {
      HalfOf(T.Abs());
      GcdHalf(T.Abs() / 2, other);
      ShiftR(T, 1);
      ParityOfLow(T.p);
    }
  }

  /** Lines 1433-1434: X = (X - Y) / 2 for odd X >= Y. */
  method SubHalve(X: Mpi, Y: Mpi)
    requires X != Y && X.Ready() && Y.Ready() && X.Abs() >= Y.Abs() && X.Abs() % 2 == 1 && Y.Abs() % 2 == 1
    modifies X
    ensures X.Ready() && X.s == old(X.s) && X.Abs() == (old(X.Abs()) - Y.Abs()) / 2
    ensures Gcd(X.Abs(), Y.Abs()) == Gcd(old(X.Abs()), Y.Abs())
  {
    hide Val, Pow, Wp, Pow2, Gcd;
    GcdSub(X.Abs(), Y.Abs());
    var r := SubAbs(X, X, Y);
    HalfOf(X.Abs());
    GcdHalf(X.Abs() / 2, Y.Abs());
    ShiftR(X, 1);
  }

  /** Lines 1431-1440: both made odd, and the smaller taken from the larger. */
  method GcdStep(TA: Mpi, TB: Mpi)
    requires TA != TB && TA.Ready() && TB.Ready() && TA.s == 1 && TB.s == 1 && TA.Abs() > 0 && TB.Abs() > 0
    requires TA.Abs() % 2 == 1 || TB.Abs() % 2 == 1
    modifies TA, TB
    ensures TA.Ready() && TB.Ready() && TA.s == 1 && TB.s == 1
    ensures TB.Abs() > 0 && (TA.Abs() > 0 ==> TA.Abs() % 2 == 1 || TB.Abs() % 2 == 1)
    ensures TA.Abs() + TB.Abs() < old(TA.Abs() + TB.Abs())
    ensures Gcd(TA.Abs(), TB.Abs()) == Gcd(old(TA.Abs()), old(TB.Abs()))
  {
    hide Val, Pow, Wp, Gcd, Sig;
    StripTwos(TA, TB.Abs());
    GcdComm(TA.Abs(), TB.Abs());
    StripTwos(TB, TA.Abs());
    GcdComm(TA.Abs(), TB.Abs());
    var c := CmpMpi(TA, TB);
    if c >= 0 {
      SubHalve(TA, TB);
    } else {
      GcdComm(TA.Abs(), TB.Abs());
      SubHalve(TB, TA);
      GcdComm(TA.Abs(), TB.Abs());
    }
  }

  /** Lines 1426-1441: the gcd of two numbers not both even, left in TB. */
  method OddGcd(TA: Mpi, TB: Mpi)
    requires TA != TB && TA.Ready() && TB.Ready() && TA.s == 1 && TB.s == 1
    requires TA.Abs() > 0 ==> TB.Abs() > 0 && (TA.Abs() % 2 == 1 || TB.Abs() % 2 == 1)
    modifies TA, TB
    ensures TB.Ready() && TB.s == 1 && TB.Abs() == Gcd(old(TA.Abs()), old(TB.Abs()))
  {
    hide Val, Pow, Wp, Gcd, Sig;
    var c := CmpInt(TA, 0);
    while c != 0
      invariant TA.Ready() && TB.Ready() && TA.s == 1 && TB.s == 1 && c == Sign(TA.Abs())
      invariant TA.Abs() > 0 ==> TB.Abs() > 0 && (TA.Abs() % 2 == 1 || TB.Abs() % 2 == 1)
      invariant Gcd(TA.Abs(), TB.Abs()) == Gcd(old(TA.Abs()), old(TB.Abs()))
      decreases TA.Abs() + TB.Abs()
    {
      GcdStep(TA, TB);
      c := CmpInt(TA, 0);
    }
    GcdZero(TB.Abs());
  }

  lemma FewerTwos(x: nat, k: nat)
    requires k <= Twos(x)
    ensures x == (x / Pow2(k)) * Pow2(k)
    ensures x > 0 && k == Twos(x) ==> (x / Pow2(k)) % 2 == 1
    ensures x > 0 ==> x / Pow2(k) > 0
  {
    hide Pow, Pow2;
    if x == 0 {
      DivModUnique(0, 0, 0, Pow2(k));
    } else {
      TwosSplit(x);
      var t := Twos(x);
      var o := x / Pow2(t);
      Pow2Add(t - k, k);
      Associate(o, Pow2(t - k), Pow2(k));
      DivModUnique(x, o * Pow2(t - k), 0, Pow2(k));
      MulLe2(1, o, Pow2(t - k));
    }
  }

  /** Lines 1419-1424. */
  method CommonTwos(TA: Mpi, TB: Mpi) returns (count: nat)
    requires TA != TB && TA.Ready() && TB.Ready() && (TA.Abs() > 0 ==> TB.Abs() > 0)
    modifies TA, TB
    ensures TA.Ready() && TA.s == old(TA.s) && TB.Ready() && TB.s == old(TB.s)
    ensures old(TA.Abs()) == TA.Abs() * Pow2(count) && old(TB.Abs()) == TB.Abs() * Pow2(count)
    ensures TA.Abs() > 0 ==> TB.Abs() > 0 && (TA.Abs() % 2 == 1 || TB.Abs() % 2 == 1)
  {
    hide Val, Pow, Pow2, Twos;
    var la := Lsb(TA);
    var lb := Lsb(TB);
    count := if la < lb then la else lb;
    TwosZero();
    FewerTwos(TA.Abs(), count);
    FewerTwos(TB.Abs(), count);
    ShiftR(TA, count);
    ShiftR(TB, count);
  }

  /** A new number, the magnitude of A. */
  method Absolute(A: Mpi) returns (T: Mpi)
    requires A.Ready()
    ensures fresh(T) && T.Ready() && T.s == 1 && T.Abs() == A.Abs()
  {
    hide Val, Sig;
    T := new Mpi();
    Copy(T, A);
    T.s := 1;
  }

  lemma GcdOfScaled(a: nat, b: nat, ta: nat, tb: nat, m: nat)
    requires m > 0 && a == ta * m && b == tb * m
    ensures Gcd(a, b) == m * Gcd(ta, tb)
  {
    hide Gcd;
    GcdScale(ta, tb, m);
  }

  /**
   * mpi_gcd: the greatest common divisor of |A| and |B|. With B zero and A
   * not, the loop at line 1429 does not end.
   */
  method GcdMpi(G: Mpi, A: Mpi, B: Mpi)
    requires G.Valid() && A.Ready() && B.Ready() && (A.Abs() > 0 ==> B.Abs() > 0)
    modifies G
    ensures G.Ready() && G.s == 1 && G.Abs() == Gcd(old(A.Abs()), old(B.Abs()))
  {
    hide Val, Pow, Wp, Pow2, Gcd, Sig, BitLen, BitsToLimbs;
    WBound();
    var TG := FromInt(1);
    var TA := Absolute(A);
    var TB := Absolute(B);
    var count := CommonTwos(TA, TB);
    GcdOfScaled(A.Abs(), B.Abs(), TA.Abs(), TB.Abs(), Pow2(count));
    ShiftL(TG, count);
    OddGcd(TA, TB);
    MulMpi(G, TG, TB);
  }

  // ---- mpi_inv_mod ----

  /** mpi_shift_r by one on an even number of either sign. */
  method HalveEven(C: Mpi)
    requires C.Ready() && C.Abs() % 2 == 0
    modifies C
    ensures C.Ready() && C.s == old(C.s) && 2 * C.Value() == old(C.Value())
  {
    hide Val, Pow, Pow2;
    HalfOf(C.Abs());
    ShiftR(C, 1);
  }

  lemma ParityOfSigned(s: int, v: nat)
    requires s == 1 || s == -1
    ensures (s * v) % 2 == v % 2
  {
    var k := v / 2;
    assert s * v == if s == 1 then v else 0 - v;
    assert v == 2 * k + v % 2;
  }

  lemma ParityOfValue(X: Mpi)
    requires X.Ready()
    ensures X.p[0] % 2 == X.Abs() % 2 && X.Value() % 2 == X.Abs() % 2
  {
    hide Val;
    ParityOfLow(X.p);
    ParityOfSigned(X.s, Val(X.p));
  }

  /** C1 * ta + C2 * tb is T, as integers. */
  ghost predicate Bezout(T: Mpi, C1: Mpi, C2: Mpi, ta: int, tb: int)
    reads T, C1, C2
  {
    T.Ready() && T.s == 1 && C1.Ready() && C2.Ready() && C1.Value() * ta + C2.Value() * tb == T.Abs()
  }

  /** Lines 1489-1496, after T has been halved; t is its old value. */
  method HalveCoefficients(C1: Mpi, C2: Mpi, TA: Mpi, TB: Mpi, ghost t: nat)
    requires C1 != C2 && C1 !in {TA, TB} && C2 !in {TA, TB}
    requires C1.Ready() && C2.Ready() && TA.Ready() && TB.Ready()
    requires TA.Value() % 2 == 1 || TB.Value() % 2 == 1
    requires t % 2 == 0 && C1.Value() * TA.Value() + C2.Value() * TB.Value() == t
    modifies C1, C2
    ensures C1.Ready() && C2.Ready() && C1.Value() * TA.Value() + C2.Value() * TB.Value() == t / 2
  {
    hide Val;
    ghost var c1, c2, ta, tb := C1.Value(), C2.Value(), TA.Value(), TB.Value();
    ParityOfValue(C1);
    ParityOfValue(C2);
    if C1.p[0] % 2 != 0 || C2.p[0] % 2 != 0 {
      HalvesExactly(c1, c2, ta, tb);
      SameCombination(c1, c2, ta, tb);
      AddMpiStepped(C1, C1, TB);
      SubMpiStepped(C2, C2, TA);
      ParityOfValue(C1);
      ParityOfValue(C2);
    }
    HalfCombination(C1.Value(), C2.Value(), ta, tb, t);
    HalveEven(C1);
    HalveEven(C2);
  }

  /** Lines 1487-1496, and again at 1501-1510. */
  method HalveStep(T: Mpi, C1: Mpi, C2: Mpi, TA: Mpi, TB: Mpi, ghost other: nat)
    requires C1 != C2 && T !in {C1, C2, TA, TB} && C1 !in {TA, TB} && C2 !in {TA, TB}
    requires TA.Ready() && TB.Ready() && Bezout(T, C1, C2, TA.Value(), TB.Value()) && T.Abs() > 0
    requires TA.Value() % 2 == 1 || TB.Value() % 2 == 1
    requires T.Abs() % 2 == 0 && Gcd(T.Abs(), other) == 1
    modifies T, C1, C2
    ensures Bezout(T, C1, C2, TA.Value(), TB.Value()) && T.Abs() == old(T.Abs()) / 2
    ensures Gcd(T.Abs(), other) == 1
  {
    hide Val, Pow, Pow2, Gcd;
    ghost var t := T.Abs();
    HalfOf(t);
    ShiftR(T, 1);
    CoprimeHalf(t, other);
    HalveCoefficients(C1, C2, TA, TB, t);
  }

  /** Lines 1485-1497, and again at 1499-1511. */
  method HalveOut(T: Mpi, C1: Mpi, C2: Mpi, TA: Mpi, TB: Mpi, ghost other: nat)
    requires C1 != C2 && T !in {C1, C2, TA, TB} && C1 !in {TA, TB} && C2 !in {TA, TB}
    requires TA.Ready() && TB.Ready() && Bezout(T, C1, C2, TA.Value(), TB.Value()) && T.Abs() > 0
    requires TA.Value() % 2 == 1 || TB.Value() % 2 == 1
    requires Gcd(T.Abs(), other) == 1
    modifies T, C1, C2
    ensures Bezout(T, C1, C2, TA.Value(), TB.Value()) && 0 < T.Abs() <= old(T.Abs())
    ensures Gcd(T.Abs(), other) == 1
  {
    hide Val, Pow, Pow2, Gcd;
    ParityOfValue(T);
    while T.p[0] % 2 == 0
      invariant Bezout(T, C1, C2, TA.Value(), TB.Value()) && 0 < T.Abs() <= old(T.Abs())
      invariant Gcd(T.Abs(), other) == 1 && T.p[0] % 2 == T.Abs() % 2
      decreases T.Abs()
    {
      HalveStep(T, C1, C2, TA, TB, other);
      ParityOfValue(T);
    }
  }

  const ERR_MPI_NOT_INVERTIBLE := 0x000C

  /** The eight working numbers are different objects. */
  predicate Apart(a: Mpi, b: Mpi, c: Mpi, d: Mpi, e: Mpi, f: Mpi, g: Mpi, h: Mpi) {
    && a !in {b, c, d, e, f, g, h} && b !in {c, d, e, f, g, h} && c !in {d, e, f, g, h}
    && d !in {e, f, g, h} && e !in {f, g, h} && f !in {g, h} && g != h
  }

  /** One pass of lines 1485-1524. */
  method InvStep(TU: Mpi, U1: Mpi, U2: Mpi, TV: Mpi, V1: Mpi, V2: Mpi, TA: Mpi, TB: Mpi)
    requires Apart(TU, U1, U2, TV, V1, V2, TA, TB)
    requires TA.Ready() && TB.Ready() && (TA.Value() % 2 == 1 || TB.Value() % 2 == 1)
    requires Bezout(TU, U1, U2, TA.Value(), TB.Value()) && Bezout(TV, V1, V2, TA.Value(), TB.Value())
    requires TU.Abs() > 0 && TV.Abs() > 0 && Gcd(TU.Abs(), TV.Abs()) == 1
    modifies TU, U1, U2, TV, V1, V2
    ensures Bezout(TU, U1, U2, TA.Value(), TB.Value()) && Bezout(TV, V1, V2, TA.Value(), TB.Value())
    ensures TV.Abs() > 0 && Gcd(TU.Abs(), TV.Abs()) == 1
    ensures TU.Abs() + TV.Abs() < old(TU.Abs() + TV.Abs())
  {
    hide Val, Gcd, Sig;
    HalveOut(TU, U1, U2, TA, TB, TV.Abs());
    GcdComm(TU.Abs(), TV.Abs());
    HalveOut(TV, V1, V2, TA, TB, TU.Abs());
    GcdComm(TU.Abs(), TV.Abs());
    var c := CmpMpi(TU, TV);
    if c >= 0 {
      GcdSub(TU.Abs(), TV.Abs());
      SubRow(TU, U1, U2, TV, V1, V2, TA.Value(), TB.Value());
    } else {
      GcdSub(TV.Abs(), TU.Abs());
      SubRow(TV, V1, V2, TU, U1, U2, TA.Value(), TB.Value());
      GcdComm(TU.Abs(), TV.Abs());
    }
  }

  /** Lines 1515-1517, and with the roles exchanged 1521-1523. */
  method SubRow(T: Mpi, C1: Mpi, C2: Mpi, S: Mpi, D1: Mpi, D2: Mpi, ghost ta: int, ghost tb: int)
    requires T !in {C1, C2, S, D1, D2} && C1 !in {C2, S, D1, D2} && C2 !in {S, D1, D2}
    requires Bezout(T, C1, C2, ta, tb) && Bezout(S, D1, D2, ta, tb) && T.Abs() >= S.Abs()
    modifies T, C1, C2
    ensures Bezout(T, C1, C2, ta, tb) && T.Abs() == old(T.Abs()) - S.Abs()
  {
    hide Val, Sig, AddSticks, AddLoss;
    Distribute(C1.Value(), D1.Value(), ta);
    Distribute(C2.Value(), D2.Value(), tb);
    SubMpi(T, T, S);
    SubMpiStepped(C1, C1, D1);
    SubMpiStepped(C2, C2, D2);
  }

  /** Lines 1483-1526: TV goes down to the gcd, which is one. */
  method InvLoop(TU: Mpi, U1: Mpi, U2: Mpi, TV: Mpi, V1: Mpi, V2: Mpi, TA: Mpi, TB: Mpi)
    requires Apart(TU, U1, U2, TV, V1, V2, TA, TB)
    requires TA.Ready() && TB.Ready() && (TA.Value() % 2 == 1 || TB.Value() % 2 == 1)
    requires Bezout(TU, U1, U2, TA.Value(), TB.Value()) && Bezout(TV, V1, V2, TA.Value(), TB.Value())
    requires TU.Abs() > 0 && TV.Abs() > 0 && Gcd(TU.Abs(), TV.Abs()) == 1
    modifies TU, U1, U2, TV, V1, V2
    ensures V1.Ready() && V2.Ready() && V1.Value() * TA.Value() + V2.Value() * TB.Value() == 1
  {
    hide Val, Gcd, Sig;
    var again := true;
    while again
      invariant Bezout(TU, U1, U2, TA.Value(), TB.Value()) && Bezout(TV, V1, V2, TA.Value(), TB.Value())
      invariant TV.Abs() > 0 && Gcd(TU.Abs(), TV.Abs()) == 1
      invariant again <==> TU.Abs() > 0
      decreases TU.Abs() + TV.Abs()
    {
      InvStep(TU, U1, U2, TV, V1, V2, TA, TB);
      var c := CmpInt(TU, 0);
      again := c != 0;
    }
    GcdZero(TV.Abs());
  }

  /** Lines 1528-1529: N is added until V1 is not negative. */
  method LiftToZero(V1: Mpi, N: Mpi, ghost a: int)
    requires V1 != N && V1.Ready() && N.Ready() && N.s == 1 && N.Abs() > 1 && Cong(a * V1.Value(), 1, N.Abs())
    modifies V1
    ensures V1.Ready() && V1.Value() >= 0 && Cong(a * V1.Value(), 1, N.Abs())
  {
    hide Val, Sig, Cong, AddSticks, AddLoss;
    var c := CmpInt(V1, 0);
    while c < 0
      invariant V1.Ready() && Cong(a * V1.Value(), 1, N.Abs()) && c == Sign(V1.Value())
      decreases -V1.Value()
    {
      InverseShift(a, V1.Value(), V1.Value() + N.Abs(), N.Abs());
      AddMpi(V1, V1, N);
      c := CmpInt(V1, 0);
    }
  }

  /** Lines 1531-1532: N is taken off until V1 is below it. */
  method DropBelow(V1: Mpi, N: Mpi, ghost a: int)
    requires V1 != N && V1.Ready() && N.Ready() && N.s == 1 && N.Abs() > 1 && Cong(a * V1.Value(), 1, N.Abs())
    requires V1.Value() >= 0
    modifies V1
    ensures V1.Ready() && 0 <= V1.Value() < N.Abs() && Cong(a * V1.Value(), 1, N.Abs())
  {
    hide Val, Sig, Cong, AddSticks, AddLoss;
    NotZero(a, V1.Value(), N.Abs());
    var c := CmpMpi(V1, N);
    while c >= 0
      invariant V1.Ready() && Cong(a * V1.Value(), 1, N.Abs()) && V1.Value() >= 0
      invariant c == Sign(V1.Value() - N.Abs())
      decreases V1.Value()
    {
      InverseShift(a, V1.Value(), V1.Value() - N.Abs(), N.Abs());
      NotZero(a, V1.Value(), N.Abs());
      SubMpi(V1, V1, N);
      NotZero(a, V1.Value(), N.Abs());
      c := CmpMpi(V1, N);
    }
  }

  /**
   * mpi_inv_mod, with the carry loop of mpi_add_abs stepped: the inverse in
   * [0, N) exactly when there is one. For N = 1 the loop at line 1485 does
   * not end.
   */
  method InvModStepped(X: Mpi, A: Mpi, N: Mpi) returns (ret: int)
    requires X.Valid() && A.Ready() && N.Ready() && N.Value() != 1
    modifies X
    ensures ret == if old(N.Value()) <= 0 then ERR_MPI_INVALID_PARAMETER
                   else if Gcd(old(A.Abs()), old(N.Abs())) != 1 then ERR_MPI_NOT_INVERTIBLE else 0
    ensures ret == 0 ==> X.Ready() && 0 <= X.Value() < old(N.Value())
    ensures ret == 0 ==> Cong(old(A.Value()) * X.Value(), 1, old(N.Value()))
    ensures ret != 0 ==> unchanged(X)
  {
    hide Val, Pow, Wp, Gcd, Sig, Cong;
    var c := CmpInt(N, 0);
    if c <= 0 {
      return ERR_MPI_INVALID_PARAMETER;
    }
    var G := new Mpi();
    GcdMpi(G, A, N);
    WBound();
    c := CmpInt(G, 1);
    if c != 0 {
      return ERR_MPI_NOT_INVERTIBLE;
    }
    var V1 := Inverse(A, N);
    Copy(X, V1);
    return 0;
  }

  /** Lines 1473-1532, for a base coprime to N > 1. */
  method Inverse(A: Mpi, N: Mpi) returns (V1: Mpi)
    requires A.Ready() && N.Ready() && N.s == 1 && N.Abs() > 1 && Gcd(A.Abs(), N.Abs()) == 1
    ensures fresh(V1) && V1.Ready() && 0 <= V1.Value() < N.Abs() && Cong(A.Value() * V1.Value(), 1, N.Abs())
  {
    hide Val, Gcd, Sig, Cong;
    ghost var a, n := A.Value(), N.Abs();
    GcdResidue(a, n);
    GcdZero(n);
    var TA := new Mpi();
    var r := ModMpi(TA, A, N);
    V1 := BezoutCoefficient(TA, N, a);
    LiftToZero(V1, N, a);
    DropBelow(V1, N, a);
  }

  /** Lines 1474-1526, from TA = A mod N. */
  method BezoutCoefficient(TA: Mpi, N: Mpi, ghost a: int) returns (V1: Mpi)
    requires TA != N && TA.Ready() && TA.s == 1 && N.Ready() && N.s == 1 && N.Abs() > 1
    requires 0 < TA.Abs() == a % N.Abs() && Gcd(TA.Abs(), N.Abs()) == 1
    ensures fresh(V1) && V1.Ready() && Cong(a * V1.Value(), 1, N.Abs())
  {
    hide Val, Gcd, Cong;
    ghost var n := N.Abs();
    ghost var ta: int := a % n;
    NotBothEven(ta, n);
    var TB, TU, U1, U2, TV, V1', V2 := StartRows(TA, N);
    V1 := V1';
    InvLoop(TU, U1, U2, TV, V1, V2, TA, TB);
    InverseButFor(V1.Value(), V2.Value(), 0, a, n);
  }

  /** Lines 1474-1481. */
  method StartRows(TA: Mpi, N: Mpi) returns (TB: Mpi, TU: Mpi, U1: Mpi, U2: Mpi, TV: Mpi, V1: Mpi, V2: Mpi)
    requires TA != N && TA.Ready() && TA.s == 1 && N.Ready() && N.s == 1
    ensures fresh({TB, TU, U1, U2, TV, V1, V2}) && Apart(TU, U1, U2, TV, V1, V2, TA, TB)
    ensures TB.Ready() && TB.s == 1 && TB.Abs() == N.Abs()
    ensures Bezout(TU, U1, U2, TA.Value(), TB.Value()) && TU.Abs() == TA.Abs()
    ensures Bezout(TV, V1, V2, TA.Value(), TB.Value()) && TV.Abs() == N.Abs()
  {
    hide Val, Sig, Pow;
    WBound();
    TU, U1, U2 := StartRow(TA, 1, 0);
    TB := new Mpi();
    Copy(TB, N);
    TV, V1, V2 := StartRow(N, 0, 1);
    UnitRows(TA.Value(), TB.Value());
  }

  method StartRow(Y: Mpi, c1: limb, c2: limb) returns (T: Mpi, C1: Mpi, C2: Mpi)
    requires Y.Ready()
    ensures fresh({T, C1, C2}) && T !in {C1, C2} && C1 != C2
    ensures T.Ready() && T.s == Y.s && T.Abs() == Y.Abs()
    ensures C1.Ready() && C1.Value() == c1 && C2.Ready() && C2.Value() == c2
  {
    hide Val, Sig, Pow;
    T := new Mpi();
    Copy(T, Y);
    C1 := FromInt(c1);
    C2 := FromInt(c2);
  }

  lemma UnitRows(a: int, b: int)
    ensures 1 * a + 0 * b == a && 0 * a + 1 * b == b
  {}
}
