/**
 * mpi_inv_mod as it is written (src/bootloader/myboot/bignum.c, lines
 * 1454-1542), with the carry loop of mpi_add_abs as it is written.
 */
module Inverse {
  import opened Arith
  import opened Bits
  import opened Modular
  import opened Gcds
  import opened Coprimes
  import opened Limbs
  import opened Mpis
  import opened AddSub
  import opened Shift
  import opened Division
  import opened Exponentiation
  import opened GcdInv
  import opened InverseRun
  import opened InverseExact

  /** An mpi as the run sees it. */
  ghost function NumOf(X: Mpi): Num
    reads X
  {
    Num(X.s, |X.p|, X.Abs())
  }

  lemma LimbsOfValue(s: seq<limb>)
    ensures W >= 2 && LimbCount(W, Val(s)) == Sig(s)
  {
    WBound();
    hide Pow, Val, Sig;
    SigVal(s);
    if Sig(s) > 0 {
      LimbsBetween(W, Val(s), Sig(s) - 1);
    }
  }

  /** A limb of a number by division. */
  lemma LimbByDivision(a: seq<limb>, m: nat)
    ensures (Val(a) / Wp(m)) % W == if m < |a| then a[m] else 0
    ensures Val(a) % Wp(m) == if m < |a| then Val(a[..m]) else Val(a)
  {
    hide Pow, Wp;
    WBound();
    if m < |a| {
      ValSplit(a, m);
      ValBound(a[..m]);
      ValSplitFirst(a[m..]);
      hide Val;
      var high := Val(a[m..]);
      Associate(Wp(m), high, 1);
      DivModUnique(Val(a), high, Val(a[..m]), Wp(m));
      Associate(W, Val(a[m..][1..]), 1);
      DivModUnique(high, Val(a[m..][1..]), a[m], W);
    } else {
      ValBound(a);
      WpMono(|a|, m);
      hide Val;
      DivModUnique(Val(a), 0, Val(a), Wp(m));
      DivModUnique(0, 0, 0, W);
    }
  }

  /** The sticking of the limb loop is that of the run. */
  lemma SticksAlike(x: Num, a: seq<limb>, b: seq<limb>)
    requires x.n == |a| && x.v == Val(a)
    ensures W >= 2
    ensures CarrySticks(Larger(|a|, Sig(b)), a, b) <==> Stuck(W, x, Val(b))
    ensures StickLoss(Larger(|a|, Sig(b)), a, b) == Loss(W, x, Val(b))
  {
    WBound();
    LimbsOfValue(b);
    LimbByDivision(a, Sig(b));
    hide Val, Pow, Sig;
    var m := Sig(b);
    WpStep(m);
    Distribute(W, 1, Wp(m));
    assert Pow(W, m) == Wp(m);
  }

  // ---- one addition ----

  lemma LossOf(X: Mpi, B: Mpi)
    requires X != B
    ensures W >= 2 && AddLoss(X, X, B) == Loss(W, NumOf(X), B.Abs())
    ensures AddCase(X, X, B).0 == Larger(|X.p|, LimbCount(W, B.Abs()))
    ensures X.Abs() < B.Abs() ==> DifferenceLimbs(X, X, B) == Larger(|X.p|, Larger(1, LimbCount(W, B.Abs())))
    ensures X.Abs() >= B.Abs() ==> DifferenceLimbs(X, X, B) == |X.p|
  {
    WBound();
    hide StickLoss, Loss, Val, Sig;
    SticksAlike(NumOf(X), X.p, B.p);
    LimbsOfValue(B.p);
  }

  /** A sum by its value, sign and limbs. */
  lemma PlusIs(x: Num, s: int, b: nat, y: Num)
    requires Signed(x) && (s == 1 || s == -1) && W >= 2
    requires y.s == if x.s == s || x.v >= b then x.s else -x.s
    requires Value(y) == Value(x) + s * b - (if x.s == s then x.s * Loss(W, x, b) else 0)
    requires x.s == s ==> y.n == Larger(Larger(x.n, LimbCount(W, b)), LimbCount(W, y.v))
    requires x.s != s ==> y.n == if x.v >= b then x.n else Larger(x.n, Larger(1, LimbCount(W, b)))
    ensures y == Plus(W, x, s, b)
  {
    hide Loss, LimbCount, Stuck;
    SameMagnitude(x.s, x.v, s, b, if x.s == s then Loss(W, x, b) else 0, y.s, y.v);
  }

  lemma SameMagnitude(xs: int, x: nat, s: int, b: nat, l: nat, ys: int, y: nat)
    requires (xs == 1 || xs == -1) && (s == 1 || s == -1) && (xs != s ==> l == 0)
    requires ys == (if xs == s || x >= b then xs else -xs) && ys * y == xs * x + s * b - xs * l
    ensures y == if xs == s then x + b - l else if x >= b then x - b else b - x
  {
  }

  /** mpi_add_mpi( X, X, B ): what the limbs do is what the run says. */
  method AddTo(X: Mpi, B: Mpi)
    requires X.Ready() && B.Ready() && X != B
    modifies X
    ensures X.Ready() && W >= 2 && NumOf(X) == Plus(W, old(NumOf(X)), B.s, B.Abs())
  {
    hide Val, Pow, Sig, AddLoss, AddCase, DifferenceLimbs, AddSticks, Loss, Stuck, Plus, LimbCount;
    ghost var x := NumOf(X);
    LossOf(X, B);
    AddMpi(X, X, B);
    LimbsOfValue(X.p);
    PlusIs(x, B.s, B.Abs(), NumOf(X));
  }

  /** mpi_sub_mpi( X, X, B ). */
  method SubFrom(X: Mpi, B: Mpi)
    requires X.Ready() && B.Ready() && X != B
    modifies X
    ensures X.Ready() && W >= 2 && NumOf(X) == Plus(W, old(NumOf(X)), -B.s, B.Abs())
  {
    hide Val, Pow, Sig, AddLoss, AddCase, DifferenceLimbs, AddSticks, Loss, Stuck, Plus, LimbCount;
    ghost var x := NumOf(X);
    LossOf(X, B);
    NegateProduct(B.s, B.Abs());
    SubMpi(X, X, B);
    LimbsOfValue(X.p);
    PlusIs(x, -B.s, B.Abs(), NumOf(X));
  }

  /** mpi_shift_r( X, 1 ). */
  method HalveOne(X: Mpi)
    requires X.Ready()
    modifies X
    ensures X.Ready() && NumOf(X) == Half(old(NumOf(X)))
  {
    hide Val, Pow, Pow2;
    HalfOf(X.Abs());
    ShiftR(X, 1);
  }

  // ---- the rows ----

  lemma SignRule(s: int, v: nat)
    ensures s == 1 ==> s * v == v
    ensures s == -1 ==> s * v == 0 - v
  {
  }

  /** Three mpi hold a row of the run. */
  ghost predicate Shows(T: Mpi, C1: Mpi, C2: Mpi, r: Row)
    reads T, C1, C2
  {
    T.Ready() && T.s == 1 && C1.Ready() && C2.Ready()
    && T.Abs() == r.t && NumOf(C1) == r.c1 && NumOf(C2) == r.c2
  }

  lemma OddLimb(X: Mpi)
    requires X.Ready()
    ensures X.p[0] % 2 == X.Abs() % 2
  {
    hide Val;
    ParityOfLow(X.p);
  }

  /** Lines 1487-1496, and again at 1501-1510. */
  method HalveOnce(T: Mpi, C1: Mpi, C2: Mpi, TA: Mpi, TB: Mpi, ghost r: Row)
    requires T !in {C1, C2, TA, TB} && C1 !in {C2, TA, TB} && C2 !in {TA, TB}
    requires Shows(T, C1, C2, r) && TA.Ready() && TA.s == 1 && TB.Ready() && TB.s == 1
    modifies T, C1, C2
    ensures W >= 2 && Shows(T, C1, C2, HalveRow(W, r, TA.Abs(), TB.Abs()))
  {
    hide Val, Pow, Plus, Loss, Stuck, Lost;
    WBound();
    HalveOne(T);
    OddLimb(C1);
    OddLimb(C2);
    if C1.p[0] % 2 != 0 || C2.p[0] % 2 != 0 {
      AddTo(C1, TB);
      SubFrom(C2, TA);
    }
    HalveOne(C1);
    HalveOne(C2);
  }

  /** Lines 1485-1497, and again at 1499-1511. */
  method HalveWhole(T: Mpi, C1: Mpi, C2: Mpi, TA: Mpi, TB: Mpi, ghost r: Row) returns (ghost q: Row)
    requires T !in {C1, C2, TA, TB} && C1 !in {C2, TA, TB} && C2 !in {TA, TB}
    requires Shows(T, C1, C2, r) && r.t > 0 && TA.Ready() && TA.s == 1 && TB.Ready() && TB.s == 1
    modifies T, C1, C2
    ensures W >= 2 && q == HalveAll(W, r, TA.Abs(), TB.Abs()) && Shows(T, C1, C2, q)
  {
    hide Val, Pow, HalveRow;
    WBound();
    q := r;
    OddLimb(T);
    while T.p[0] % 2 == 0
      invariant Shows(T, C1, C2, q) && q.t > 0 && T.p[0] % 2 == q.t % 2
      invariant HalveAll(W, q, TA.Abs(), TB.Abs()) == HalveAll(W, r, TA.Abs(), TB.Abs())
      decreases q.t
    {
      HalvesNumber(W, q, TA.Abs(), TB.Abs());
      HalveOnce(T, C1, C2, TA, TB, q);
      q := HalveRow(W, q, TA.Abs(), TB.Abs());
      OddLimb(T);
    }
  }

  /** Lines 1515-1517, and with the roles exchanged 1521-1523. */
  method SubtractRow(T: Mpi, C1: Mpi, C2: Mpi, S: Mpi, D1: Mpi, D2: Mpi,
                     ghost r: Row, ghost q: Row, ghost ta: nat, ghost tb: nat)
    requires T !in {C1, C2, S, D1, D2} && C1 !in {C2, S, D1, D2} && C2 !in {S, D1, D2}
    requires Shows(T, C1, C2, r) && Shows(S, D1, D2, q) && r.t >= q.t
    modifies T, C1, C2
    ensures W >= 2 && Shows(T, C1, C2, Subtract(W, r, q, ta, tb))
  {
    hide Val, Pow, Sig, Plus, Loss, Stuck, Lost, AddSticks, AddLoss;
    SubMpi(T, T, S);
    SubFrom(C1, D1);
    SubFrom(C2, D2);
  }

  /** One pass of lines 1485-1524. */
  method Turn(TU: Mpi, U1: Mpi, U2: Mpi, TV: Mpi, V1: Mpi, V2: Mpi, TA: Mpi, TB: Mpi, ghost u0: Row, ghost v0: Row)
    returns (again: bool, ghost u: Row, ghost v: Row)
    requires Apart(TU, U1, U2, TV, V1, V2, TA, TB)
    requires TA.Ready() && TA.s == 1 && TB.Ready() && TB.s == 1
    requires Shows(TU, U1, U2, u0) && Shows(TV, V1, V2, v0) && u0.t > 0 && v0.t > 0
    modifies TU, U1, U2, TV, V1, V2
    ensures W >= 2 && Shows(TU, U1, U2, u) && Shows(TV, V1, V2, v) && v.t > 0 && u.t + v.t < u0.t + v0.t
    ensures again <==> u.t > 0
    ensures Run(W, u0, v0, TA.Abs(), TB.Abs()) == if again then Run(W, u, v, TA.Abs(), TB.Abs()) else v
  {
    hide Val, Pow, Sig, HalveAll, Subtract, Run, Plus;
    WBound();
    ghost var ta, tb := TA.Abs(), TB.Abs();
    ghost var u1 := HalveWhole(TU, U1, U2, TA, TB, u0);
    ghost var v1 := HalveWhole(TV, V1, V2, TA, TB, v0);
    var c := CmpMpi(TU, TV);
    SignRule(1, u1.t);
    SignRule(1, v1.t);
    NextRows(u0, v0, ta, tb);
    if c >= 0 {
      SubtractRow(TU, U1, U2, TV, V1, V2, u1, v1, ta, tb);
      u, v := Subtract(W, u1, v1, ta, tb), v1;
    } else {
      SubtractRow(TV, V1, V2, TU, U1, U2, v1, u1, ta, tb);
      u, v := u1, Subtract(W, v1, u1, ta, tb);
    }
    SignRule(1, u.t);
    c := CmpInt(TU, 0);
    again := c != 0;
  }

  /** Lines 1483-1526: the row of TV is the outcome of the run. */
  method RunLoop(TU: Mpi, U1: Mpi, U2: Mpi, TV: Mpi, V1: Mpi, V2: Mpi, TA: Mpi, TB: Mpi, ghost u0: Row, ghost v0: Row)
    requires Apart(TU, U1, U2, TV, V1, V2, TA, TB)
    requires TA.Ready() && TA.s == 1 && TB.Ready() && TB.s == 1
    requires Shows(TU, U1, U2, u0) && Shows(TV, V1, V2, v0) && u0.t > 0 && v0.t > 0
    modifies TU, U1, U2, TV, V1, V2
    ensures W >= 2 && Shows(TV, V1, V2, Run(W, u0, v0, TA.Abs(), TB.Abs()))
  {
    hide Val, Pow, Sig, Run, NumOf;
    WBound();
    ghost var ta, tb := TA.Abs(), TB.Abs();
    ghost var u, v := u0, v0;
    var again := true;
    while again
      invariant Shows(TU, U1, U2, u) && Shows(TV, V1, V2, v) && v.t > 0 && (again ==> u.t > 0)
      invariant Run(W, u0, v0, ta, tb) == if again then Run(W, u, v, ta, tb) else v
      decreases u.t + v.t, again
    {
      again, u, v := Turn(TU, U1, U2, TV, V1, V2, TA, TB, u, v);
    }
  }

  lemma NextRows(u: Row, v: Row, ta: nat, tb: nat)
    requires W >= 2 && u.t > 0 && v.t > 0
    ensures var u1, v1 := HalveAll(W, u, ta, tb), HalveAll(W, v, ta, tb);
      && (u1.t >= v1.t ==>
            var d := Subtract(W, u1, v1, ta, tb);
            d.t == u1.t - v1.t
            && Run(W, u, v, ta, tb) == if d.t == 0 then v1 else Run(W, d, v1, ta, tb))
      && (u1.t < v1.t ==>
            var d := Subtract(W, v1, u1, ta, tb);
            d.t == v1.t - u1.t && Run(W, u, v, ta, tb) == Run(W, u1, d, ta, tb))
      && u1.t <= u.t && v1.t <= v.t
  {
    hide HalveAll, AddBoth;
  }

  // ---- into the range ----

  /** Where lines 1528-1532 leave a number: a zero with a minus sign becomes -n. */
  function Reduced(x: Num, n: nat): int
    requires n > 0
  {
    if Value(x) % n == 0 && x.s == -1 then 0 - n else Value(x) % n
  }

  lemma ShiftedBy(v: int, k: int, n: nat)
    requires n > 0
    ensures (v + k * n) % n == v % n
  {
    DivMod(v, n);
    Distribute(v / n, k, n);
    DivModUnique(v + k * n, v / n + k, v % n, n);
  }

  method MakeNonNegative(V1: Mpi, N: Mpi)
    requires V1 != N && V1.Ready() && N.Ready() && N.s == 1 && N.Abs() > 0
    modifies V1
    ensures V1.Ready() && V1.Value() >= 0 && V1.Value() % N.Abs() == old(V1.Value()) % N.Abs()
    ensures old(V1.s) == 1 ==> V1.s == 1
    ensures old(V1.s) == -1 ==> V1.Value() < N.Abs() && (V1.Value() == 0 ==> V1.s == -1)
  {
    hide Val, Pow, Sig, AddSticks, AddLoss, AddCase, DifferenceLimbs;
    ghost var n := N.Abs();
    SignRule(V1.s, V1.Abs());
    var c := CmpInt(V1, 0);
    while c < 0
      invariant V1.Ready() && c == Sign(V1.Value()) && V1.Value() % n == old(V1.Value()) % n
      invariant old(V1.s) == 1 ==> V1.s == 1 && V1.Value() >= 0
      invariant old(V1.s) == -1 ==> V1.Value() < n && (V1.Value() == 0 ==> V1.s == -1)
      decreases -V1.Value()
    {
      SignRule(V1.s, V1.Abs());
      ShiftedBy(V1.Value(), 1, n);
      AddMpi(V1, V1, N);
      SignRule(V1.s, V1.Abs());
      c := CmpInt(V1, 0);
    }
  }

  /** mpi_sub_mpi( V1, V1, N ) at line 1532. */
  method TakeModulus(V1: Mpi, N: Mpi) returns (c: int)
    requires V1 != N && V1.Ready() && N.Ready() && N.s == 1 && N.Abs() > 0
    requires if V1.s == 1 then V1.Abs() >= N.Abs() else V1.Abs() == 0
    modifies V1
    ensures V1.Ready() && V1.s == old(V1.s)
    ensures V1.s == 1 ==> V1.Abs() == old(V1.Abs()) - N.Abs() && c == Sign(V1.Abs() - N.Abs())
    ensures V1.s == -1 ==> V1.Abs() == N.Abs() && c == -1
  {
    hide Val, Pow, Sig, AddSticks, AddLoss, AddCase, DifferenceLimbs;
    SignRule(V1.s, V1.Abs());
    SignRule(1, N.Abs());
    if V1.Abs() == 0 {
      ZeroNeverSticks(V1, V1, N);
    }
    SubMpi(V1, V1, N);
    SignRule(V1.s, V1.Abs());
    SameValSameSigIf(V1, N);
    c := CmpMpi(V1, N);
  }

  lemma SameValSameSigIf(X: Mpi, Y: Mpi)
    ensures X.Abs() == Y.Abs() ==> Sig(X.p) == Sig(Y.p)
  {
    hide Val, Sig;
    if X.Abs() == Y.Abs() {
      SameValSameSig(X.p, Y.p);
    }
  }

  lemma ZeroSig(X: Mpi, N: Mpi)
    requires X.Abs() == 0 && N.Abs() > 0
    ensures Sig(X.p) < Sig(N.p)
  {
    hide Val, Sig;
    SigVal(X.p);
    SigVal(N.p);
  }

  method MakeBelow(V1: Mpi, N: Mpi)
    requires V1 != N && V1.Ready() && N.Ready() && N.s == 1 && N.Abs() > 0 && V1.Value() >= 0
    modifies V1
    ensures V1.Ready() && V1.Value() == Reduced(old(NumOf(V1)), N.Abs())
  {
    hide Val, Pow, Sig;
    ghost var n, x := N.Abs(), NumOf(V1);
    ghost var minusZero := V1.s == -1;
    SignRule(V1.s, V1.Abs());
    SignRule(1, n);
    if minusZero {
      ZeroSig(V1, N);
      DivModUnique(0, 0, 0, n);
    }
    var c := CmpMpi(V1, N);
    while c >= 0
      invariant V1.Ready()
      invariant !minusZero ==> V1.s == 1 && V1.Abs() % n == x.v % n && c == Sign(V1.Abs() - n)
      invariant minusZero ==> V1.s == -1 && (c == -1 || c == 1) && V1.Abs() == if c >= 0 then 0 else n
      decreases if c >= 0 then V1.Abs() + 1 else 0
    {
      ShiftedBy(V1.Abs(), -1, n);
      c := TakeModulus(V1, N);
    }
    SignRule(V1.s, V1.Abs());
    if !minusZero {
      DivModUnique(V1.Abs(), 0, V1.Abs(), n);
    }
  }

  // ---- mpi_inv_mod ----

  lemma ReducedAgain(x: Num, y: Num, n: nat)
    requires n > 0 && Signed(x) && Signed(y) && Value(y) >= 0 && Value(y) % n == Value(x) % n
    requires x.s == 1 ==> y.s == 1
    requires x.s == -1 ==> Value(y) < n && (Value(y) == 0 ==> y.s == -1)
    ensures Reduced(x, n) == Reduced(y, n)
  {
    hide Value;
    if x.s == -1 {
      DivModUnique(Value(y), 0, Value(y), n);
    }
  }

  /** The two rows lines 1474-1481 start with. */
  method StartU(TA: Mpi) returns (TU: Mpi, U1: Mpi, U2: Mpi)
    requires TA.Ready() && TA.s == 1
    ensures fresh({TU, U1, U2}) && TU !in {U1, U2} && U1 != U2 && Shows(TU, U1, U2, FirstU(TA.Abs()))
  {
    hide Val, Sig, Pow;
    WBound();
    TU := new Mpi();
    Copy(TU, TA);
    U1 := FromInt(1);
    U2 := FromInt(0);
  }

  method StartV(N: Mpi) returns (TV: Mpi, V1: Mpi, V2: Mpi)
    requires N.Ready() && N.s == 1
    ensures fresh({TV, V1, V2}) && TV !in {V1, V2} && V1 != V2 && Shows(TV, V1, V2, FirstV(N.Abs()))
  {
    hide Val, Sig, Pow;
    WBound();
    TV := new Mpi();
    Copy(TV, N);
    V1 := FromInt(0);
    V2 := FromInt(1);
  }

  /** Lines 1474-1526, from TA = A mod N. */
  method FindRow(TA: Mpi, N: Mpi) returns (V1: Mpi)
    requires TA != N && TA.Ready() && TA.s == 1 && N.Ready() && N.s == 1 && TA.Abs() > 0 && N.Abs() > 0
    ensures fresh(V1) && V1.Ready() && W >= 2 && NumOf(V1) == Outcome(W, TA.Abs(), N.Abs()).c1
  {
    hide Val, Sig, Pow, Run;
    var TU, U1, U2 := StartU(TA);
    var TB := new Mpi();
    Copy(TB, N);
    var TV, first, V2 := StartV(N);
    V1 := first;
    RunLoop(TU, U1, U2, TV, V1, V2, TA, TB, FirstU(TA.Abs()), FirstV(N.Abs()));
  }

  /** Line 1473: A reduced modulo N. */
  method Residue(A: Mpi, N: Mpi) returns (TA: Mpi)
    requires A.Ready() && N.Ready() && N.s == 1 && N.Abs() > 1 && A.Abs() > 0
    ensures fresh(TA) && TA.Ready() && TA.s == 1 && TA.Abs() == A.Value() % N.Abs()
  {
    hide Val, Sig;
    SignRule(N.s, N.Abs());
    TA := new Mpi();
    var r := ModMpi(TA, A, N);
    SignRule(TA.s, TA.Abs());
  }

  /** Lines 1473-1532, for a base coprime to N > 1. */
  method Search(A: Mpi, N: Mpi) returns (V1: Mpi)
    requires A.Ready() && N.Ready() && N.s == 1 && N.Abs() > 1 && Gcd(A.Abs(), N.Abs()) == 1
    ensures fresh(V1) && V1.Ready() && W >= 2 && 0 < A.Value() % N.Abs()
    ensures V1.Value() == Reduced(Outcome(W, A.Value() % N.Abs(), N.Abs()).c1, N.Abs())
  {
    hide Val, Gcd, Sig, Run, Reduced, Cong;
    WBound();
    ghost var a, n := A.Value(), N.Abs();
    SignRule(A.s, A.Abs());
    SignRule(N.s, N.Abs());
    OutcomeIsInverse(W, a, n);
    var TA := Residue(A, N);
    V1 := FindRow(TA, N);
    ghost var x := NumOf(V1);
    MakeNonNegative(V1, N);
    ReducedAgain(x, NumOf(V1), n);
    MakeBelow(V1, N);
  }

  lemma NotNegativeZero(A: Mpi, n: nat)
    requires A.Ready() && n > 1 && Gcd(A.Abs(), n) == 1
    ensures !NegativeZero(A)
  {
    hide Gcd;
    if A.Abs() == 0 {
      GcdZero(n);
    }
  }

  /** What a number is worth as an inverse does not change with multiples of n. */
  lemma ReducedInverse(a: int, x: Num, n: nat)
    requires n > 1 && Signed(x)
    ensures Cong(a * Reduced(x, n), 1, n) <==> Cong(a * Value(x), 1, n)
    ensures Cong(a * Value(x), 1, n) ==> 0 <= Reduced(x, n) < n
  {
    hide Cong, Value;
    var y := Reduced(x, n);
    CongMod(Value(x), n);
    DivModUnique(0, 0, 0, n);
    if y == 0 - n {
      CongIntro(y, 0, n, -1);
      CongIntro(0, 0, n, 0);
      CongTrans2(y, 0, Value(x), n);
    }
    CongRefl(a, n);
    CongMul(a, a, y, Value(x), n);
    CongSym(a * y, a * Value(x), n);
    if Cong(a * y, 1, n) {
      CongTrans(a * Value(x), a * y, 1, n);
    }
    if Cong(a * Value(x), 1, n) {
      CongTrans(a * y, a * Value(x), 1, n);
      NotZero(a, Value(x), n);
    }
  }

  lemma CongTrans2(y: int, z: int, v: int, n: nat)
    requires n > 0 && Cong(y, z, n) && v % n == z % n
    ensures Cong(y, v, n)
  {
  }

  /** An inverse is not reduced to minus n. */
  lemma ReducedIsResidue(a: int, x: Num, n: nat)
    requires n > 1 && Cong(a * Value(x), 1, n)
    ensures Reduced(x, n) == Value(x) % n
  {
    hide Value, Cong;
    if Value(x) % n == 0 {
      NotZero(a, Value(x), n);
    }
  }

  /** Half of n + 1 is the one inverse of two. */
  lemma InverseOfTwo(a: int, x: nat, n: nat)
    requires n > 1 && a % n == 2 && x < n && Cong(a * x, 1, n)
    ensures n % 2 == 1 && x == (n + 1) / 2
  {
    hide Cong;
    CongMod(a, n);
    CongRefl(x, n);
    CongMul(2, a, x, x, n);
    CongTrans(2 * x, a * x, 1, n);
    var k := CongElim(2 * x, 1, n);
    if k <= 0 {
      MulLe2(k, 0, n);
    } else if k >= 2 {
      MulLe2(2, k, n);
    }
  }

  lemma Pow2OfOne()
    ensures Pow2(1) == 2
  {
  }

  /** What is found, reduced. */
  lemma WhatIsFound(a: int, x: Num, n: nat)
    requires n > 1 && Signed(x)
    ensures var y := Reduced(x, n);
      && y == (if Value(x) % n == 0 && x.s == -1 then 0 - n else Value(x) % n)
      && (Cong(a * y, 1, n) <==> Cong(a * Value(x), 1, n))
      && (Cong(a * y, 1, n) <==> (a * y) % n == 1)
      && (Cong(a * y, 1, n) ==> 0 < y < n && y == Value(x) % n && (a % n == 2 ==> y == (n + 1) / 2))
  {
    hide Value;
    var y := Reduced(x, n);
    ReducedInverse(a, x, n);
    DivModUnique(1, 0, 1, n);
    if Cong(a * y, 1, n) {
      NotZero(a, y, n);
      ReducedIsResidue(a, x, n);
      if a % n == 2 {
        InverseOfTwo(a, y, n);
      }
    }
  }

  /** Where what is written finds the inverse. */
  lemma FoundWhen(a: int, n: nat)
    requires n > 1 && Gcd(Magnitude(a), n) == 1
    ensures W >= 2 && 0 < a % n < n
    ensures var r := Outcome(W, a % n, n);
      && Signed(r.c1)
      && (Cong(a * Value(r.c1), 1, n) <==> r.e % n == 0)
      && (Roomy(W, n) ==> Cong(a * Value(r.c1), 1, n))
      && ((forall o :: o in Additions(W, a % n, n) ==> !(o.x.s == o.s && Stuck(W, o.x, o.b))) ==>
            Cong(a * Value(r.c1), 1, n) && Value(r.c1) == Coefficient(a % n, n))
      && (forall k: nat {:trigger Pow2(k)} ::
            (a % n == Pow2(k) && n % 2 == 1) || (n == Pow2(k) && (a % n) % 2 == 1) ==> Cong(a * Value(r.c1), 1, n))
      && (a % n == 2 ==> Cong(a * Value(r.c1), 1, n))
  {
    hide Gcd, Run, Roomy, RunAdditions, Cong, Stuck, Value, Pow2;
    WBound();
    OutcomeIsInverse(W, a, n);
    ModBelow(a, n);
    GcdResidue(a, n);
    NotBothEven(a % n, n);
    Pow2OfOne();
    if Roomy(W, n) {
      RoomyNeverSticks(W, a % n, n);
    }
    if forall o :: o in Additions(W, a % n, n) ==> !(o.x.s == o.s && Stuck(W, o.x, o.b)) {
      ExactUnlessSticking(W, a % n, n);
    }
    forall k: nat | (a % n == Pow2(k) && n % 2 == 1) || (n == Pow2(k) && (a % n) % 2 == 1)
      ensures Cong(a * Value(Outcome(W, a % n, n).c1), 1, n)
    {
      PowersNeverStick(W, a % n, n, k);
      ExactUnlessSticking(W, a % n, n);
    }
  }

  /** What lines 1473-1532 leave for coprime a and n > 1. */
  ghost predicate Answer(a: int, n: nat, x: int)
    requires W >= 2 && n > 1 && 0 < a % n
  {
    var r := Outcome(W, a % n, n);
    && x == (if Value(r.c1) % n == 0 && r.c1.s == -1 then 0 - n else Value(r.c1) % n)
    && ((a * x) % n == 1 <==> r.e % n == 0)
    && ((a * x) % n == 1 ==> 0 < x < n)
  }

  lemma AnswerIs(a: int, n: nat)
    requires n > 1 && Gcd(Magnitude(a), n) == 1
    ensures W >= 2 && 0 < a % n < n
    ensures var x := Reduced(Outcome(W, a % n, n).c1, n);
      && Answer(a, n, x)
      && ((forall o :: o in Additions(W, a % n, n) ==> !(o.x.s == o.s && Stuck(W, o.x, o.b))) ==>
            x == Coefficient(a % n, n) % n && (a * x) % n == 1)
      && (n * (4 * BitLen(n) + 6) <= W * W ==> (a * x) % n == 1)
      && (forall k: nat {:trigger Pow2(k)} ::
            (a % n == Pow2(k) && n % 2 == 1) || (n == Pow2(k) && (a % n) % 2 == 1) ==> (a * x) % n == 1)
      && (a % n == 2 ==> x == (n + 1) / 2)
  {
    hide Gcd, Outcome, Additions, Cong, Stuck, Value, Pow2, Reduced, Coefficient;
    FoundWhen(a, n);
    WhatIsFound(a, Outcome(W, a % n, n).c1, n);
  }

  /**
   * mpi_inv_mod as it is written. What it finds is A's inverse if and only if
   * N divides what the stuck carries have cost. It is whenever no addition of
   * the exact run meets a stuck carry; so for a modulus with room in two limbs,
   * and at every length for a power of two modulo an odd number and for an odd
   * number modulo a power of two.
   */
  method InvMod(X: Mpi, A: Mpi, N: Mpi) returns (ret: int)
    requires X.Valid() && A.Ready() && N.Ready() && N.Value() != 1
    modifies X
    ensures ret == if old(N.Value()) <= 0 then ERR_MPI_INVALID_PARAMETER
                   else if Gcd(old(A.Abs()), old(N.Abs())) != 1 then ERR_MPI_NOT_INVERTIBLE else 0
    ensures ret != 0 ==> unchanged(X)
    ensures ret == 0 ==>
      var a, n := old(A.Value()), old(N.Abs());
      X.Ready() && W >= 2 && n > 1 && 0 < a % n < n && Answer(a, n, X.Value())
    ensures ret == 0 ==>
      var a, n := old(A.Value()), old(N.Abs());
      (forall o :: o in Additions(W, a % n, n) ==> !(o.x.s == o.s && Stuck(W, o.x, o.b))) ==>
        X.Value() == Coefficient(a % n, n) % n && (a * X.Value()) % n == 1
    ensures ret == 0 ==>
      var a, n := old(A.Value()), old(N.Abs());
      n * (4 * BitLen(n) + 6) <= W * W ==> (a * X.Value()) % n == 1
    ensures ret == 0 ==>
      var a, n := old(A.Value()), old(N.Abs());
      forall k: nat {:trigger Pow2(k)} ::
        (a % n == Pow2(k) && n % 2 == 1) || (n == Pow2(k) && (a % n) % 2 == 1) ==> (a * X.Value()) % n == 1
    ensures ret == 0 ==>
      var a, n := old(A.Value()), old(N.Abs());
      a % n == 2 ==> X.Value() == (n + 1) / 2
  {
    hide Val, Pow, Wp, Gcd, Sig, Reduced, Answer, Additions, Coefficient, Stuck, Pow2, BitLen, Outcome;
    WBound();
    var c := CmpInt(N, 0);
    SignRule(N.s, N.Abs());
    if c <= 0 {
      return ERR_MPI_INVALID_PARAMETER;
    }
    var G := new Mpi();
    GcdMpi(G, A, N);
    SignRule(G.s, G.Abs());
    c := CmpInt(G, 1);
    if c != 0 {
      return ERR_MPI_NOT_INVERTIBLE;
    }
    ghost var a, n := A.Value(), N.Abs();
    SignRule(A.s, A.Abs());
    AnswerIs(a, n);
    var V1 := Search(A, N);
    Copy(X, V1);
    return 0;
  }

  lemma ModBelow(a: int, n: nat)
    requires n > 0
    ensures 0 <= a % n < n
  {
  }

  /** Every modulus of one limb is, and so is one of two limbs but for its top bits. */
  lemma OneLimbIsRoomy(n: nat)
    requires 0 < n < W
    ensures W >= 2 && Roomy(W, n)
  {
    hide Pow, BitLen;
    WBound();
    BitLenLe(n, biL);
    LimbBits(n);
    MulLe2(n, W, 4 * BitLen(n) + 6);
    MulLe2(4 * BitLen(n) + 6, W, W);
    Associate(W, 4 * BitLen(n) + 6, 1);
  }
}
