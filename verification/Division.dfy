/**
 * Long division (src/bootloader/myboot/bignum.c, lines 920-1114), with the
 * double-limb quotient estimate of lines 971-980.
 */
module Division {
  import opened Arith
  import opened Bits
  import opened Limbs
  import opened Mpis
  import opened AddSub
  import opened Mul
  import opened Shift

  // ---- the trial quotient ----

  /** A digit appended below. */
  function Then(hi: nat, lo: nat): nat {
    MulLe2(0, hi, W);
    hi * W + lo
  }

  /** The top three limbs of x at position i, absent limbs counting as zero. */
  function Top3(x: seq<limb>, i: nat): nat
    requires i < |x|
  {
    Then(Then(x[i], if i < 1 then 0 else x[i - 1]), if i < 2 then 0 else x[i - 2])
  }

  /** The top two limbs of y at position t. */
  function Top2(y: seq<limb>, t: nat): nat
    requires t < |y|
  {
    Then(y[t], if t < 1 then 0 else y[t - 1])
  }

  /** x / unit rounds down to top. */
  predicate Leads(top: nat, unit: nat, x: nat) {
    top * unit <= x < (top + 1) * unit
  }

  lemma LeadsIntro(top: nat, unit: nat, x: nat, low: nat)
    requires x == top * unit + low && low < unit
    ensures Leads(top, unit, x)
  {
    Distribute(top, 1, unit);
  }

  /** The unit of the three-limb window at i, and the factor that clears it. */
  function Unit(i: nat): (r: nat)
    ensures r > 0
  {
    if i < 2 then 1 else Wp(i - 2)
  }

  function Clear(i: nat): (r: nat)
    ensures r > 0
  {
    if i < 2 then W else 1
  }

  lemma ThenWeight(hi: nat, lo: nat, u: nat)
    ensures Then(hi, lo) * u == hi * (W * u) + lo * u
  {
    hide Pow;
    Distribute(hi * W, lo, u);
    Associate(hi, W, u);
  }

  lemma Top3Leads(x: seq<limb>, i: nat)
    requires 1 <= i < |x| && Val(x) < Wp(i + 1)
    ensures Leads(Top3(x, i), Unit(i), Val(x) * Clear(i))
  {
    hide Val, Pow, Wp, Then;
    ValSmallTail(x, i + 1);
    ValPrefixStep(x, i);
    ValPrefixStep(x, i - 1);
    WpStep(i - 1);
    if i == 1 {
      ValZeros(x[..0]);
      WpStep(0);
      ThenWeight(x[1], x[0], 1);
      ThenWeight(Then(x[1], x[0]), 0, 1);
      LeadsIntro(Top3(x, i), 1, Val(x) * W, 0);
    } else {
      ValPrefixStep(x, i - 2);
      ValBound(x[..i - 2]);
      WpStep(i - 2);
      var u := Wp(i - 2);
      ThenWeight(x[i], x[i - 1], W * u);
      ThenWeight(Then(x[i], x[i - 1]), x[i - 2], u);
      LeadsIntro(Top3(x, i), u, Val(x), Val(x[..i - 2]));
    }
  }

  /** The divisor's value v, with its t + 1 limbs, moved up to limb i and on past the top three. */
  function Raised(v: nat, t: nat, i: nat): (r: nat)
    requires t < i
    ensures r == (v * Wp(i - t - 1)) * Clear(i)
  {
    MulNonneg(v, Wp(i - t - 1));
    MulNonneg(v * Wp(i - t - 1), Clear(i));
    (v * Wp(i - t - 1)) * Clear(i)
  }

  lemma Top2Leads(y: seq<limb>, t: nat, i: nat)
    requires t < i && t < |y| && Val(y) < Wp(t + 1)
    ensures Leads(Top2(y, t), Unit(i), Raised(Val(y), t, i))
  {
    hide Val, Pow, Wp, Then, Leads, Raised, Unit;
    ValSmallTail(y, t + 1);
    ValPrefixStep(y, t);
    if t == 0 {
      ValZeros(y[..0]);
      WpStep(0);
      Top2Single(Val(y), y[0], i);
    } else {
      ValPrefixStep(y, t - 1);
      ValBound(y[..t - 1]);
      WpStep(t - 1);
      Top2Double(Val(y), y[t], y[t - 1], Val(y[..t - 1]), t, i);
    }
  }

  lemma Top2Single(v: nat, y0: limb, i: nat)
    requires i >= 1 && v == y0
    ensures Leads(Then(y0, 0), Unit(i), Raised(v, 0, i))
  {
    hide Val, Pow, Wp, Then;
    if i == 1 {
      WpStep(0);
      ThenWeight(y0, 0, 1);
      LeadsIntro(Then(y0, 0), 1, (v * 1) * W, 0);
    } else {
      WpStep(i - 2);
      ThenWeight(y0, 0, Wp(i - 2));
      LeadsIntro(Then(y0, 0), Wp(i - 2), v * Wp(i - 1), 0);
    }
  }

  lemma Top2Double(v: nat, y1: limb, y0: limb, low: nat, t: nat, i: nat)
    requires 1 <= t < i && low < Wp(t - 1) && v == low + y0 * Wp(t - 1) + y1 * (W * Wp(t - 1))
    ensures Leads(Then(y1, y0), Unit(i), Raised(v, t, i))
  {
    hide Val, Pow, Wp, Then;
    var j, top := i - t - 1, Then(y1, y0);
    ThenWeight(y1, y0, Wp(t - 1));
    WpAdd(t - 1, j);
    Distribute(top * Wp(t - 1), low, Wp(j));
    Associate(top, Wp(t - 1), Wp(j));
    MulLt(low, Wp(t - 1), Wp(j));
    MulNonneg(low, Wp(j));
    LeadsIntro(top, Wp(i - 2), v * Wp(j), low * Wp(j));
  }

  /** q is the largest limb with q * top2 <= top3. */
  predicate Trial(q: nat, top3: nat, top2: nat) {
    q < W && q * top2 <= top3 && (q == W - 1 || top3 < (q + 1) * top2)
  }

  lemma TrialBelow(x: nat, y: nat, top3: nat, top2: nat, unit: nat, q1: nat)
    requires x < (top3 + 1) * unit && top2 * unit <= y && top3 + 1 <= q1 * top2
    ensures x < q1 * y
  {
    hide Pow;
    MulLe(top3 + 1, q1 * top2, unit);
    Associate(q1, top2, unit);
    MulLe(top2 * unit, y, q1);
  }

  lemma TrialEnough(x: nat, y: nat, top3: nat, top2: nat, unit: nat, q: nat)
    requires unit > 0 && Leads(top3, unit, x) && Leads(top2, unit, y)
    requires x < W * y && Trial(q, top3, top2)
    ensures x < (q + 1) * y
  {
    hide Pow;
    if q == W - 1 {
      MulLe(W, q + 1, y);
    } else {
      TrialBelow(x, y, top3, top2, unit, q + 1);
    }
  }

  lemma TrialNotFarOver(x: nat, y: nat, top3: nat, top2: nat, unit: nat, q: nat)
    requires unit > 0 && q > 0 && Leads(top3, unit, x) && Leads(top2, unit, y)
    requires q <= top2 && q * top2 <= top3
    ensures (q - 1) * y <= x
  {
    MulLe2(y, (top2 + 1) * unit, q - 1);
    Associate(q - 1, top2 + 1, unit);
    Distribute(q, 1, top2 + 1);
    Distribute(top2, 1, q);
    MulLe2((q - 1) * (top2 + 1), top3, unit);
  }

  /**
   * Three limbs over two give a quotient that is never too small and at most
   * one too large; no normalisation is needed for that.
   */
  lemma TrialQuotient(x: nat, y: nat, top3: nat, top2: nat, unit: nat, q: nat)
    requires unit > 0 && Leads(top3, unit, x) && Leads(top2, unit, y)
    requires x < W * y && W <= top2 && Trial(q, top3, top2)
    ensures (q - 1) * y <= x < (q + 1) * y
  {
    hide Pow, Leads;
    TrialEnough(x, y, top3, top2, unit, q);
    if q > 0 {
      TrialNotFarOver(x, y, top3, top2, unit, q);
    } else {
      MulLe2(-1, 0, y);
    }
  }

  lemma TrialClear(x: nat, y: nat, clear: nat, q: nat)
    requires clear > 0 && (q - 1) * (y * clear) <= x * clear < (q + 1) * (y * clear)
    ensures (q - 1) * y <= x < (q + 1) * y
  {
    Associate(q - 1, y, clear);
    Associate(q + 1, y, clear);
    if x < (q - 1) * y {
      MulLt(x, (q - 1) * y, clear);
    }
    if (q + 1) * y <= x {
      MulLe2((q + 1) * y, x, clear);
    }
  }

  lemma TrialInPlace(x: seq<limb>, y: seq<limb>, i: nat, t: nat, q: nat)
    requires t < i < |x| && t < |y| && y[t] >= 1
    requires Val(y) < Wp(t + 1) && Val(x) < Val(y) * Wp(i - t)
    requires Trial(q, Top3(x, i), Top2(y, t))
    ensures var yj := Val(y) * Wp(i - t - 1); (q - 1) * yj <= Val(x) < (q + 1) * yj
  {
    hide Val, Pow, Wp, Top2, Top3, Trial, Leads, Unit, Clear;
    var j, c := i - t - 1, Clear(i);
    WpAdd(t + 1, j + 1);
    MulLt(Val(y), Wp(t + 1), Wp(j + 1));
    Top3Leads(x, i);
    Top2Leads(y, t, i);
    var yj := Val(y) * Wp(j);
    WpStep(j);
    Associate(Val(y), W, Wp(j));
    MulLt(Val(x), W * yj, c);
    Associate(W, yj, c);
    Top2AtLeast(y, t);
    TrialQuotient(Val(x) * c, yj * c, Top3(x, i), Top2(y, t), Unit(i), q);
    TrialClear(Val(x), yj, c, q);
  }

  lemma Top2AtLeast(y: seq<limb>, t: nat)
    requires t < |y| && y[t] >= 1
    ensures Top2(y, t) >= W
  {
    MulLe2(1, y[t], W);
  }

  /** Lines 967-980: the estimate from two limbs over one. */
  method Estimate(xi: limb, xi1: limb, yt: limb) returns (q: limb)
    requires yt >= 1
    ensures q == W - 1 || Then(xi, xi1) < (q + 1) * yt
  {
    hide Pow, Then;
    WBound();
    if xi >= yt {
      q := W - 1;
    } else {
      var r := Then(xi, xi1) / yt;
      DivMod(Then(xi, xi1), yt);
      Distribute(r, 1, yt);
      if r > W - 1 {
        r := W - 1;
      }
      q := r;
    }
  }

  lemma EstimateCovers(a: nat, b: nat, c: limb, y1: limb, y0: limb, q: nat)
    requires Then(a, b) < (q + 1) * y1
    ensures Then(Then(a, b), c) < (q + 1) * Then(y1, y0)
  {
    hide Pow;
    var x := a * W + b;
    MulLe2(x + 1, (q + 1) * y1, W);
    Distribute(x, 1, W);
    Associate(q + 1, y1, W);
    MulLe2(0, y0, q + 1);
    Distribute(y1 * W, y0, q + 1);
  }

  lemma ValLow2(s: seq<limb>)
    requires |s| >= 2 && forall k :: 2 <= k < |s| ==> s[k] == 0
    ensures Val(s) == Then(s[1], s[0])
  {
    hide Val, Pow, Wp;
    ValSplitFirst(s);
    ValSplitFirst(s[1..]);
    ValZeros(s[1..][1..]);
  }

  lemma ValLow3(s: seq<limb>)
    requires |s| >= 3 && forall k :: 3 <= k < |s| ==> s[k] == 0
    ensures Val(s) == Then(Then(s[2], s[1]), s[0])
  {
    hide Val, Pow, Wp;
    ValSplitFirst(s);
    ValLow2(s[1..]);
  }

  method SetTwo(T: Mpi, lo: limb, hi: limb)
    requires T.Ready() && |T.p| >= 2
    modifies T
    ensures T.Ready() && T.s == 1 && |T.p| == old(|T.p|) && T.Abs() == Then(hi, lo)
  {
    hide Val, Pow, Then;
    WBound();
    Lset(T, 0);
    T.p := T.p[0 := lo];
    T.p := T.p[1 := hi];
    ValLow2(T.p);
  }

  method SetThree(T: Mpi, a: limb, b: limb, c: limb)
    requires T.Ready() && |T.p| >= 3
    modifies T
    ensures T.Ready() && T.s == 1 && |T.p| == old(|T.p|) && T.Abs() == Then(Then(c, b), a)
  {
    hide Val, Pow, Then;
    WBound();
    Lset(T, 0);
    T.p := T.p[0 := a];
    T.p := T.p[1 := b];
    T.p := T.p[2 := c];
    ValLow3(T.p);
  }

  /** Lines 1029-1039: T1 = q * (top two of Y) against T2 = (top three of X). */
  method CompareTrial(X: Mpi, Y: Mpi, T1: Mpi, T2: Mpi, i: nat, t: nat, q: limb) returns (r: int)
    requires T1 != T2 && T1 != X && T1 != Y && T2 != X && T2 != Y
    requires i < |X.p| && t < |Y.p|
    requires T1.Ready() && |T1.p| >= 2 && T2.Ready() && |T2.p| >= 3
    modifies T1, T2
    ensures T1.Ready() && |T1.p| >= 2 && T2.Ready() && |T2.p| >= 3
    ensures r == Sign(q * Top2(Y.p, t) - Top3(X.p, i))
  {
    hide Val, Pow, Then, Sig;
    SetTwo(T1, if t < 1 then 0 else Y.p[t - 1], Y.p[t]);
    ghost var top2, top3 := Top2(Y.p, t), Top3(X.p, i);
    MulInt(T1, T1, q);
    assert T1.Abs() == top2 * q == q * top2;
    SetThree(T2, if i < 2 then 0 else X.p[i - 2], if i < 1 then 0 else X.p[i - 1], X.p[i]);
    assert T2.Abs() == top3;
    r := CmpMpi(T1, T2);
    assert T1.Value() == q * top2 && T2.Value() == top3;
  }

  /** Lines 967-1039: the trial digit, left in Z.p[j]. */
  method TrialDigit(X: Mpi, Y: Mpi, Z: Mpi, T1: Mpi, T2: Mpi, i: nat, t: nat, j: nat)
    requires T1 != T2 && X !in {Z, T1, T2} && Y !in {Z, T1, T2} && Z !in {T1, T2}
    requires 1 <= i < |X.p| && t < |Y.p| && Y.p[t] >= 1 && j < |Z.p|
    requires T1.Ready() && |T1.p| >= 2 && T2.Ready() && |T2.p| >= 3
    modifies Z, T1, T2
    ensures T1.Ready() && |T1.p| >= 2 && T2.Ready() && |T2.p| >= 3
    ensures Z.s == old(Z.s) && |Z.p| == old(|Z.p|) && Z.p == old(Z.p)[j := Z.p[j]]
    ensures Trial(Z.p[j], Top3(X.p, i), Top2(Y.p, t))
  {
    hide Val, Pow, Wp, Then, Sig;
    WBound();
    var q := Estimate(X.p[i], X.p[i - 1], Y.p[t]);
    Z.p := Z.p[j := q];
    if q != W - 1 {
      EstimateCovers(X.p[i], X.p[i - 1], if i < 2 then 0 else X.p[i - 2], Y.p[t], if t < 1 then 0 else Y.p[t - 1], q);
    }
    ghost var top3, top2 := Top3(X.p, i), Top2(Y.p, t);
    Z.p := Z.p[j := AddW(Z.p[j], 1)];
    var again := true;
    while again
      invariant T1.Ready() && |T1.p| >= 2 && T2.Ready() && |T2.p| >= 3
      invariant Z.s == old(Z.s) && |Z.p| == old(|Z.p|) && Z.p == old(Z.p)[j := Z.p[j]]
      invariant again ==> var q := SubW(Z.p[j], 1); q == W - 1 || top3 < (q + 1) * top2
      invariant !again ==> Trial(Z.p[j], top3, top2)
      decreases if again then 1 + SubW(Z.p[j], 1) else 0
    {
      Z.p := Z.p[j := SubW(Z.p[j], 1)];
      var r := CompareTrial(X, Y, T1, T2, i, t, Z.p[j]);
      again := r > 0;
    }
  }

  /** Not negative; zero may carry either sign. */
  ghost predicate NonNeg(X: Mpi)
    reads X
  {
    X.Ready() && (X.s == 1 || X.Abs() == 0)
  }

  lemma DigitStored(z: seq<limb>, j: nat, q: limb, y: nat)
    requires j < |z| && z[j] == 0
    ensures Val(z[j := q]) * y == Val(z) * y + q * (y * Wp(j))
  {
    hide Val, Pow, Wp;
    ValBump(z, j, q, q);
    Distribute(Val(z), q * Wp(j), y);
    Associate(q, Wp(j), y);
  }

  /** Lines 1041-1043: X minus q shifted copies of Y, possibly negative. */
  method TakeAway(X: Mpi, Y: Mpi, T1: Mpi, j: nat, q: limb)
    requires X != Y && X != T1 && Y != T1 && NonNeg(X) && Y.Ready() && Y.s == 1 && T1.Ready()
    modifies X, T1
    ensures T1.Ready() && |T1.p| >= old(|T1.p|) && X.Ready() && |X.p| >= old(|X.p|)
    ensures X.Value() == old(X.Abs()) - q * (Y.Abs() * Wp(j))
    ensures X.Value() >= 0 ==> NonNeg(X)
  {
    hide Val, Pow, Wp, Sig, AddSticks, BitLen, BitsToLimbs, Pow2;
    ghost var y := Y.Abs();
    MulInt(T1, Y, q);
    Shifted(T1, j);
    Associate(q, y, Wp(j));
    if X.Abs() == 0 {
      ZeroNeverSticks(X, X, T1);
    }
    SubMpi(X, X, T1);
  }

  /** mpi_shift_l by j whole limbs. */
  method Shifted(X: Mpi, j: nat)
    requires X.Ready()
    modifies X
    ensures X.Ready() && X.s == old(X.s) && X.Abs() == old(X.Abs()) * Wp(j) && |X.p| >= old(|X.p|)
  {
    hide Val, Pow, Wp, BitLen, Pow2, BitsToLimbs;
    WpPow2Bits(j);
    ghost var l := BitLen(X.Abs()) + biL * j;
    BitsToLimbsCovers(l);
    if |X.p| * biL < l {
      MulCancelLtLimbs(|X.p|, BitsToLimbs(l));
    }
    ShiftL(X, biL * j);
  }

  /** Lines 1047-1049: a negative X gets one shifted Y back. */
  method PutBack(X: Mpi, Y: Mpi, T1: Mpi, j: nat)
    requires X != Y && X != T1 && Y != T1 && X.Ready() && X.Value() < 0 && Y.Ready() && Y.s == 1 && T1.Ready()
    requires X.Value() + Y.Abs() * Wp(j) >= 0
    modifies X, T1
    ensures T1.Ready() && |T1.p| >= old(|T1.p|) && NonNeg(X) && |X.p| >= old(|X.p|)
    ensures X.Abs() == old(X.Value()) + Y.Abs() * Wp(j)
  {
    hide Val, Pow, Wp, Sig, AddSticks;
    Copy(T1, Y);
    Shifted(T1, j);
    AddMpi(X, X, T1);
  }

  /** One pass of the loop at lines 965-1052, for digit j = i - t - 1. */
  method DivStep(X: Mpi, Y: Mpi, Z: Mpi, T1: Mpi, T2: Mpi, i: nat, t: nat)
    requires T1 != T2 && X !in {Y, Z, T1, T2} && Y !in {Z, T1, T2} && Z !in {T1, T2}
    requires t < i < |X.p| && t < |Y.p| && Y.p[t] >= 1 && Y.Abs() < Wp(t + 1) && Y.Ready() && Y.s == 1
    requires NonNeg(X) && X.Abs() < Y.Abs() * Wp(i - t)
    requires Z.Ready() && i - t - 1 < |Z.p| && Z.p[i - t - 1] == 0
    requires T1.Ready() && |T1.p| >= 2 && T2.Ready() && |T2.p| >= 3
    modifies X, Z, T1, T2
    ensures NonNeg(X) && |X.p| >= old(|X.p|) && X.Abs() < Y.Abs() * Wp(i - t - 1)
    ensures Z.s == old(Z.s) && |Z.p| == old(|Z.p|) && Z.p[..i - t - 1] == old(Z.p)[..i - t - 1]
    ensures Z.Abs() * Y.Abs() + X.Abs() == old(Z.Abs() * Y.Abs() + X.Abs())
    ensures T1.Ready() && |T1.p| >= 2 && T2.Ready() && |T2.p| >= 3
  {
    hide Val, Pow, Wp, Top2, Top3, Trial;
    var j := i - t - 1;
    TrialDigit(X, Y, Z, T1, T2, i, t, j);
    ghost var z0, x, y, q := old(Z.p), X.Abs(), Y.Abs(), Z.p[j];
    TrialInPlace(X.p, Y.p, i, t, q);
    ghost var yj := y * Wp(j);
    Distribute(q, 1, yj);
    TakeAway(X, Y, T1, j, Z.p[j]);
    var neg := CmpInt(X, 0);
    if neg < 0 {
      PutBack(X, Y, T1, j);
      Z.p := Z.p[j := Z.p[j] - 1];
    }
    assert Z.p == z0[j := Z.p[j]];
    DigitStored(z0, j, Z.p[j], y);
    assert X.Abs() == x - Z.p[j] * yj;
  }

  lemma ZeroNeverSticks(X: Mpi, A: Mpi, B: Mpi)
    requires X == A && X != B && X.Abs() == 0
    ensures !AddSticks(X, A, B)
  {
    hide Val;
    SigVal(X.p);
    NoStickWhenShorter(AddCase(X, A, B).0, X.p, B.p);
  }

  // ---- setting up ----

  lemma BitLenShift(x: nat, k: nat)
    requires x > 0
    ensures BitLen(x * Pow2(k)) == BitLen(x) + k
  {
    hide Pow, Pow2, BitLen;
    var l := BitLen(x);
    BitLenBounds(x);
    Pow2Add(l - 1, k);
    Pow2Add(l, k);
    MulLe2(Pow2(l - 1), x, Pow2(k));
    MulLt(x, Pow2(l), Pow2(k));
    BitLenUnique(x * Pow2(k), l + k);
  }

  /** The top limb of x is nonzero. */
  predicate Full(x: seq<limb>) {
    |x| >= 1 && x[|x| - 1] != 0
  }

  lemma FullByBits(x: seq<limb>)
    requires |x| >= 1 && (|x| - 1) * biL < BitLen(Val(x))
    ensures Full(x)
  {
    hide Val, Pow, Wp, Pow2, BitLen;
    var n := |x| - 1;
    if x[n] == 0 {
      ValZeroTail(x, n);
      ValBound(x[..n]);
      WpPow2Bits(n);
      BitLenLe(Val(x), biL * n);
    }
  }

  lemma FullBits(x: seq<limb>)
    requires Full(x)
    ensures (|x| - 1) * biL < BitLen(Val(x)) <= |x| * biL
    ensures Wp(|x| - 1) <= Val(x) < Wp(|x|)
  {
    hide Val, Pow, Wp, Pow2, BitLen;
    var n := |x| - 1;
    SigUnique(x, n + 1);
    SigVal(x);
    WpPow2Bits(n);
    WpPow2Bits(n + 1);
    BitLenLe(Val(x), biL * n);
    BitLenLe(Val(x), biL * (n + 1));
  }

  /** mpi_shift_l of a full number leaves it full. */
  method ShiftFull(X: Mpi, k: nat)
    requires X.Ready() && Full(X.p) && k < biL
    modifies X
    ensures X.Ready() && X.s == old(X.s) && Full(X.p) && X.Abs() == old(X.Abs()) * Pow2(k)
    ensures old(|X.p|) <= |X.p| <= old(|X.p|) + 1
  {
    hide Val, Pow, Wp, Pow2, BitLen, BitsToLimbs, Full;
    ghost var x, m := X.Abs(), |X.p|;
    FullBits(X.p);
    ShiftL(X, k);
    BitLenShift(x, k);
    var l := BitLen(x) + k;
    BitsToLimbsCovers(l);
    if m * biL < l {
      MulCancelLtLimbs(m, BitsToLimbs(l));
      assert BitsToLimbs(l) * biL < (m + 2) * biL;
      MulCancelLtLimbs(BitsToLimbs(l), m + 2);
    }
    FullByBits(X.p);
  }

  /** A nonzero number copied into a fresh mpi fills its limbs. */
  method CopyFull(A: Mpi) returns (X: Mpi)
    requires A.Ready() && A.Abs() != 0
    ensures fresh(X) && X.Ready() && X.s == 1 && X.Abs() == A.Abs() && Full(X.p) && |X.p| <= |A.p|
  {
    hide Val, Pow, Sig;
    X := new Mpi();
    SigVal(A.p);
    Copy(X, A);
    X.s := 1;
  }

  /** Lines 937-957: X and Y shifted by the same k bits. */
  method Normalize(A: Mpi, B: Mpi) returns (X: Mpi, Y: Mpi, k: nat)
    requires A.Ready() && B.Ready() && B.Abs() != 0 && A.Abs() >= B.Abs()
    ensures fresh(X) && fresh(Y) && X != Y && X.Ready() && Y.Ready() && X.s == 1 && Y.s == 1
    ensures X.Abs() == A.Abs() * Pow2(k) && Y.Abs() == B.Abs() * Pow2(k)
    ensures Full(X.p) && Full(Y.p) && |Y.p| <= |X.p| <= |A.p| + 1
  {
    hide Val, Pow, Wp, Pow2, BitLen, Sig;
    X := CopyFull(A);
    Y := CopyFull(B);
    var l := Size(Y);
    k := l % biL;
    if k < biL - 1 {
      k := biL - 1 - k;
      ShiftFull(X, k);
      ShiftFull(Y, k);
    } else {
      k := 0;
      Pow2Zero();
    }
    MulLe2(B.Abs(), A.Abs(), Pow2(k));
    FullBits(X.p);
    FullBits(Y.p);
    if |X.p| < |Y.p| {
      WpMono(|X.p|, |Y.p| - 1);
    }
  }

  lemma ShiftBack(y: nat, d: nat)
    requires d > 0
    ensures (y * d) / d == y
  {
    DivModUnique(y * d, y, 0, d);
  }

  /** Lines 957-963: the top quotient digit by repeated subtraction. */
  method TopDigit(X: Mpi, Y: Mpi, Z: Mpi, n: nat, t: nat)
    requires X != Y && X != Z && Y != Z && t <= n < |X.p| && t + 1 == |Y.p| && Full(Y.p)
    requires X.Ready() && X.s == 1 && Y.Ready() && Y.s == 1 && Z.Ready() && Z.Abs() == 0
    requires X.Abs() < Wp(n + 1) && n - t < |Z.p|
    modifies X, Y, Z
    ensures X.Ready() && X.s == 1 && |X.p| >= old(|X.p|)
    ensures Y.Ready() && Y.s == 1 && Y.Abs() == old(Y.Abs()) && |Y.p| > t && Y.p[t] >= 1 && Y.Abs() < Wp(t + 1)
    ensures Z.Ready() && Z.s == old(Z.s) && |Z.p| == old(|Z.p|) && AllZero(Z.p[..n - t])
    ensures X.Abs() < Y.Abs() * Wp(n - t)
    ensures Z.Abs() * Y.Abs() + X.Abs() == old(X.Abs())
  {
    hide Val, Pow, Wp, Sig, BitLen, BitsToLimbs, Pow2, AddSticks, Full;
    var j := n - t;
    ghost var x0, y, z0 := X.Abs(), Y.Abs(), Z.p;
    ghost var yj := y * Wp(j);
    FullBits(Y.p);
    WpPow2Bits(j);
    WpAdd(t, j);
    MulLe2(Wp(t), y, Wp(j));
    ShiftL(Y, biL * j);
    ValZeros(z0);
    SubtractDown(X, Y, Z, n, t, x0, yj);
    DigitStored(z0, j, Z.p[j], y);
    ShiftBack(y, Pow2(biL * j));
    ShiftR(Y, biL * j);
    TopLimbOf(Y.p, t);
  }

  lemma TopLimbOf(y: seq<limb>, t: nat)
    requires Wp(t) <= Val(y) < Wp(t + 1)
    ensures |y| > t && y[t] >= 1
  {
    hide Val, Pow, Wp;
    ValBound(y);
    if |y| <= t {
      WpMono(|y|, t);
    } else if y[t] == 0 {
      ValSmallTail(y, t + 1);
      ValPrefixStep(y, t);
      ValBound(y[..t]);
    }
  }

  /** Lines 958-962. */
  method SubtractDown(X: Mpi, Y: Mpi, Z: Mpi, n: nat, t: nat, ghost x0: nat, ghost yj: nat)
    requires X != Y && X != Z && Y != Z && t <= n && n - t < |Z.p| && AllZero(Z.p)
    requires X.Ready() && X.s == 1 && Y.Ready() && Y.s == 1 && Z.Ready()
    requires X.Abs() == x0 < Wp(n + 1) && Y.Abs() == yj && Wp(n) <= yj
    modifies X, Z
    ensures X.Ready() && X.s == 1 && |X.p| >= old(|X.p|) && X.Abs() < yj
    ensures Z.Ready() && Z.s == old(Z.s) && |Z.p| == old(|Z.p|)
    ensures Z.p == old(Z.p)[n - t := Z.p[n - t]]
    ensures Z.p[n - t] * yj + X.Abs() == x0
  {
    hide Val, Pow, Wp, Sig, AddSticks;
    var j := n - t;
    var c := CmpMpi(X, Y);
    ghost var q := 0;
    assert Z.p == Z.p[j := 0];
    while c >= 0
      invariant X.Ready() && X.s == 1 && |X.p| >= old(|X.p|)
      invariant Z.Ready() && Z.s == old(Z.s) && q < W && Z.p == old(Z.p)[j := q]
      invariant q * yj + X.Abs() == x0
      invariant c == Sign(X.Abs() - yj)
      decreases X.Abs()
    {
      NoOverflow(q, yj, X.Abs(), n);
      Z.p := Z.p[j := Z.p[j] + 1];
      q := q + 1;
      c := SubtractOnce(X, Y);
    }
  }

  method SubtractOnce(X: Mpi, Y: Mpi) returns (c: int)
    requires X != Y && X.Ready() && X.s == 1 && Y.Ready() && Y.s == 1 && X.Abs() >= Y.Abs()
    modifies X
    ensures X.Ready() && X.s == 1 && |X.p| >= old(|X.p|) && X.Abs() == old(X.Abs()) - Y.Abs()
    ensures c == Sign(X.Abs() - Y.Abs())
  {
    hide Val, Sig, AddSticks, AddLoss;
    SubMpi(X, X, Y);
    c := CmpMpi(X, Y);
  }

  lemma NoOverflow(q: nat, yj: nat, x: nat, n: nat)
    requires q * yj + x < Wp(n + 1) && yj <= x && Wp(n) <= yj
    ensures q + 1 < W && yj > 0 && (q + 1) * yj == q * yj + yj
  {
    hide Pow, Wp;
    WpStep(n);
    Distribute(q, 1, yj);
    MulLe2(Wp(n), yj, q + 1);
    MulCancelLt(q + 1, W, Wp(n));
  }

  // ---- the quotient and the remainder ----

  /** The quotient rounded toward zero. */
  function TDiv(a: int, b: int): int
    requires b != 0
  {
    var q := Magnitude(a) / Magnitude(b);
    if (a < 0) == (b < 0) then q else -q
  }

  /** The remainder with the dividend's sign. */
  function TMod(a: int, b: int): int
    requires b != 0
  {
    var r := Magnitude(a) % Magnitude(b);
    if a < 0 then -r else r
  }

  /** What a truncated division promises. */
  lemma TDivMod(a: int, b: int)
    requires b != 0
    ensures a == TDiv(a, b) * b + TMod(a, b)
    ensures Magnitude(TMod(a, b)) < Magnitude(b) && (TMod(a, b) == 0 || (TMod(a, b) < 0 <==> a < 0))
  {
    DivMod(Magnitude(a), Magnitude(b));
    Negate(Magnitude(a) / Magnitude(b), b);
  }

  lemma Negate(q: int, b: int)
    ensures (-q) * b == -(q * b) && q * (-b) == -(q * b)
  {}

  /** Nothing else satisfies it. */
  lemma TDivModUnique(a: int, b: int, q: int, r: int)
    requires b != 0 && a == q * b + r
    requires Magnitude(r) < Magnitude(b) && (r == 0 || (r < 0 <==> a < 0))
    ensures q == TDiv(a, b) && r == TMod(a, b)
  {
    Negate(q, b);
    Negate(-q, b);
    var q' := if (a < 0) == (b < 0) then q else -q;
    assert Magnitude(a) == q' * Magnitude(b) + Magnitude(r);
    DivModUnique(Magnitude(a), q', Magnitude(r), Magnitude(b));
  }

  /** The truncated quotient and remainder from signs and magnitudes. */
  lemma TDivModSigned(sa: int, a: nat, sb: int, b: nat)
    requires (sa == 1 || sa == -1) && (sb == 1 || sb == -1) && b > 0
    ensures a >= b ==> (sa * sb) * (a / b) == TDiv(sa * a, sb * b)
    ensures a < b ==> TDiv(sa * a, sb * b) == 0
    ensures sa * (a % b) == TMod(sa * a, sb * b)
    ensures a < b ==> sa * a == TMod(sa * a, sb * b)
    ensures sa * sb == if sa == sb then 1 else -1
  {
    DivMod(a, b);
    if a < b {
      DivModUnique(a, 0, a, b);
    }
  }

  /** Dividing both operands' common factor out again. */
  lemma CommonFactor(a: nat, b: nat, k: nat, z: nat, x: nat)
    requires k > 0 && z * (b * k) + x == a * k && x < b * k
    ensures b > 0 && z == a / b && x / k == a % b
  {
    Associate(z, b, k);
    Distribute(a, z * b, k);
    var r := a - z * b;
    assert x == r * k;
    MulCancelLt(r, b, k);
    if r < 0 {
      MulLt(r, 0, k);
    }
    DivModUnique(a, z, r, b);
    DivModUnique(x, r, 0, k);
  }

  method DivLoop(X: Mpi, Y: Mpi, Z: Mpi, T1: Mpi, T2: Mpi, n: nat, t: nat)
    requires T1 != T2 && X !in {Y, Z, T1, T2} && Y !in {Z, T1, T2} && Z !in {T1, T2}
    requires t <= n < |X.p| && t < |Y.p| && Y.p[t] >= 1 && Y.Abs() < Wp(t + 1) && Y.Ready() && Y.s == 1
    requires NonNeg(X) && X.Abs() < Y.Abs() * Wp(n - t)
    requires Z.Ready() && n - t < |Z.p| && AllZero(Z.p[..n - t])
    requires T1.Ready() && |T1.p| >= 2 && T2.Ready() && |T2.p| >= 3
    modifies X, Z, T1, T2
    ensures NonNeg(X) && X.Abs() < Y.Abs()
    ensures Z.Ready() && Z.s == old(Z.s)
    ensures Z.Abs() * Y.Abs() + X.Abs() == old(Z.Abs() * Y.Abs() + X.Abs())
  {
    hide Val, Pow, Wp;
    var i := n;
    ghost var v := Z.Abs() * Y.Abs() + X.Abs();
    while i > t
      invariant t <= i <= n && i < |X.p| && NonNeg(X) && X.Abs() < Y.Abs() * Wp(i - t)
      invariant Z.Ready() && Z.s == old(Z.s) && |Z.p| == old(|Z.p|) && AllZero(Z.p[..i - t])
      invariant T1.Ready() && |T1.p| >= 2 && T2.Ready() && |T2.p| >= 3
      invariant Z.Abs() * Y.Abs() + X.Abs() == v
    {
      assert Z.p[i - t - 1] == Z.p[..i - t][i - t - 1];
      ghost var z := Z.p;
      DivStep(X, Y, Z, T1, T2, i, t);
      assert Z.p[..i - t - 1] == z[..i - t][..i - t - 1];
      i := i - 1;
    }
    WpStep(0);
  }

  /** Lines 937-1052: |A| = Z * |B| + (X >> k). */
  method DivAbs(A: Mpi, B: Mpi) returns (X: Mpi, Z: Mpi, k: nat)
    requires A.Ready() && B.Ready() && B.Abs() != 0 && A.Abs() >= B.Abs()
    ensures fresh(X) && fresh(Z) && X != Z && NonNeg(X) && Z.Ready() && Z.s == 1
    ensures Z.Abs() == A.Abs() / B.Abs() && X.Abs() / Pow2(k) == A.Abs() % B.Abs()
  {
    hide Val, Pow, Wp, Pow2, Full, Sig;
    var Y: Mpi;
    X, Y, k := Normalize(A, B);
    Z := new Mpi();
    Grow(Z, |A.p| + 2);
    WBound();
    Lset(Z, 0);
    var T1 := new Mpi();
    var T2 := new Mpi();
    Grow(T1, 2);
    Grow(T2, 3);
    var n, t := |X.p| - 1, |Y.p| - 1;
    ValBound(X.p);
    TopDigit(X, Y, Z, n, t);
    DivLoop(X, Y, Z, T1, T2, n, t);
    CommonFactor(A.Abs(), B.Abs(), Pow2(k), Z.Abs(), X.Abs());
  }

  /** Zero with a minus sign, as mpi_sub_mpi leaves it for equal negatives. */
  ghost predicate NegativeZero(A: Mpi)
    reads A
  {
    A.Abs() == 0 && A.s == -1
  }

  const ERR_MPI_DIVISION_BY_ZERO := 0x000A

  /** The sign written to Q: by then Q, and with it an operand that is Q, has taken Z's sign. */
  ghost function QuotientSign(Q: Mpi, A: Mpi, B: Mpi): int
    reads A, B
  {
    (if Q == A then 1 else A.s) * (if Q == B then 1 else B.s)
  }

  /** The sign written to a remainder that is not zero. */
  ghost function RemainderSign(Q: Mpi?, R: Mpi, A: Mpi, B: Mpi): int
    reads A, B
  {
    if R == A then 1 else if Q == A then QuotientSign(Q, A, B) else A.s
  }

  /** Whether the quotient's sign survives the sharing. */
  ghost predicate QuotientSafe(Q: Mpi, A: Mpi, B: Mpi)
    reads A, B
  {
    A.Abs() < B.Abs() || (Q == A && A.s == -1 <==> Q == B && B.s == -1)
  }

  /** Whether the remainder, and its sign, survive it. */
  ghost predicate RemainderSafe(Q: Mpi?, R: Mpi, A: Mpi, B: Mpi)
    requires B.Abs() > 0
    reads A, B
  {
    || A.Abs() % B.Abs() == 0
    || (if A.Abs() < B.Abs() then Q != A
        else if R == A then A.s == 1
        else Q != A || A.s == B.s)
  }

  lemma QuotientSafety(Q: Mpi, A: Mpi, B: Mpi)
    requires A.Ready() && B.Ready()
    ensures QuotientSign(Q, A, B) == 1 || QuotientSign(Q, A, B) == -1
    ensures QuotientSafe(Q, A, B) <==> A.Abs() < B.Abs() || (QuotientSign(Q, A, B) == 1 <==> A.s == B.s)
  {}

  lemma RemainderSafety(Q: Mpi?, R: Mpi, A: Mpi, B: Mpi)
    requires A.Ready() && B.Ready() && B.Abs() > 0
    ensures RemainderSign(Q, R, A, B) == 1 || RemainderSign(Q, R, A, B) == -1
    ensures RemainderSafe(Q, R, A, B)
       <==> A.Abs() % B.Abs() == 0 || (if A.Abs() < B.Abs() then Q != A else RemainderSign(Q, R, A, B) == A.s)
  {
    hide Val;
    if A == B {
      DivModUnique(A.Abs(), 1, 0, A.Abs());
    }
  }

  /** Lines 930-935: the dividend is the smaller one. */
  method DivShort(Q: Mpi?, R: Mpi?, A: Mpi, B: Mpi)
    requires A.Ready() && B.Ready() && (Q != null ==> Q.Valid()) && (R != null ==> R.Valid())
    requires A.Abs() < B.Abs()
    modifies Q, R
    ensures Q != null && Q != R ==> Q.Ready() && Q.Abs() == 0 && Q.s == 1
    ensures R != null ==> R.Ready() && |R.p| >= old(|R.p|)
    ensures R != null ==> R.Abs() == (if Q == A then 0 else old(A.Abs())) && R.s == if Q == A then 1 else old(A.s)
  {
    hide Val, Pow, Wp, Sig;
    WBound();
    if Q != null {
      Lset(Q, 0);
    }
    if R != null {
      Copy(R, A);
    }
  }

  /** Lines 937-1067: the dividend is not the smaller one. */
  method DivLong(Q: Mpi?, R: Mpi?, A: Mpi, B: Mpi)
    requires A.Ready() && B.Ready() && (Q != null ==> Q.Valid()) && (R != null ==> R.Valid())
    requires A.Abs() >= B.Abs() > 0
    modifies Q, R
    ensures Q != null && Q != R ==> Q.Ready() && Q.Abs() == old(A.Abs() / B.Abs()) && Q.s == old(QuotientSign(Q, A, B))
    ensures R != null ==> R.Ready() && |R.p| >= old(|R.p|) && R.Abs() == old(A.Abs() % B.Abs())
    ensures R != null ==> R.s == if R.Abs() == 0 then 1 else old(RemainderSign(Q, R, A, B))
  {
    hide Val, Pow, Wp, Pow2, Sig;
    var X, Z, k := DivAbs(A, B);
    if Q != null {
      StoreQuotient(Q, Z, A, B);
    }
    if R != null {
      StoreRemainder(R, X, k, A);
    }
  }

  /** Lines 923-1073, signs and exceptions by name. */
  method DivAny(Q: Mpi?, R: Mpi?, A: Mpi, B: Mpi) returns (ret: int)
    requires A.Ready() && B.Ready() && (Q != null ==> Q.Valid()) && (R != null ==> R.Valid())
    modifies Q, R
    ensures ret == if old(B.Abs()) == 0 then ERR_MPI_DIVISION_BY_ZERO else 0
    ensures ret == 0 && Q != null && Q != R ==> Q.Ready() && Q.Abs() == old(A.Abs() / B.Abs())
    ensures ret == 0 && Q != null && Q != R ==>
      Q.s == if old(A.Abs() < B.Abs()) then 1 else old(QuotientSign(Q, A, B))
    ensures ret == 0 && Q != null && Q != R ==>
      (Q.Value() == TDiv(old(A.Value()), old(B.Value())) <==> old(QuotientSafe(Q, A, B)))
    ensures ret == 0 && R != null ==> R.Ready() && |R.p| >= old(|R.p|)
    ensures ret == 0 && R != null ==>
      R.Abs() == if old(A.Abs() < B.Abs()) && Q == A then 0 else old(A.Abs() % B.Abs())
    ensures ret == 0 && R != null ==>
      R.s == if old(A.Abs() < B.Abs()) then (if Q == A then 1 else old(A.s))
             else if R.Abs() == 0 then 1 else old(RemainderSign(Q, R, A, B))
    ensures ret == 0 && R != null ==>
      (R.Value() == TMod(old(A.Value()), old(B.Value())) <==> old(RemainderSafe(Q, R, A, B)))
    ensures ret != 0 ==> (Q != null ==> unchanged(Q)) && (R != null ==> unchanged(R))
  {
    hide Val, Pow, Wp, Pow2, Sig, TDiv, TMod, QuotientSign, RemainderSign, QuotientSafe, RemainderSafe;
    var c := CmpInt(B, 0);
    if c == 0 {
      return ERR_MPI_DIVISION_BY_ZERO;
    }
    if Q != null {
      QuotientSafety(Q, A, B);
    }
    if R != null {
      RemainderSafety(Q, R, A, B);
    }
    ghost var sa, a, sb, b := A.s, A.Abs(), B.s, B.Abs();
    DivMod(a, b);
    c := CmpAbs(A, B);
    if c < 0 {
      DivShort(Q, R, A, B);
    } else {
      DivLong(Q, R, A, B);
    }
    if Q != null && Q != R {
      QuotientRight(sa, a, sb, b, Q.s);
    }
    if R != null {
      RemainderRight(sa, a, sb, b, R.s);
    }
    ret := 0;
  }

  /**
   * mpi_div_mpi, for arguments that are absent or share objects in any way: what
   * it leaves, and exactly when that is the quotient and the remainder. With Q
   * and R the same object the remainder is what stays in it.
   */
  method DivMpi(Q: Mpi?, R: Mpi?, A: Mpi, B: Mpi) returns (ret: int)
    requires A.Ready() && B.Ready() && (Q != null ==> Q.Valid()) && (R != null ==> R.Valid())
    modifies Q, R
    ensures ret == if old(B.Abs()) == 0 then ERR_MPI_DIVISION_BY_ZERO else 0
    ensures ret == 0 && Q != null && Q != R ==> Q.Ready() && Q.Abs() == old(A.Abs() / B.Abs())
    ensures ret == 0 && Q != null && Q != R ==>
      Q.s == if old(A.Abs() < B.Abs()) then 1
             else (if Q == A then 1 else old(A.s)) * (if Q == B then 1 else old(B.s))
    ensures ret == 0 && Q != null && Q != R ==>
      (Q.Value() == TDiv(old(A.Value()), old(B.Value()))
       <==> old(A.Abs() < B.Abs()) || (Q == A && old(A.s) == -1 <==> Q == B && old(B.s) == -1))
    ensures ret == 0 && R != null ==> R.Ready() && |R.p| >= old(|R.p|)
    ensures ret == 0 && R != null ==>
      R.Abs() == if old(A.Abs() < B.Abs()) && Q == A then 0 else old(A.Abs() % B.Abs())
    ensures ret == 0 && R != null ==>
      R.s == if old(A.Abs() < B.Abs()) then (if Q == A then 1 else old(A.s))
             else if R.Abs() == 0 || R == A then 1
             else if Q == A then (if Q == B then 1 else old(B.s))
             else old(A.s)
    ensures ret == 0 && R != null ==>
      (R.Value() == TMod(old(A.Value()), old(B.Value()))
       <==> || old(A.Abs() % B.Abs()) == 0
            || (if old(A.Abs() < B.Abs()) then Q != A
                else if R == A then old(A.s) == 1
                else Q != A || old(A.s) == old(B.s)))
    ensures ret == 0 && Q != null && R != null && Q != R && Q != A && Q != B && R != A ==>
      old(A.Value()) == Q.Value() * old(B.Value()) + R.Value() && R.Abs() < old(B.Abs())
      && (R.Value() == 0 || (R.Value() < 0 <==> old(A.Value()) < 0))
    ensures ret != 0 ==> (Q != null ==> unchanged(Q)) && (R != null ==> unchanged(R))
  {
    hide Val, Pow, Wp, Pow2, Sig, TDiv, TMod, QuotientSign, RemainderSign, QuotientSafe, RemainderSafe;
    ghost var a, b := A.Value(), B.Value();
    BySign(Q, R, A, B);
    ret := DivAny(Q, R, A, B);
    if ret == 0 {
      TDivMod(a, b);
    }
  }

  lemma BySign(Q: Mpi?, R: Mpi?, A: Mpi, B: Mpi)
    requires A.Ready() && B.Ready()
    ensures B.Abs() == 0 <==> B.Value() == 0
    ensures Q != null ==>
      && QuotientSign(Q, A, B) == (if Q == A then 1 else A.s) * (if Q == B then 1 else B.s)
      && (QuotientSafe(Q, A, B) <==> A.Abs() < B.Abs() || (Q == A && A.s == -1 <==> Q == B && B.s == -1))
    ensures R != null ==>
      RemainderSign(Q, R, A, B) == if R == A then 1 else if Q == A then (if Q == B then 1 else B.s) else A.s
    ensures R != null && B.Abs() > 0 ==>
      (RemainderSafe(Q, R, A, B)
       <==> || A.Abs() % B.Abs() == 0
            || (if A.Abs() < B.Abs() then Q != A
                else if R == A then A.s == 1
                else Q != A || A.s == B.s))
  {
    hide Val;
  }

  /** A quotient of sign s is the truncated one only if s is the product of the signs. */
  lemma QuotientRight(sa: int, a: nat, sb: int, b: nat, s: int)
    requires (sa == 1 || sa == -1) && (sb == 1 || sb == -1) && (s == 1 || s == -1) && b > 0
    ensures a < b ==> a / b == 0 && TDiv(sa * a, sb * b) == 0
    ensures a >= b ==> (s * (a / b) == TDiv(sa * a, sb * b) <==> (s == 1 <==> sa == sb))
  {
    TDivModSigned(sa, a, sb, b);
    if a < b {
      DivModUnique(a, 0, a, b);
    } else {
      DivMod(a, b);
      SignedEqual(s, sa * sb, a / b);
    }
  }

  lemma RemainderRight(sa: int, a: nat, sb: int, b: nat, s: int)
    requires (sa == 1 || sa == -1) && (sb == 1 || sb == -1) && (s == 1 || s == -1) && b > 0
    ensures a < b ==> a % b == a
    ensures s * (a % b) == TMod(sa * a, sb * b) <==> a % b == 0 || s == sa
    ensures TMod(sa * a, sb * b) == 0 <==> a % b == 0
  {
    TDivModSigned(sa, a, sb, b);
    SignedEqual(s, sa, a % b);
    if a < b {
      DivModUnique(a, 0, a, b);
    }
  }

  lemma SignedEqual(s: int, u: int, v: nat)
    requires (s == 1 || s == -1) && (u == 1 || u == -1)
    ensures s * v == u * v <==> v == 0 || s == u
    ensures u * v == 0 <==> v == 0
  {}

  /** Lines 1056-1057. */
  method StoreQuotient(Q: Mpi, Z: Mpi, A: Mpi, B: Mpi)
    requires Q.Valid() && Z.Ready() && Z.s == 1 && Z != Q && A.Ready() && B.Ready()
    modifies Q
    ensures Q.Ready() && |Q.p| >= old(|Q.p|) && Q.Abs() == Z.Abs()
    ensures Q.s == (if Q == A then 1 else A.s) * (if Q == B then 1 else B.s)
  {
    hide Val, Sig;
    Copy(Q, Z);
    TDivModSigned(A.s, 0, B.s, 1);
    Q.s := A.s * B.s;
  }

  /** Lines 1062-1067. */
  method StoreRemainder(R: Mpi, X: Mpi, k: nat, A: Mpi)
    requires R.Valid() && NonNeg(X) && X != R && X != A && A.Ready()
    modifies R, X
    ensures R.Ready() && |R.p| >= old(|R.p|) && R.Abs() == old(X.Abs()) / Pow2(k)
    ensures R.s == if R.Abs() == 0 then 1 else if R == A then 1 else A.s
  {
    hide Val, Sig, Pow, Pow2;
    QuotientOfZero(Pow2(k));
    ShiftR(X, k);
    Copy(R, X);
    R.s := A.s;
    var c := CmpInt(R, 0);
    if c == 0 {
      R.s := 1;
    }
  }

  lemma QuotientOfZero(d: nat)
    requires d > 0
    ensures 0 / d == 0
  {
    DivModUnique(0, 0, 0, d);
  }

  /** mpi_div_int. */
  method DivInt(Q: Mpi?, R: Mpi?, A: Mpi, b: int) returns (ret: int)
    requires A.Ready() && OneLimb(b) && (Q != null ==> Q.Valid()) && (R != null ==> R.Valid())
    modifies Q, R
    ensures ret == if b == 0 then ERR_MPI_DIVISION_BY_ZERO else 0
    ensures ret == 0 && Q != null && Q != R ==> Q.Ready() && Q.Abs() == old(A.Abs()) / Magnitude(b)
    ensures ret == 0 && Q != null && Q != R ==>
      (Q.Value() == TDiv(old(A.Value()), b)
       <==> old(A.Abs()) < Magnitude(b) || !(Q == A && old(A.s) == -1))
    ensures ret == 0 && R != null ==>
      R.Ready() && R.Abs() == if old(A.Abs()) < Magnitude(b) && Q == A then 0 else old(A.Abs()) % Magnitude(b)
    ensures ret == 0 && R != null ==>
      (R.Value() == TMod(old(A.Value()), b)
       <==> old(A.Abs()) % Magnitude(b) == 0
            || if old(A.Abs()) < Magnitude(b) then Q != A
               else if R == A then old(A.s) == 1
               else Q != A || (old(A.s) == -1 <==> b < 0))
  {
    hide Val, TDiv, TMod;
    var B := FromInt(b);
    ret := DivMpi(Q, R, A, B);
  }

  // ---- modulo ----

  lemma SameValSameSig(x: seq<limb>, y: seq<limb>)
    requires Val(x) == Val(y)
    ensures Sig(x) == Sig(y)
  {
    SigVal(x);
    SigVal(y);
    SigOfVal(x, Sig(y));
    SigOfVal(y, Sig(x));
  }

  /** From the remainder with the dividend's sign to the one in [0, b). */
  lemma EuclideanMod(a: int, b: int)
    requires b > 0
    ensures a % b == if TMod(a, b) < 0 then TMod(a, b) + b else TMod(a, b)
  {
    TDivMod(a, b);
    var q, r := TDiv(a, b), TMod(a, b);
    hide TDiv, TMod;
    if r < 0 {
      Distribute(q, 1, b);
      DivModUnique(a, q - 1, r + b, b);
    } else {
      DivModUnique(a, q, r, b);
    }
  }

  /** The dividend is replaced by its own remainder, and its minus sign is lost on the way. */
  ghost predicate SignLost(R: Mpi, A: Mpi, B: Mpi)
    reads A, B
  {
    R == A && A.s == -1 && A.Abs() >= B.Abs()
  }

  /** Line 1103: the remainder of mpi_div_mpi. */
  method FirstRemainder(R: Mpi, A: Mpi, B: Mpi) returns (ret: int)
    requires R.Valid() && A.Ready() && B.Ready() && B.Value() >= 0 && R != B
    modifies R
    ensures ret == if B.Abs() == 0 then ERR_MPI_DIVISION_BY_ZERO else 0
    ensures ret == 0 ==> R.Ready() && |R.p| >= old(|R.p|) && B.s == 1
    ensures ret == 0 ==>
      R.Value() == TMod(if old(SignLost(R, A, B)) then old(A.Abs()) else old(A.Value()), B.Value())
    ensures ret == 0 ==> (NegativeZero(R) <==> old(NegativeZero(A)))
    ensures ret != 0 ==> unchanged(R)
  {
    hide Val, Pow, Wp, Sig, TDiv, TMod, QuotientSafe;
    ghost var sa, a, b := A.s, A.Abs(), B.Abs();
    ret := DivMpi(null, R, A, B);
    if ret != 0 {
      return;
    }
    RemainderRight(sa, a, 1, b, R.s);
    RemainderRight(1, a, 1, b, R.s);
  }

  /**
   * mpi_mod_mpi as it is written: the residue in [0, B), except that a
   * negative zero comes out as -B, because mpi_cmp_mpi calls it not less. In
   * place, a dividend not smaller than B is taken for its magnitude.
   */
  method ModMpi(R: Mpi, A: Mpi, B: Mpi) returns (ret: int)
    requires R.Valid() && A.Ready() && B.Ready() && B.Value() >= 0 && R != B
    modifies R
    ensures ret == if B.Abs() == 0 then ERR_MPI_DIVISION_BY_ZERO else 0
    ensures ret == 0 ==> R.Ready() && |R.p| >= old(|R.p|)
    ensures ret == 0 ==>
      R.Value() == if old(A.Abs()) == 0 && old(A.s) == -1 then -B.Value()
                   else if R == A && old(A.s) == -1 && old(A.Abs()) >= B.Abs() then old(A.Abs()) % B.Value()
                   else old(A.Value()) % B.Value()
    ensures ret == 0 ==> (0 <= R.Value() < B.Value() <==> !(old(A.Abs()) == 0 && old(A.s) == -1))
    ensures ret == 0 && 0 <= R.Value() ==> R.s == 1
    ensures ret != 0 ==> unchanged(R)
  {
    hide Val, Pow, Wp, Sig, TDiv, TMod, AddSticks, AddLoss;
    ghost var a, b, nz := if SignLost(R, A, B) then A.Abs() else A.Value(), B.Value(), NegativeZero(A);
    ret := FirstRemainder(R, A, B);
    if ret != 0 {
      return;
    }
    hide SignLost;
    TDivMod(a, b);
    EuclideanMod(a, b);
    ghost var r := TMod(a, b);
    AddUntilNonNegative(R, B, r);
    SubtractUntilLess(R, B, nz);
  }

  /** Lines 1105-1106, from a remainder of magnitude below B. */
  method AddUntilNonNegative(R: Mpi, B: Mpi, ghost r: int)
    requires R != B && R.Ready() && R.Value() == r && B.Ready() && B.s == 1 && -B.Value() < r < B.Value()
    modifies R
    ensures R.Ready() && |R.p| >= old(|R.p|) && R.Value() == if r < 0 then r + B.Value() else r
    ensures if r == 0 then R.s == old(R.s) else R.s == 1
  {
    hide Val, Sig, AddSticks, AddLoss;
    var c := CmpInt(R, 0);
    while c < 0
      invariant R.Ready() && |R.p| >= old(|R.p|) && c == Sign(R.Value())
      invariant R.Value() == r || (r < 0 && R.Value() == r + B.Value())
      invariant if R.Value() == r <= 0 then R.s == old(R.s) else R.s == 1
      decreases -R.Value()
    {
      AddMpi(R, R, B);
      c := CmpInt(R, 0);
    }
  }

  /** Lines 1108-1109: one subtraction, and only from a negative zero. */
  method SubtractUntilLess(R: Mpi, B: Mpi, ghost nz: bool)
    requires R != B && R.Ready() && B.Ready() && B.s == 1 && 0 <= R.Value() < B.Value()
    requires nz <==> NegativeZero(R)
    requires !nz ==> R.s == 1
    modifies R
    ensures R.Ready() && |R.p| >= old(|R.p|) && R.Value() == if nz then -B.Value() else old(R.Value())
    ensures !nz ==> R.s == 1
  {
    hide Val, Sig, AddSticks, AddLoss;
    var c := CmpMpi(R, B);
    ghost var first := true;
    SigVal(R.p);
    SigVal(B.p);
    while c >= 0
      invariant R.Ready() && |R.p| >= old(|R.p|) && (!nz ==> R.s == 1 && R.Value() == old(R.Value()) && c < 0)
      invariant nz && first ==> NegativeZero(R)
      invariant nz && !first ==> R.Value() == -B.Value() && c < 0
      invariant nz && first ==> c == 1
      decreases first
    {
      ZeroNeverSticks(R, R, B);
      SubMpi(R, R, B);
      first := false;
      SameValSameSig(R.p, B.p);
      c := CmpMpi(R, B);
    }
  }
}
