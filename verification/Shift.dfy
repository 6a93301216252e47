/**
 * Bit length, lowest set bit and shifts
 * (src/bootloader/myboot/bignum.c, lines 380-500).
 */
module Shift {
  import opened Arith
  import opened Bits
  import opened Limbs
  import opened Mpis

  lemma WIsPow2(k: nat)
    requires k <= biL
    ensures W == Pow2(k) * Pow2(biL - k) == Pow2(biL - k) * Pow2(k)
  {
    hide Pow;
    Pow2Add(k, biL - k);
    WidthIsPow2();
  }

  lemma WidthIsPow2()
    ensures W == Pow2(biL)
  {}

  // ---- mpi_size ----

  lemma TestBit(x: nat, j: nat)
    requires x < Pow2(j + 1)
    ensures Bit(x, j) == if x < Pow2(j) then 0 else 1
  {
    Pow2Step(j);
    if x < Pow2(j) {
      DivModUnique(x, 0, x, Pow2(j));
    } else {
      DivModUnique(x, 1, x - Pow2(j), Pow2(j));
    }
  }

  lemma BitLenOfTop(s: seq<limb>, i: nat)
    requires i + 1 == Sig(s)
    ensures BitLen(Val(s)) == i * biL + BitLen(s[i])
  {
    hide Val, Pow, Wp, Sig, BitLen, Pow2;
    SigVal(s);
    ValPrefixStep(s, i);
    ValBound(s[..i]);
    var x, l := s[i], BitLen(s[i]);
    BitLenBounds(x);
    WpPow2Bits(i);
    Pow2Add(l - 1, biL * i);
    Pow2Add(l, biL * i);
    MulLe2(Pow2(l - 1), x, Wp(i));
    DigitBound(Val(s[..i]), x, Pow2(l), Wp(i));
    BitLenUnique(Val(s), l + biL * i);
  }

  lemma WpPow2Bits(i: nat)
    ensures Wp(i) == Pow2(biL * i)
  {
    WpPow2(i);
  }

  lemma LimbBits(x: limb)
    ensures x < Pow2(biL)
  {}

  lemma BitLenLimb(x: limb, j: int)
    requires -1 <= j < biL && x < Pow2(j + 1) && (j >= 0 ==> Pow2(j) <= x)
    ensures BitLen(x) == j + 1
  {
    if j >= 0 {
      BitLenUnique(x, j + 1);
    } else {
      Pow2Step(0);
    }
  }

  method Size(X: Mpi) returns (n: nat)
    requires |X.p| >= 1
    ensures n == BitLen(X.Abs())
  {
    hide Val, Pow, Wp, Sig, BitLen, Pow2, Bit;
    var i := |X.p| - 1;
    while i > 0
      invariant 0 <= i < |X.p|
      invariant forall k :: i < k < |X.p| ==> X.p[k] == 0
    {
      if X.p[i] != 0 {
        break;
      }
      i := i - 1;
    }
    var j: int := biL - 1;
    LimbBits(X.p[i]);
    while j >= 0
      invariant -1 <= j < biL && X.p[i] < Pow2(j + 1)
    {
      TestBit(X.p[i], j);
      if Bit(X.p[i], j) != 0 {
        break;
      }
      j := j - 1;
    }
    BitLenLimb(X.p[i], j);
    if X.p[i] != 0 {
      SigUnique(X.p, i + 1);
      BitLenOfTop(X.p, i);
    } else {
      ValZeros(X.p);
      assert i == 0;
    }
    n := i * biL + j + 1;
  }

  // ---- shifts of one limb ----

  /** x << t, split at the limb boundary. */
  lemma ShiftLimb(x: limb, t: nat)
    requires t <= biL
    ensures var h := Pow2(biL - t);
            && (x * Pow2(t)) % W == (x % h) * Pow2(t)
            && (x / h) * W + (x % h) * Pow2(t) == x * Pow2(t)
            && x / h < Pow2(t) && 0 <= (x % h) * Pow2(t) <= W - Pow2(t)
  {
    hide Pow, Pow2;
    var T, h := Pow2(t), Pow2(biL - t);
    WIsPow2(t);
    DivMod(x, h);
    DivBelow(x, T, h);
    ShiftSplit(x / h, x % h, h, T);
    DivModUnique(x * T, x / h, (x % h) * T, W);
  }

  lemma ShiftSplit(q: nat, r: nat, h: nat, t: nat)
    requires r < h
    ensures q * (t * h) + r * t == (q * h + r) * t && 0 <= r * t <= t * h - t
  {
    hide Pow;
    Distribute(q * h, r, t);
    Associate(q, h, t);
    MulLe2(r + 1, h, t);
    Distribute(r, 1, t);
  }

  lemma OrShifted(a: nat, t: nat, lo: nat)
    requires lo < Pow2(t)
    ensures Or(a * Pow2(t), lo) == a * Pow2(t) + lo == Or(lo, a * Pow2(t))
  {
    OrDisjoint(a, t, lo);
  }

  // ---- mpi_shift_l ----

  /** X->p[i] <<= t1; X->p[i] |= r0, with r1 the bits shifted out. */
  method ShiftLeftLimb(x: limb, t: nat, r0: limb) returns (y: limb, r1: limb)
    requires 0 < t < biL && r0 < Pow2(t)
    ensures y + r1 * W == x * Pow2(t) + r0 && r1 < Pow2(t)
  {
    hide Pow, Pow2, Or;
    ShiftLimb(x, t);
    OrShifted(x % Pow2(biL - t), t, r0);
    Pow2Mono(t, biL);
    WidthIsPow2();
    r1 := x / Pow2(biL - t);
    y := Or((x * Pow2(t)) % W, r0);
  }

  lemma ShiftStep(x: seq<limb>, x0: seq<limb>, i: nat, t: nat, y: limb, r0: nat, r1: nat)
    requires i < |x| == |x0| && x[i] == x0[i]
    requires y + r1 * W == x0[i] * t + r0 && t >= 1
    requires Val(x) + r0 * Wp(i) == Val(x0) + (t - 1) * Val(x0[..i])
    ensures Val(x[i := y]) + r1 * Wp(i + 1) == Val(x0) + (t - 1) * Val(x0[..i + 1])
  {
    hide Val, Pow, Wp;
    ValStore(x, i, y);
    ValPrefixStep(x0, i);
    WpStep(i);
    var v := x0[i];
    Distribute(v, 0, t);
    assert y + r1 * W == v + r0 + (t - 1) * v by {
      Distribute(t, 1, v);
    }
    StepArith(v, y, r0, r1, (t - 1) * v, Wp(i));
    Distribute(Val(x0[..i]), v * Wp(i), t - 1);
    Associate(t - 1, v, Wp(i));
  }

  lemma StepArith(v: int, y: int, r0: int, r1: int, add: int, weight: int)
    requires y + r1 * W == v + r0 + add
    ensures (y - v) * weight + r1 * (W * weight) == r0 * weight + add * weight
  {
    Distribute(y, v, weight);
    Distribute(v + r0, add, weight);
    Distribute(v, r0, weight);
    Distribute(y, r1 * W, weight);
    Associate(r1, W, weight);
  }

  /** Lines 446-455, from limb v0 up; the limbs below v0 are zero. */
  method ShiftLeftBits(X: Mpi, v0: nat, t: nat)
    requires 0 < t < biL && v0 <= |X.p| && AllZero(X.p[..v0])
    requires X.Abs() * Pow2(t) < Wp(|X.p|)
    modifies X
    ensures X.s == old(X.s) && |X.p| == old(|X.p|)
    ensures X.Abs() == old(X.Abs()) * Pow2(t)
  {
    hide Val, Pow, Wp, Pow2;
    var i := v0;
    var r0: limb := 0;
    ghost var x0, T := X.p, Pow2(t);
    ValZeros(x0[..v0]);
    while i < |X.p|
      invariant v0 <= i <= |X.p| == |x0| && X.s == old(X.s)
      invariant r0 < Pow2(t) && T == Pow2(t)
      invariant forall k :: i <= k < |x0| ==> X.p[k] == x0[k]
      invariant X.Abs() + r0 * Wp(i) == Val(x0) + (T - 1) * Val(x0[..i])
    {
      var y, r1 := ShiftLeftLimb(X.p[i], t, r0);
      ShiftStep(X.p, x0, i, T, y, r0, r1);
      X.p := X.p[i := y];
      r0 := r1;
      i := i + 1;
    }
    assert x0[..i] == x0;
    Distribute(T, 1, Val(x0));
    if r0 > 0 {
      MulLe2(1, r0, Wp(i));
    }
  }

  /** Lines 434-441: whole limbs up, zeros below. */
  method ShiftLeftLimbs(X: Mpi, v0: nat)
    requires v0 <= |X.p| && Val(X.p) < Wp(|X.p| - v0)
    modifies X
    ensures X.s == old(X.s) && |X.p| == old(|X.p|)
    ensures X.Abs() == old(X.Abs()) * Wp(v0) && AllZero(X.p[..v0])
  {
    hide Val, Pow, Wp;
    ghost var x0 := X.p;
    var n := |X.p|;
    if v0 > 0 {
      var i := n - 1;
      while i >= v0
        invariant v0 - 1 <= i < n == |X.p| && X.s == old(X.s)
        invariant forall k :: 0 <= k <= i ==> X.p[k] == x0[k]
        invariant forall k :: i < k < n ==> X.p[k] == x0[k - v0]
      {
        X.p := X.p[i := X.p[i - v0]];
        i := i - 1;
      }
      while i >= 0
        invariant -1 <= i < v0 && |X.p| == n && X.s == old(X.s)
        invariant forall k :: i < k < v0 ==> X.p[k] == 0
        invariant forall k :: v0 <= k < n ==> X.p[k] == x0[k - v0]
      {
        X.p := X.p[i := 0];
        i := i - 1;
      }
    }
    assert X.p[..v0] == Zeros(v0);
    assert X.p[v0..] == x0[..n - v0];
    ValSplit(X.p, v0);
    ValZeros(X.p[..v0]);
    ValSmallTail(x0, n - v0);
  }

  /** Limbs needed for the given number of bits. */
  function BitsToLimbs(i: nat): nat {
    (i + biL - 1) / biL
  }

  lemma BitsToLimbsCovers(i: nat)
    ensures i <= BitsToLimbs(i) * biL < i + biL
  {
    DivMod(i + biL - 1, biL);
  }

  /** A value of size bits, shifted by count, fits n limbs. */
  lemma ShiftFits(x: nat, count: nat, n: nat)
    requires BitLen(x) + count <= n * biL
    ensures x * Pow2(count) < Wp(n)
    ensures count / biL <= n && x < Wp(n - count / biL)
    ensures Pow2(count) == Wp(count / biL) * Pow2(count % biL)
  {
    hide Pow, Pow2, Wp, BitLen;
    var l := BitLen(x);
    BitLenLe(x, l);
    Pow2Add(l, count);
    MulLt(x, Pow2(l), Pow2(count));
    Pow2Mono(l + count, n * biL);
    WpPow2Bits(n);
    var v := count / biL;
    DivMod(count, biL);
    MulCancelLe(v, n, biL);
    Distribute(n, v, biL);
    WpPow2Bits(n - v);
    Pow2Mono(l, biL * (n - v));
    WpPow2Bits(v);
    Pow2Add(biL * v, count % biL);
  }

  lemma MulCancelLe(a: int, b: int, c: int)
    requires a * c <= b * c && 0 < c
    ensures a <= b
  {
    if b < a {
      MulLt(b, a, c);
    }
  }

  method ShiftL(X: Mpi, count: nat)
    requires X.Ready()
    modifies X
    ensures X.Ready() && X.s == old(X.s)
    ensures X.Abs() == old(X.Abs()) * Pow2(count)
    ensures |X.p| == if old(|X.p|) * biL < BitLen(old(X.Abs())) + count then BitsToLimbs(BitLen(old(X.Abs())) + count)
                     else old(|X.p|)
  {
    hide Val, Pow, Wp, Pow2, BitLen, BitsToLimbs;
    var v0, t1 := count / biL, count % biL;
    var i := Size(X);
    i := i + count;
    BitsToLimbsCovers(i);
    ghost var x := X.Abs();
    if |X.p| * biL < i {
      MulCancelLtLimbs(|X.p|, BitsToLimbs(i));
      Grow(X, BitsToLimbs(i));
    }
    ShiftFits(x, count, |X.p|);
    ShiftLeftLimbs(X, v0);
    Associate(x, Wp(v0), Pow2(t1));
    if t1 > 0 {
      ShiftLeftBits(X, v0, t1);
    } else {
      Pow2Zero();
    }
  }

  lemma Pow2Zero()
    ensures Pow2(0) == 1
  {}

  lemma MulCancelLtLimbs(a: nat, b: nat)
    requires a * biL < b * biL
    ensures a < b
  {
    MulCancelLt(a, b, biL);
  }

  // ---- mpi_shift_r ----

  /** X->p[i] >>= v1; X->p[i] |= r0, with r1 the bits shifted out, at the top. */
  method ShiftRightLimb(x: limb, t: nat, ghost rem: nat, r0: limb) returns (y: limb, r1: limb)
    requires 0 < t < biL && rem < Pow2(t) && r0 == rem * Pow2(biL - t)
    ensures r1 == (x % Pow2(t)) * Pow2(biL - t)
    ensures y * Pow2(t) + x % Pow2(t) == x + rem * W
  {
    hide Pow, Pow2, Or;
    ghost var h := Pow2(biL - t);
    ShiftLimb(x, biL - t);
    assert biL - (biL - t) == t;
    WIsPow2(t);
    DivMod(x, Pow2(t));
    DivBelow(x, h, Pow2(t));
    OrShifted(rem, biL - t, x / Pow2(t));
    Distribute(x / Pow2(t), rem * h, Pow2(t));
    Associate(rem, h, Pow2(t));
    DigitBound(x / Pow2(t), rem, Pow2(t), h);
    r1 := (x * Pow2(biL - t)) % W;
    y := Or(x / Pow2(t), r0);
  }

  lemma ShiftRightStep(x: seq<limb>, x0: seq<limb>, i: nat, t: nat, y: limb, rem: nat, rem': nat)
    requires i < |x| == |x0| && x[i] == x0[i]
    requires y * t + rem' == x0[i] + rem * W
    requires t * Val(x[i + 1..]) + rem == Val(x0[i + 1..])
    ensures t * Val(x[i := y][i..]) + rem' == Val(x0[i..])
  {
    hide Val, Pow, Wp;
    var z := x[i := y];
    ValSplitFirst(z[i..]);
    ValSplitFirst(x0[i..]);
    assert z[i..][1..] == x[i + 1..] && x0[i..][1..] == x0[i + 1..];
    var v := Val(x[i + 1..]);
    Distribute(y, W * v, t);
    Associate(W, t, v);
    Distribute(t * v, rem, W);
  }

  /** Lines 490-496. */
  method ShiftRightBits(X: Mpi, t: nat)
    requires 0 < t < biL
    modifies X
    ensures X.s == old(X.s) && |X.p| == old(|X.p|)
    ensures X.Abs() == old(X.Abs()) / Pow2(t)
  {
    hide Val, Pow, Wp, Pow2;
    var i := |X.p| - 1;
    var r0: limb := 0;
    ghost var x0, T, rem := X.p, Pow2(t), 0;
    ValZeros(X.p[i + 1..]);
    while i >= 0
      invariant -1 <= i < |X.p| == |x0| && X.s == old(X.s)
      invariant rem < T == Pow2(t) && r0 == rem * Pow2(biL - t)
      invariant forall k :: 0 <= k <= i ==> X.p[k] == x0[k]
      invariant T * Val(X.p[i + 1..]) + rem == Val(x0[i + 1..])
    {
      var y, r1 := ShiftRightLimb(X.p[i], t, rem, r0);
      ghost var rem' := X.p[i] % T;
      DivMod(X.p[i], T);
      ShiftRightStep(X.p, x0, i, T, y, rem, rem');
      X.p := X.p[i := y];
      r0 := r1;
      rem := rem';
      i := i - 1;
    }
    assert X.p[0..] == X.p && x0[0..] == x0;
    DivModUnique(Val(x0), Val(X.p), rem, T);
  }

  /** Lines 476-483. */
  method ShiftRightLimbs(X: Mpi, v0: nat)
    modifies X
    ensures X.s == old(X.s) && |X.p| == old(|X.p|)
    ensures X.Abs() == old(X.Abs()) / Wp(v0)
  {
    hide Val, Pow, Wp;
    ghost var x0 := X.p;
    var n := |X.p|;
    if v0 > 0 {
      var i := 0;
      while i < n - v0
        invariant 0 <= i <= Max(0, n - v0) && |X.p| == n && X.s == old(X.s)
        invariant forall k :: 0 <= k < i ==> X.p[k] == x0[k + v0]
        invariant forall k :: i <= k < n ==> X.p[k] == x0[k]
      {
        X.p := X.p[i := X.p[i + v0]];
        i := i + 1;
      }
      ghost var m := i;
      while i < n
        invariant m <= i <= n == |X.p| && X.s == old(X.s)
        invariant forall k :: 0 <= k < m ==> X.p[k] == x0[k + v0]
        invariant forall k :: m <= k < i ==> X.p[k] == 0
      {
        X.p := X.p[i := 0];
        i := i + 1;
      }
      ValZeroTail(X.p, m);
      DropLimbs(x0, X.p[..m], v0);
    } else {
      WpStep(0);
      DivModUnique(Val(x0), Val(x0), 0, 1);
    }
  }

  lemma DivByWeight(x: nat, high: nat, low: nat, weight: nat)
    requires low < weight && x == low + weight * high
    ensures high == x / weight
  {
    DivModUnique(x, high, low, weight);
  }

  /** Dropping the low v0 limbs divides by their weight. */
  lemma DropLimbs(x: seq<limb>, y: seq<limb>, v0: nat)
    requires |y| == Max(0, |x| - v0) && forall k :: 0 <= k < |y| ==> y[k] == x[k + v0]
    ensures Val(y) == Val(x) / Wp(v0)
  {
    hide Val, Pow, Wp;
    if v0 <= |x| {
      assert y == x[v0..];
      ValSplit(x, v0);
      ValBound(x[..v0]);
      DivByWeight(Val(x), Val(y), Val(x[..v0]), Wp(v0));
    } else {
      ValZeros(y);
      ValBound(x);
      WpMono(|x|, v0);
      DivModUnique(Val(x), 0, Val(x), Wp(v0));
    }
  }

  lemma DivDiv(x: nat, a: nat, b: nat)
    requires a > 0 && b > 0
    ensures a * b > 0 && (x / a) / b == x / (a * b)
  {
    var q, r := x / a, x % a;
    DivMod(x, a);
    DivMod(q, b);
    var q', r' := q / b, q % b;
    Associate(q', a, b);
    Distribute(q' * b, r', a);
    DigitBound(r, r', b, a);
    DivModUnique(x, q', r' * a + r, a * b);
  }

  /** mpi_shift_r drops the low bits of the magnitude and keeps the sign. */
  method ShiftR(X: Mpi, count: nat)
    requires X.Ready()
    modifies X
    ensures X.Ready() && X.s == old(X.s) && |X.p| == old(|X.p|)
    ensures X.Abs() == old(X.Abs()) / Pow2(count)
  {
    hide Val, Pow, Wp, Pow2;
    var v0, v1 := count / biL, count % biL;
    ghost var x := X.Abs();
    DivMod(count, biL);
    WpPow2Bits(v0);
    Pow2Add(biL * v0, v1);
    DivDiv(x, Wp(v0), Pow2(v1));
    ShiftRightLimbs(X, v0);
    if v1 > 0 {
      ShiftRightBits(X, v1);
    } else {
      Pow2Zero();
      DivModUnique(X.Abs(), X.Abs(), 0, 1);
    }
  }

  // ---- mpi_lsb ----

  /** The number of factors two in x; zero for zero. */
  function Twos(x: nat): nat {
    if x == 0 || x % 2 == 1 then 0 else 1 + Twos(x / 2)
  }

  lemma {:induction false} TwosSplit(x: nat)
    requires x > 0
    ensures x % Pow2(Twos(x)) == 0 && (x / Pow2(Twos(x))) % 2 == 1 && x / Pow2(Twos(x)) > 0
    ensures x == (x / Pow2(Twos(x))) * Pow2(Twos(x))
    decreases x
  {
    var k := Twos(x);
    if k == 0 {
      Pow2Zero();
    } else {
      TwosSplit(x / 2);
      var o := (x / 2) / Pow2(k - 1);
      Pow2Step(k - 1);
      Associate(o, 2, Pow2(k - 1));
      DivModUnique(x, o, 0, Pow2(k));
    }
  }

  lemma {:induction false} TwosUnique(x: nat, k: nat, o: nat)
    requires x == o * Pow2(k) && o % 2 == 1
    ensures Twos(x) == k
    decreases k
  {
    MulLe2(1, o, Pow2(k));
    if k > 0 {
      Pow2Step(k - 1);
      Associate(o, 2, Pow2(k - 1));
      TwosUnique(x / 2, k - 1, o);
    } else {
      Pow2Zero();
    }
  }

  lemma SplitMultiple(q: int, rest: int, m: int, p: int)
    ensures (q + rest * (m * 2)) * p == q * p + (p * (2 * m)) * rest
  {
    Distribute(q, rest * (m * 2), p);
    Associate(rest, m * 2, p);
    assert (p * (2 * m)) * rest == rest * ((m * 2) * p);
  }

  /** A limb whose lowest set bit is j, below any multiple of W. */
  lemma LowestBit(x: limb, rest: nat, j: nat) returns (o: nat)
    requires j < biL && x % Pow2(j) == 0 && Bit(x, j) == 1
    ensures x + W * rest == o * Pow2(j) && o % 2 == 1
  {
    hide Pow, Pow2;
    var m := Pow2(biL - j - 1);
    Pow2Step(biL - j - 1);
    WIsPow2(j);
    var q, p := x / Pow2(j), Pow2(j);
    DivMod(x, p);
    OddSum(q, rest, m);
    MulNonneg(rest, m * 2);
    o := q + rest * (m * 2);
    SplitMultiple(q, rest, m, p);
  }

  /** Bits below j clear and bit j set, in the lowest nonzero limb. */
  lemma LsbFound(s: seq<limb>, i: nat, j: nat)
    requires i < |s| && j < biL && AllZero(s[..i])
    requires s[i] % Pow2(j) == 0 && Bit(s[i], j) == 1
    ensures Twos(Val(s)) == i * biL + j
  {
    hide Val, Pow, Wp, Pow2, Bit;
    ValSplit(s, i);
    ValZeros(s[..i]);
    ValSplitFirst(s[i..]);
    var o := LowestBit(s[i], Val(s[i..][1..]), j);
    WpPow2Bits(i);
    Pow2Add(j, biL * i);
    Associate(o, Pow2(j), Wp(i));
    TwosUnique(Val(s), j + biL * i, o);
  }

  lemma OddSum(o: nat, a: nat, b: nat)
    requires o % 2 == 1
    ensures (o + a * (b * 2)) % 2 == 1
  {
    Associate(a, b, 2);
  }

  lemma BitClear(x: nat, j: nat)
    requires x % Pow2(j) == 0
    ensures Bit(x, j) == 0 ==> x % Pow2(j + 1) == 0
  {
    hide Pow, Pow2;
    Pow2Step(j);
    DivMod(x, Pow2(j));
    if Bit(x, j) == 0 {
      var q := x / Pow2(j);
      Associate(q / 2, 2, Pow2(j));
      DivModUnique(x, q / 2, 0, Pow2(j + 1));
    }
  }

  method Lsb(X: Mpi) returns (count: nat)
    ensures count == Twos(X.Abs())
  {
    hide Val, Pow, Wp, Pow2, Bit, Twos;
    count := 0;
    var i := 0;
    while i < |X.p|
      invariant 0 <= i <= |X.p| && AllZero(X.p[..i]) && count == i * biL
    {
      var j := 0;
      Pow2Zero();
      while j < biL
        invariant 0 <= j <= biL && count == i * biL + j && X.p[i] % Pow2(j) == 0
      {
        if Bit(X.p[i], j) != 0 {
          BitRange(X.p[i], j);
          LsbFound(X.p, i, j);
          return;
        }
        BitClear(X.p[i], j);
        j, count := j + 1, count + 1;
      }
      LimbBits(X.p[i]);
      DivModUnique(X.p[i], 0, X.p[i], Pow2(biL));
      assert X.p[i] == 0;
      i := i + 1;
    }
    ValZeros(X.p);
    TwosZero();
    return 0;
  }

  lemma BitRange(x: nat, j: nat)
    ensures Bit(x, j) == 0 || Bit(x, j) == 1
  {}

  lemma TwosZero()
    ensures Twos(0) == 0
  {}
}
