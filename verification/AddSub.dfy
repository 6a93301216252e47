/**
 * Limb addition and subtraction
 * (src/bootloader/myboot/bignum.c, lines 584-776).
 */
module AddSub {
  import opened Arith
  import opened Limbs
  import opened Mpis

  // ---- one limb step ----

  /** x + y as a limb-wide machine addition leaves it. */
  function AddW(x: limb, y: limb): limb {
    if x + y < W then x + y else x + y - W
  }

  function SubW(x: limb, y: limb): limb {
    if x < y then x - y + W else x - y
  }

  function Flag(b: bool): limb
  {
    WBound();
    if b then 1 else 0
  }

  /** Changing the digit at a weight, with what leaves for the next weight. */
  lemma CarryStep(was: int, now: int, c: int, c': int, add: int, weight: int)
    requires now + c' * W == was + c + add
    ensures (now - was) * weight + c' * (W * weight) == c * weight + add * weight
  {
    Distribute(now, was, weight);
    Distribute(c, add, weight);
    Distribute(was, c + add, weight);
    Distribute(now, c' * W, weight);
    Associate(c', W, weight);
  }

  /** The borrow loop's counterpart: c' leaves as a debt to the next weight. */
  lemma BorrowStep(was: int, now: int, c: int, c': int, sub: int, weight: int)
    requires now - c' * W == was - c - sub
    ensures (now - was) * weight - c' * (W * weight) == -(c * weight) - sub * weight
  {
    CarryStep(was, now, -c, -c', -sub, weight);
    assert (-c') * (W * weight) == -(c' * (W * weight));
    assert (-c) * weight == -(c * weight);
    assert (-sub) * weight == -(sub * weight);
  }

  /** What lines 607-608 leave in *p and c: an exact digit sum and its carry. */
  lemma AddDigit(x: limb, o: limb, c: limb)
    requires c <= 1
    ensures var d1 := AddW(x, c); var d2 := AddW(d1, o); var c2 := Flag(d1 < c) + Flag(d2 < o);
            c2 <= 1 && d2 + c2 * W == x + c + o
  {
    WBound();
  }

  lemma AddStep(x: seq<limb>, i: nat, o: nat, c: nat, d: limb, c': nat)
    requires i < |x| && d + c' * W == x[i] + c + o
    ensures Val(x[i := d]) + c' * Wp(i + 1) == Val(x) + c * Wp(i) + o * Wp(i)
  {
    ValStore(x, i, d);
    WpStep(i);
    CarryStep(x[i], d, c, c', o, Wp(i));
  }

  /** The loop at lines 605-609: B's low m limbs into X, the carry out returned. */
  method AddLimbs(X: Mpi, B: Mpi, m: nat) returns (c: limb)
    requires X != B && m <= |X.p| && m <= |B.p|
    modifies X
    ensures X.s == old(X.s) && |X.p| == old(|X.p|) && c <= 1
    ensures X.Abs() + c * Wp(m) == old(X.Abs()) + Val(B.p[..m])
    ensures X.p[m..] == old(X.p)[m..]
  {
    WBound();
    c := 0;
    var i := 0;
    while i < m
      invariant 0 <= i <= m && c <= 1
      invariant X.s == old(X.s) && |X.p| == old(|X.p|)
      invariant X.Abs() + c * Wp(i) == old(X.Abs()) + Val(B.p[..i])
      invariant forall k :: i <= k < |X.p| ==> X.p[k] == old(X.p)[k]
    {
      var d := AddW(X.p[i], c);
      var c' := Flag(d < c);
      d := AddW(d, B.p[i]);
      c' := c' + Flag(d < B.p[i]);
      AddDigit(X.p[i], B.p[i], c);
      AddStep(X.p, i, B.p[i], c, d, c');
      ValPrefixStep(B.p, i);
      X.p := X.p[i := d];
      c := c';
      i := i + 1;
    }
  }

  // ---- |A| + |B| ----

  /**
   * When lines 611-620 stick: the carry out of the m = Sig(b) low limbs meets
   * an all-ones limb that is not the last one of the n limbs X has. The limb
   * pointer is not advanced there, so the second carry lands in the limb that
   * has just wrapped to zero.
   */
  ghost predicate CarrySticks(n: nat, a: seq<limb>, b: seq<limb>) {
    var m := Sig(b);
    m + 1 < n && m < |a| && a[m] == W - 1 && Val(a[..m]) + Val(b) >= Wp(m)
  }

  /** What sticking costs: the carry stays at weight m instead of m + 1. */
  ghost function StickLoss(n: nat, a: seq<limb>, b: seq<limb>): int {
    if CarrySticks(n, a, b) then Wp(Sig(b) + 1) - Wp(Sig(b)) else 0
  }

  lemma StickLossPositive(n: nat, a: seq<limb>, b: seq<limb>)
    ensures StickLoss(n, a, b) != 0 <==> CarrySticks(n, a, b)
  {
    WBound();
    WpStep(Sig(b));
    MulLt(1, W, Wp(Sig(b)));
  }

  /** Too short a first operand leaves nothing for the carry to stick in. */
  lemma NoStickWhenShorter(n: nat, a: seq<limb>, b: seq<limb>)
    requires Sig(a) <= Sig(b)
    ensures !CarrySticks(n, a, b)
  {
    WBound();
  }

  /** Lines 594-603: X holds |A| and has room for B's m significant limbs. */
  method CopyFor(X: Mpi, A: Mpi, B: Mpi) returns (m: nat)
    requires X.Valid() && A.Ready() && B.Ready() && X != B
    modifies X
    ensures X.Ready() && X.s == old(A.s) && X.Abs() == old(A.Abs())
    ensures m == Sig(B.p) <= |X.p|
    ensures |X.p| == Max(Allocated(X, old(X.p), A, old(A.p)), m)
    ensures forall k :: 0 <= k < |X.p| ==> X.p[k] == if k < old(|A.p|) then old(A.p)[k] else 0
  {
    Copy(X, A);
    var j := TopLimb(B);
    m := j + 1;
    Grow(X, m);
  }

  /** Limbs X has once A has been copied into it. */
  function Allocated(X: Mpi, x: seq<limb>, A: Mpi, a: seq<limb>): nat {
    if X == A then |x| else Max(|x|, Max(1, Sig(a)))
  }

  /** The carry out of the low m limbs is decided by those limbs alone. */
  lemma PrefixCarry(x: seq<limb>, y: seq<limb>, add: nat, m: nat, c: nat)
    requires m <= |x| == |y| && c <= 1 && x[m..] == y[m..]
    requires c == 0 ==> Val(y) == Val(x) + add
    requires c == 1 ==> Val(y) + Wp(m) == Val(x) + add
    ensures c == 1 <==> Val(x[..m]) + add >= Wp(m)
  {
    ValSplit(x, m);
    ValSplit(y, m);
    ValBound(y[..m]);
  }

  /** The limbs after a carry of one at position m has been through lines 611-620. */
  function CarryInto(x: seq<limb>, m: nat): seq<limb>
    requires m <= |x|
  {
    WBound();
    if m == |x| then x + [1]
    else if x[m] != W - 1 then x[m := x[m] + 1]
    else if m + 1 == |x| then x[m := 0] + [1]
    else x[m := 1]
  }

  ghost predicate Sticks(x: seq<limb>, m: nat) {
    m + 1 < |x| && x[m] == W - 1
  }

  lemma WrapLimb(x: seq<limb>, m: nat, v: limb)
    requires m < |x| && x[m] == W - 1
    ensures Val(x[m := v]) == Val(x) + v * Wp(m) + Wp(m) - Wp(m + 1)
  {
    ValBump(x, m, v, v + 1 - W);
    WpStep(m);
    Distribute(v + 1, W, Wp(m));
    Distribute(v, 1, Wp(m));
  }

  lemma CarryIntoValue(x: seq<limb>, m: nat)
    requires m <= |x|
    ensures Val(CarryInto(x, m)) == Val(x) + (if Sticks(x, m) then 2 * Wp(m) - Wp(m + 1) else Wp(m))
  {
    hide Val, Pow;
    WBound();
    if m == |x| {
      ValAppend(x, 1);
    } else if x[m] != W - 1 {
      assert CarryInto(x, m) == x[m := x[m] + 1];
      ValBump(x, m, x[m] + 1, 1);
    } else if m + 1 == |x| {
      WrapLimb(x, m, 0);
      ValAppend(x[m := 0], 1);
    } else {
      WrapLimb(x, m, 1);
    }
  }

  /** A new limb is only appended to hold a one. */
  lemma CarryIntoLength(x: seq<limb>, m: nat)
    requires m <= |x|
    ensures |CarryInto(x, m)| <= Max(|x|, Sig(CarryInto(x, m)))
  {
    WBound();
    var y := CarryInto(x, m);
    if |y| > |x| {
      SigUnique(y, |y|);
    }
  }

  /** One pass of lines 613-619, with the pointer at limb q0 unless X has to grow. */
  method PutCarry(X: Mpi, i: nat, q0: nat) returns (q: nat, c: limb)
    requires X.Ready() && i <= |X.p| && (i < |X.p| ==> q0 < |X.p|)
    modifies X
    ensures X.Ready() && X.s == old(X.s) && c <= 1
    ensures i == old(|X.p|) ==> q == i && c == 0 && X.p == old(X.p) + [1]
    ensures i < old(|X.p|) ==> q == q0 && X.p == old(X.p)[q0 := AddW(old(X.p)[q0], 1)]
    ensures i < old(|X.p|) ==> (c == 1 <==> old(X.p)[q0] == W - 1)
  {
    hide Sig, Val, Pow, Wp;
    WBound();
    ghost var was := X.p;
    q, c := q0, 1;
    if i >= |X.p| {
      Grow(X, i + 1);
      assert X.p == was + [0];
      q := i;
    }
    var d := AddW(X.p[q], c);
    c := Flag(d < c);
    X.p := X.p[q := d];
  }

  /** The loop at lines 611-620: the limb pointer q moves only when X grows. */
  method CarryTail(X: Mpi, m: nat, carry: limb)
    requires X.Ready() && m <= |X.p| && carry <= 1
    modifies X
    ensures X.Ready() && X.s == old(X.s)
    ensures X.p == if carry == 0 then old(X.p) else CarryInto(old(X.p), m)
    ensures old(|X.p|) <= |X.p| <= Max(old(|X.p|), Sig(X.p))
  {
    CarryIntoLength(X.p, m);
    hide Sig, Val, Pow, Wp;
    WBound();
    ghost var x := X.p;
    var c, i, q := carry, m, m;
    while c != 0
      invariant X.Ready() && X.s == old(X.s) && c <= 1 && m <= i <= m + 2 && m <= q && (c == 1 ==> q == m)
      invariant i == m ==> c == carry && X.p == x
      invariant i == m + 1 ==> m < |X.p| && carry == 1 &&
                               (c == 1 ==> m < |x| && x[m] == W - 1 && X.p == x[m := 0])
      invariant i > m && c == 0 ==> carry == 1 && X.p == CarryInto(x, m)
      invariant i == m + 2 ==> c == 0
      decreases m + 2 - i
    {
      q, c := PutCarry(X, i, q);
      i := i + 1;
    }
  }

  /** The limbs of the sum are exact but for StickLoss. */
  lemma AddAbsValue(a: seq<limb>, b: seq<limb>, x: seq<limb>, y: seq<limb>, m: nat, c: nat)
    requires m == Sig(b) <= |x| == |y| && c <= 1 && y[m..] == x[m..]
    requires Val(x) == Val(a) && forall k :: 0 <= k < |x| ==> x[k] == if k < |a| then a[k] else 0
    requires c == 0 ==> Val(y) == Val(x) + Val(b)
    requires c == 1 ==> Val(y) + Wp(m) == Val(x) + Val(b)
    ensures Val(if c == 0 then y else CarryInto(y, m)) == Val(a) + Val(b) - StickLoss(|x|, a, b)
  {
    PrefixCarry(x, y, Val(b), m, c);
    if c == 1 {
      CarryIntoValue(y, m);
    }
    if m < |x| {
      assert y[m] == y[m..][0] == x[m];
      WBound();
      if m < |a| {
        assert x[..m] == a[..m];
      }
    }
  }

  /** The sum X, A0, B0 make in mpi_add_abs: limbs X has, limbs kept, limbs added. */
  ghost function AddCase(X: Mpi, A0: Mpi, B0: Mpi): (nat, seq<limb>, seq<limb>)
    reads X, A0, B0
  {
    var (a, b) := if X == B0 then (B0.p, A0.p) else (A0.p, B0.p);
    (Max(if X == A0 || X == B0 then |X.p| else Max(|X.p|, Max(1, Sig(a))), Sig(b)), a, b)
  }

  // ---- a number added to itself in place ----

  /** Every limb doubled, what leaves it dropped. */
  function Doubled(s: seq<limb>): (t: seq<limb>)
    ensures |t| == |s|
  {
    seq(|s|, i requires 0 <= i < |s| => AddW(s[i], s[i]))
  }

  /** What is dropped. */
  function Dropped(s: seq<limb>): (l: nat)
    decreases |s|
  {
    if s == [] then 0
    else Dropped(s[..|s| - 1]) + if 2 * s[|s| - 1] >= W then Wp(|s|) else 0
  }

  lemma DoubledLimb(x: limb, p: nat)
    ensures AddW(x, x) * p + (if 2 * x >= W then W * p else 0) == 2 * (x * p)
  {
    hide Pow;
    Distribute(x, x, p);
    Distribute(x + x, W, p);
  }

  lemma {:induction false} DoubledValue(s: seq<limb>)
    ensures Val(Doubled(s)) + Dropped(s) == 2 * Val(s)
    decreases |s|
  {
    if s != [] {
      var n := |s| - 1;
      DoubledValue(s[..n]);
      assert Doubled(s)[..n] == Doubled(s[..n]) && Doubled(s)[n] == AddW(s[n], s[n]);
      hide Val, Pow, Wp, Doubled;
      assert s[..n + 1] == s && Doubled(s)[..n + 1] == Doubled(s);
      ValPrefixStep(s, n);
      ValPrefixStep(Doubled(s), n);
      WpStep(n);
      DoubledLimb(s[n], Wp(n));
    }
  }

  lemma {:induction false} NothingDropped(s: seq<limb>)
    ensures Dropped(s) == 0 <==> forall i :: 0 <= i < |s| ==> 2 * s[i] < W
    decreases |s|
  {
    hide Pow;
    if s != [] {
      var n := |s| - 1;
      NothingDropped(s[..n]);
      WpPositive(|s|);
      assert s == s[..n] + [s[n]];
    }
  }

  lemma WpPositive(k: nat)
    ensures Wp(k) > 0
  {}

  lemma DoubledBelow(x: seq<limb>, y: seq<limb>, m: nat)
    requires |x| == |y| && m <= |x| && forall k :: m <= k < |x| ==> x[k] == y[k] == 0
    requires forall k :: 0 <= k < m ==> y[k] == AddW(x[k], x[k])
    ensures y == Doubled(x)
  {
    WBound();
  }

  /**
   * Lines 605-609 when o and p run through the same limbs: each is doubled, and
   * the comparison that should find the carry compares it with itself.
   */
  method AddSelf(X: Mpi)
    requires X.Ready()
    modifies X
    ensures X.Ready() && X.s == old(X.s) && X.p == Doubled(old(X.p))
  {
    hide Val, Pow, Sig, Doubled;
    WBound();
    var j := TopLimb(X);
    ghost var x := X.p;
    var i: nat, c: limb := 0, 0;
    while i <= j
      invariant i <= j + 1 && |x| == |X.p| && X.s == old(X.s) && c == 0
      invariant forall k :: 0 <= k < i ==> X.p[k] == AddW(x[k], x[k])
      invariant forall k :: i <= k < |x| ==> X.p[k] == x[k]
    {
      var d := AddW(X.p[i], c);
      c := Flag(d < c);
      d := AddW(d, d);
      c := c + Flag(d < d);
      X.p := X.p[i := d];
      i := i + 1;
    }
    DoubledBelow(x, X.p, i);
  }

  // ---- mpi_add_abs ----

  /** Whether something is lost: a carry that sticks or, when all are one object, a limb that overflows. */
  ghost predicate AddSticks(X: Mpi, A0: Mpi, B0: Mpi)
    reads X, A0, B0
  {
    if X == A0 && X == B0 then exists i :: 0 <= i < |X.p| && 2 * X.p[i] >= W
    else
      var (n, a, b) := AddCase(X, A0, B0);
      CarrySticks(n, a, b)
  }

  ghost function AddLoss(X: Mpi, A0: Mpi, B0: Mpi): int
    reads X, A0, B0
  {
    if X == A0 && X == B0 then Dropped(X.p)
    else
      var (n, a, b) := AddCase(X, A0, B0);
      StickLoss(n, a, b)
  }

  /** Where no limb is all ones nothing sticks. */
  lemma NoFullLimb(X: Mpi, A: Mpi, B: Mpi)
    requires (X != A || X != B) && (forall i :: 0 <= i < |A.p| ==> A.p[i] != W - 1)
    requires forall i :: 0 <= i < |B.p| ==> B.p[i] != W - 1
    ensures !AddSticks(X, A, B)
  {
    hide Val, Pow, Sig, Wp;
  }

  /**
   * mpi_add_abs as it is written. The sum is exact if and only if the carry
   * does not stick and, when a number is added to itself in place, no limb of
   * it overflows; when one does, the result is short by AddLoss.
   */
  method AddAbs(X: Mpi, A0: Mpi, B0: Mpi)
    requires X.Valid() && A0.Ready() && B0.Ready()
    modifies X
    ensures X.Ready() && X.s == old(if X == B0 then B0.s else A0.s) && |X.p| >= old(|X.p|)
    ensures X.Abs() == old(A0.Abs() + B0.Abs() - AddLoss(X, A0, B0))
    ensures X.Abs() == old(A0.Abs() + B0.Abs()) <==> !old(AddSticks(X, A0, B0))
    ensures |X.p| == Max(old(AddCase(X, A0, B0).0), Sig(X.p))
  {
    hide Val, Pow, Sig, StickLoss, CarrySticks, CarryInto, Doubled, Dropped;
    if X == A0 && X == B0 {
      DoubledValue(X.p);
      NothingDropped(X.p);
      SigVal(X.p);
      AddSelf(X);
      SigVal(X.p);
    } else {
      AddApart(X, A0, B0);
    }
  }

  /** The same when not all three are one object. */
  method AddApart(X: Mpi, A0: Mpi, B0: Mpi)
    requires X.Valid() && A0.Ready() && B0.Ready() && !(X == A0 && X == B0)
    modifies X
    ensures X.Ready() && X.s == old(if X == B0 then B0.s else A0.s) && |X.p| >= old(|X.p|)
    ensures X.Abs() == old(A0.Abs() + B0.Abs() - AddLoss(X, A0, B0))
    ensures X.Abs() == old(A0.Abs() + B0.Abs()) <==> !old(AddSticks(X, A0, B0))
    ensures |X.p| == Max(old(AddCase(X, A0, B0).0), Sig(X.p))
  {
    hide Val, Pow, Wp, Sig, StickLoss, CarrySticks, CarryInto, Dropped;
    var A, B := A0, B0;
    if X == B {
      A, B := B, A;
    }
    ghost var a, b := A.p, B.p;
    ghost var n := AddCase(X, A0, B0).0;
    var m := CopyFor(X, A, B);
    assert |X.p| == n;
    AddInto(X, B, m, a);
    StickLossPositive(n, a, b);
  }

  /** Lines 603-620, for X a copy of limbs a. */
  method AddInto(X: Mpi, B: Mpi, m: nat, ghost a: seq<limb>)
    requires X != B && X.Ready() && m == Sig(B.p) <= |X.p| && X.Abs() == Val(a)
    requires forall k :: 0 <= k < |X.p| ==> X.p[k] == if k < |a| then a[k] else 0
    modifies X
    ensures X.Ready() && X.s == old(X.s) && X.Abs() == Val(a) + Val(B.p) - StickLoss(old(|X.p|), a, B.p)
    ensures |X.p| == Max(old(|X.p|), Sig(X.p))
  {
    hide Val, Pow, Wp, Sig, StickLoss, CarryInto;
    ghost var x := X.p;
    var c := AddLimbs(X, B, m);
    ghost var y := X.p;
    CarryTail(X, m, c);
    SigVal(B.p);
    AddAbsValue(a, B.p, x, y, m, c);
  }

  /** Lines 611-620 with the limb pointer stepped along with i. */
  method CarryTailStepped(X: Mpi, m: nat, carry: limb)
    requires X.Ready() && m <= |X.p| && carry <= 1
    modifies X
    ensures X.Ready() && X.s == old(X.s)
    ensures X.Abs() == old(X.Abs()) + (if carry == 1 then Wp(m) else 0)
  {
    hide Val, Pow, Sig;
    WBound();
    var c, i := carry, m;
    while c != 0
      invariant X.Ready() && X.s == old(X.s) && c <= 1 && m <= i <= |X.p|
      invariant X.Abs() + (if c == 1 then Wp(i) else 0) == old(X.Abs()) + if carry == 1 then Wp(m) else 0
      decreases |X.p| - i + 2 * c
    {
      if i >= |X.p| {
        Grow(X, i + 1);
      }
      var d := AddW(X.p[i], c);
      ghost var x := X.p;
      c := Flag(d < c);
      X.p := X.p[i := d];
      if c == 1 {
        WrapLimb(x, i, 0);
      } else {
        ValBump(x, i, d, 1);
      }
      i := i + 1;
    }
  }

  /** mpi_add_abs as it is meant: the sum is always exact. */
  method AddAbsStepped(X: Mpi, A0: Mpi, B0: Mpi)
    requires X.Valid() && A0.Ready() && B0.Ready() && !(X == A0 && X == B0)
    modifies X
    ensures X.Ready() && X.Abs() == old(A0.Abs() + B0.Abs())
  {
    hide Val, Pow, Sig;
    var A, B := A0, B0;
    if X == B {
      A, B := B, A;
    }
    SigVal(B.p);
    var m := CopyFor(X, A, B);
    var c := AddLimbs(X, B, m);
    CarryTailStepped(X, m, c);
  }

  // ---- |A| - |B| ----

  lemma SubDigit(d: limb, s: limb, c: limb)
    requires c <= 1
    ensures var z := Flag(d < c); var d1 := SubW(d, c); var c' := Flag(d1 < s) + z; var d2 := SubW(d1, s);
            c' <= 1 && d2 - c' * W == d - c - s
  {
    WBound();
  }

  lemma SubStep(x: seq<limb>, i: nat, o: nat, c: nat, d: limb, c': nat)
    requires i < |x| && d - c' * W == x[i] - c - o
    ensures Val(x[i := d]) - c' * Wp(i + 1) == Val(x) - c * Wp(i) - o * Wp(i)
  {
    hide Val, Pow;
    ValStore(x, i, d);
    WpStep(i);
    BorrowStep(x[i], d, c, c', o, Wp(i));
  }

  /**
   * mpi_sub_hlp: subtracts S's low n limbs from all of D. When the difference
   * is not negative the borrow is absorbed inside D.
   */
  method SubHlp(n: nat, S: Mpi, D: Mpi)
    requires S != D && n <= |S.p| && n <= |D.p|
    requires D.Abs() >= Val(S.p[..n])
    modifies D
    ensures D.s == old(D.s) && |D.p| == old(|D.p|)
    ensures D.Abs() == old(D.Abs()) - Val(S.p[..n])
  {
    var c := SubLimbs(n, S, D);
    BorrowTail(n, D, c);
  }

  /** Lines 635-639. */
  method SubLimbs(n: nat, S: Mpi, D: Mpi) returns (c: limb)
    requires S != D && n <= |S.p| && n <= |D.p|
    modifies D
    ensures D.s == old(D.s) && |D.p| == old(|D.p|) && c <= 1
    ensures D.Abs() - c * Wp(n) == old(D.Abs()) - Val(S.p[..n])
  {
    hide Val, Pow;
    WBound();
    ValZeros(S.p[..0]);
    c := 0;
    var i := 0;
    while i < n
      invariant 0 <= i <= n && c <= 1
      invariant D.s == old(D.s) && |D.p| == old(|D.p|)
      invariant D.Abs() - c * Wp(i) == old(D.Abs()) - Val(S.p[..i])
    {
      var z := Flag(D.p[i] < c);
      var d := SubW(D.p[i], c);
      var c' := Flag(d < S.p[i]) + z;
      d := SubW(d, S.p[i]);
      SubDigit(D.p[i], S.p[i], c);
      SubStep(D.p, i, S.p[i], c, d, c');
      ValPrefixStep(S.p, i);
      D.p := D.p[i := d];
      c := c';
      i := i + 1;
    }
  }

  lemma BorrowLimb(x: seq<limb>, i: nat)
    requires i < |x|
    ensures if x[i] < 1 then Val(x[i := W - 1]) - Wp(i + 1) == Val(x) - Wp(i)
            else Val(x[i := x[i] - 1]) == Val(x) - Wp(i)
  {
    hide Val, Pow;
    WBound();
    if x[i] < 1 {
      ValBump(x, i, W - 1, W - 1);
      WpStep(i);
      Distribute(W, 1, Wp(i));
    } else {
      ValBump(x, i, x[i] - 1, -1);
    }
  }

  /** Lines 641-645: a pending borrow is always absorbed before D ends. */
  method BorrowTail(n: nat, D: Mpi, borrow: limb)
    requires n <= |D.p| && borrow <= 1 && (borrow == 1 ==> D.Abs() >= Wp(n))
    modifies D
    ensures D.s == old(D.s) && |D.p| == old(|D.p|)
    ensures D.Abs() == old(D.Abs()) - if borrow == 1 then Wp(n) else 0
  {
    hide Val, Pow;
    WBound();
    var c, i := borrow, n;
    while c != 0
      invariant D.s == old(D.s) && |D.p| == old(|D.p|) && c <= 1 && n <= i <= |D.p|
      invariant D.Abs() - (if c == 1 then Wp(i) else 0) == old(D.Abs()) - if borrow == 1 then Wp(n) else 0
      decreases |D.p| - i + 2 * c
    {
      ValBound(D.p);
      WpMono(i, |D.p|);
      BorrowLimb(D.p, i);
      var z := Flag(D.p[i] < c);
      var d := SubW(D.p[i], c);
      D.p := D.p[i := d];
      c := z;
      i := i + 1;
    }
  }

  const ERR_MPI_NEGATIVE_VALUE := 0x0008

  /** mpi_sub_abs: X = |A| - |B|, for every aliasing of the three arguments. */
  method SubAbs(X: Mpi, A: Mpi, B0: Mpi) returns (ret: int)
    requires X.Valid() && A.Ready() && B0.Ready()
    modifies X
    ensures ret == if old(A.Abs() < B0.Abs()) then ERR_MPI_NEGATIVE_VALUE else 0
    ensures ret == 0 ==> X.Ready() && X.s == old(A.s) && X.Abs() == old(A.Abs() - B0.Abs())
    ensures ret == 0 && X == A ==> |X.p| == old(|X.p|)
    ensures ret == 0 && X != A ==> |X.p| == Max(old(|X.p|), Max(1, old(Sig(A.p))))
    ensures ret != 0 ==> X.Valid() && X.p == old(X.p) && X.s == old(X.s)
  {
    hide Val, Pow, Sig;
    var B := B0;
    var r := CmpAbs(A, B);
    if r < 0 {
      return ERR_MPI_NEGATIVE_VALUE;
    }
    if X == B {
      var TB := new Mpi();
      Copy(TB, B);
      B := TB;
    }
    SigVal(B.p);
    ghost var b := B.p;
    if X != A {
      Copy(X, A);
    }
    var n := TopLimb(B);
    ValBound(X.p);
    SigOfVal(b, |X.p|);
    SubHlp(n + 1, B, X);
    ret := 0;
  }

  // ---- signed addition and subtraction ----

  lemma SignedSum(sa: int, a: nat, sb: int, b: nat)
    requires (sa == 1 || sa == -1) && (sb == 1 || sb == -1)
    ensures sa == sb ==> sa * (a + b) == sa * a + sb * b
    ensures sa != sb ==> sa * (a - b) == sa * a + sb * b && -sa * (b - a) == sa * a + sb * b
    ensures (sa * sb < 0 <==> sa != sb) && (sa * sb > 0 <==> sa == sb)
  {}

  /** Limbs X has once it holds the difference of two magnitudes. */
  ghost function DifferenceLimbs(X: Mpi, A: Mpi, B: Mpi): nat
    reads X, A, B
  {
    var big := if A.Abs() >= B.Abs() then A else B;
    if X == big then |X.p| else Max(|X.p|, Max(1, Sig(big.p)))
  }

  /**
   * mpi_add_mpi as it is written: exact whenever the signs differ, and
   * otherwise exactly when the carry does not stick.
   */
  method AddMpi(X: Mpi, A: Mpi, B: Mpi)
    requires X.Valid() && A.Ready() && B.Ready()
    modifies X
    ensures X.Ready() && |X.p| >= old(|X.p|)
    ensures X.Value() == old(A.Value() + B.Value() - if A.s == B.s then A.s * AddLoss(X, A, B) else 0)
    ensures old(A.s != B.s || !AddSticks(X, A, B)) ==> X.Value() == old(A.Value() + B.Value())
    ensures X.s == old(if A.s == B.s || A.Abs() >= B.Abs() then A.s else -A.s)
    ensures old(A.s) == old(B.s) ==> |X.p| == Max(old(AddCase(X, A, B).0), Sig(X.p))
    ensures old(A.s) != old(B.s) ==> |X.p| == old(DifferenceLimbs(X, A, B))
  {
    hide Val, Pow, Sig, AddLoss, AddSticks, AddCase;
    var s := A.s;
    ghost var a, b := A.Abs(), B.Abs();
    SignedSum(A.s, a, B.s, b);
    if A.s * B.s < 0 {
      var r := CmpAbs(A, B);
      if r >= 0 {
        r := SubAbs(X, A, B);
        X.s := s;
      } else {
        r := SubAbs(X, B, A);
        X.s := -s;
      }
    } else {
      AddAbs(X, A, B);
      X.s := s;
    }
  }

  /** mpi_sub_mpi as it is written. */
  method SubMpi(X: Mpi, A: Mpi, B: Mpi)
    requires X.Valid() && A.Ready() && B.Ready()
    modifies X
    ensures X.Ready() && |X.p| >= old(|X.p|)
    ensures X.Value() == old(A.Value() - B.Value() - if A.s != B.s then A.s * AddLoss(X, A, B) else 0)
    ensures old(A.s == B.s || !AddSticks(X, A, B)) ==> X.Value() == old(A.Value() - B.Value())
    ensures X.s == old(if A.s != B.s || A.Abs() >= B.Abs() then A.s else -A.s)
    ensures old(A.s) != old(B.s) ==> |X.p| == Max(old(AddCase(X, A, B).0), Sig(X.p))
    ensures old(A.s) == old(B.s) ==> |X.p| == old(DifferenceLimbs(X, A, B))
  {
    hide Val, Pow, Sig, AddLoss, AddSticks, AddCase;
    var s := A.s;
    SignedSum(A.s, A.Abs(), -B.s, B.Abs());
    SignedSum(A.s, A.Abs(), B.s, B.Abs());
    if A.s * B.s > 0 {
      var r := CmpAbs(A, B);
      if r >= 0 {
        r := SubAbs(X, A, B);
        X.s := s;
      } else {
        r := SubAbs(X, B, A);
        X.s := -s;
      }
    } else {
      AddAbs(X, A, B);
      X.s := s;
    }
  }

  /** mpi_add_mpi over the stepped carry loop: exact for all signs. */
  method AddMpiStepped(X: Mpi, A: Mpi, B: Mpi)
    requires X.Valid() && A.Ready() && B.Ready() && !(X == A && X == B)
    modifies X
    ensures X.Ready() && X.Value() == old(A.Value() + B.Value())
    ensures X.s == old(if A.s == B.s || A.Abs() >= B.Abs() then A.s else -A.s)
  {
    hide Val, Pow, Sig;
    SignedSum(A.s, A.Abs(), B.s, B.Abs());
    if A.s * B.s < 0 {
      AddMpi(X, A, B);
    } else {
      var s := A.s;
      AddAbsStepped(X, A, B);
      X.s := s;
    }
  }

  method SubMpiStepped(X: Mpi, A: Mpi, B: Mpi)
    requires X.Valid() && A.Ready() && B.Ready()
    modifies X
    ensures X.Ready() && X.Value() == old(A.Value() - B.Value())
    ensures X.s == old(if A.s != B.s || A.Abs() >= B.Abs() then A.s else -A.s)
  {
    hide Val, Pow, Sig;
    SignedSum(A.s, A.Abs(), -B.s, B.Abs());
    SignedSum(A.s, A.Abs(), B.s, B.Abs());
    if A.s * B.s > 0 {
      SubMpi(X, A, B);
    } else {
      var s := A.s;
      AddAbsStepped(X, A, B);
      X.s := s;
    }
  }

  /** Limbs X has for the sum of |A| and one limb. */
  function IntCase(same: bool, x: seq<limb>, a: seq<limb>, b: limb): nat {
    Max(if same then |x| else Max(|x|, Max(1, Sig(a))), Sig([b]))
  }

  /** What a stuck carry costs when a small integer is added to A. */
  ghost function IntLoss(X: Mpi, A: Mpi, b: int): int
    requires OneLimb(b)
    reads X, A
  {
    if A.s != (if b < 0 then -1 else 1) then 0
    else A.s * StickLoss(IntCase(X == A, X.p, A.p, SizeOf(b)), A.p, [SizeOf(b)])
  }

  function SizeOf(b: int): limb
    requires OneLimb(b)
  {
    if b < 0 then -b else b
  }

  lemma OneLimbSig(b: seq<limb>)
    requires |b| == 1
    ensures Sig(b) <= 1
  {
  }

  lemma IntLossOf(X: Mpi, A: Mpi, B: Mpi, b: int)
    requires OneLimb(b) && B != X && B != A && B.Ready() && |B.p| == 1
    requires B.p[0] == SizeOf(b) && B.s == (if b < 0 then -1 else 1)
    ensures IntLoss(X, A, b) == if A.s == B.s then A.s * AddLoss(X, A, B) else 0
    ensures AddCase(X, A, B).0 == IntCase(X == A, X.p, A.p, SizeOf(b))
  {
    hide StickLoss;
    assert B.p == [SizeOf(b)];
  }

  /** mpi_add_int: exact but for a stuck carry, and the limbs X then has. */
  method AddInt(X: Mpi, A: Mpi, b: int)
    requires X.Valid() && A.Ready() && OneLimb(b)
    modifies X
    ensures X.Ready() && old(|X.p|) <= |X.p|
    ensures X.Value() == old(A.Value()) + b - old(IntLoss(X, A, b))
    ensures X.s == old(if A.s == (if b < 0 then -1 else 1) || A.Abs() >= SizeOf(b) then A.s else -A.s)
    ensures old(A.s) == (if b < 0 then -1 else 1) ==>
      |X.p| == Max(IntCase(X == A, old(X.p), old(A.p), SizeOf(b)), Sig(X.p))
    ensures old(A.s) != (if b < 0 then -1 else 1) && old(A.Abs()) == 0 ==> |X.p| <= Max(old(|X.p|), 1)
  {
    hide Val, Pow, Sig, StickLoss, AddLoss, AddCase, AddSticks, IntLoss, IntCase;
    var B := FromInt(b);
    SigVal(A.p);
    OneLimbSig(B.p);
    IntLossOf(X, A, B, b);
    AddMpi(X, A, B);
  }

  /** mpi_sub_int: the same for the difference. */
  method SubInt(X: Mpi, A: Mpi, b: int)
    requires X.Valid() && A.Ready() && OneLimb(b)
    modifies X
    ensures X.Ready() && old(|X.p|) <= |X.p|
    ensures old(A.s) == (if b < 0 then -1 else 1) ==> X.Value() == old(A.Value()) - b
    ensures old(A.s) != (if b < 0 then -1 else 1) ==>
      X.Value() == old(A.Value()) - b
                   - old(A.s) * StickLoss(IntCase(X == A, old(X.p), old(A.p), SizeOf(b)), old(A.p), [SizeOf(b)])
  {
    hide Val, Pow, Sig, StickLoss, AddSticks, IntLoss, IntCase;
    var B := FromInt(b);
    assert B.p == [SizeOf(b)];
    SubLossOf(X, A, B, b);
    hide AddLoss, AddCase;
    SubMpi(X, A, B);
  }

  lemma SubLossOf(X: Mpi, A: Mpi, B: Mpi, b: int)
    requires OneLimb(b) && B != X && B != A && B.p == [SizeOf(b)]
    ensures AddLoss(X, A, B) == StickLoss(IntCase(X == A, X.p, A.p, SizeOf(b)), A.p, [SizeOf(b)])
  {
    hide StickLoss, Sig;
    assert AddCase(X, A, B).0 == IntCase(X == A, X.p, A.p, SizeOf(b));
    assert AddCase(X, A, B).1 == A.p && AddCase(X, A, B).2 == B.p;
  }

  /**
   * A sum that mpi_add_abs gets wrong, in any limb width: W*W - 1 + W*W*W
   * (limbs all ones, all ones, zero, one of four) plus one.
   */
  lemma StickingSum(n: nat)
    requires n >= 3
    ensures CarrySticks(n, [W - 1, W - 1, 0, 1], [1])
  {
    WBound();
    var a: seq<limb>, b: seq<limb> := [W - 1, W - 1, 0, 1], [1];
    SigUnique(b, 1);
    ValSplitFirst(a[..1]);
    ValSplitFirst(b);
    assert a[..1][1..] == [] && b[1..] == [];
    WpStep(0);
  }
}
