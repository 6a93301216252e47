/**
 * The mpi structure and its storage operations and comparisons
 * (src/bootloader/myboot/bignum.c, lines 42-160 and 502-579).
 *
 * An mpi owns a growable limb array; here it is one object whose array is the
 * sequence field p, so the C field n is |p|. Allocation always succeeds.
 */
module Mpis {
  import opened Arith
  import opened Limbs

  class Mpi {
    var s: int        // sign
    var p: seq<limb>  // limbs, least significant first

    /** As mpi_init leaves it, or holding a signed limb string. */
    ghost predicate Valid()
      reads this
    {
      (s == 0 && p == []) || Ready()
    }

    /** Holds a number: at least one limb and a sign. Zero may have sign -1. */
    ghost predicate Ready()
      reads this
    {
      (s == 1 || s == -1) && |p| >= 1
    }

    ghost function Abs(): nat
      reads this
    {
      Val(p)
    }

    ghost function Value(): int
      reads this
    {
      s * Val(p)
    }

    constructor ()
      ensures Valid() && s == 0 && p == []
    {
      s, p := 0, [];
    }
  }

  function Max(a: int, b: int): int {
    if a < b then b else a
  }

  /** |z| fits one limb. */
  predicate OneLimb(z: int) {
    z < W && z + W > 0
  }

  function Sign(x: int): int {
    if x < 0 then -1 else if x == 0 then 0 else 1
  }

  lemma ZerosBehind(s: seq<limb>, t: seq<limb>)
    requires s <= t && forall k :: |s| <= k < |t| ==> t[k] == 0
    ensures Val(t) == Val(s) && Sig(t) == Sig(s)
  {
    hide Val, Pow;
    ValZeroTail(t, |s|);
    assert t[..|s|] == s;
    SigUnique(t, Sig(s));
  }

  method Grow(X: Mpi, nblimbs: int)
    requires X.Valid()
    modifies X
    ensures X.Valid() && X.Value() == old(X.Value()) && X.Abs() == old(X.Abs())
    ensures |X.p| == Max(old(|X.p|), nblimbs)
    ensures old(X.Ready()) ==> X.s == old(X.s)
    ensures nblimbs >= 1 ==> X.Ready()
    ensures old(X.p) <= X.p && forall k :: old(|X.p|) <= k < |X.p| ==> X.p[k] == 0
    ensures Sig(X.p) == Sig(old(X.p))
  {
    hide Sig, Pow;
    var n := |X.p|;
    if n < nblimbs {
      if X.s == 0 {
        X.s := 1;
      }
      X.p := X.p + Zeros(nblimbs - n);
      ZerosBehind(old(X.p), X.p);
    }
  }

  /** Lines 117-121: the limbs worth copying, at least one. */
  method UsedLimbs(Y: Mpi) returns (i: nat)
    requires Y.Ready()
    ensures i == Max(1, Sig(Y.p)) && i <= |Y.p| && forall k :: i <= k < |Y.p| ==> Y.p[k] == 0
  {
    i := |Y.p| - 1;
    while i > 0
      invariant 0 <= i < |Y.p|
      invariant forall k :: i < k < |Y.p| ==> Y.p[k] == 0
    {
      if Y.p[i] != 0 {
        break;
      }
      i := i - 1;
    }
    i := i + 1;
  }

  /** Limb strings that agree but for zeros behind. */
  lemma SameLimbs(x: seq<limb>, y: seq<limb>, i: nat)
    requires i <= |x| && i <= |y| && x[..i] == y[..i]
    requires (forall k :: i <= k < |x| ==> x[k] == 0) && (forall k :: i <= k < |y| ==> y[k] == 0)
    ensures Val(x) == Val(y) && Sig(x) == Sig(y)
    ensures forall k :: 0 <= k < |x| ==> x[k] == if k < |y| then y[k] else 0
  {
    hide Val, Pow, Sig;
    ZerosBehind(x[..i], x);
    ZerosBehind(y[..i], y);
    forall k | 0 <= k < |x| ensures x[k] == if k < |y| then y[k] else 0 {
      if k < i {
        assert x[k] == x[..i][k] && y[k] == y[..i][k];
      }
    }
  }

  method Copy(X: Mpi, Y: Mpi)
    requires X.Valid() && Y.Ready()
    modifies X
    ensures X.Ready() && X.s == old(Y.s) && X.Abs() == old(Y.Abs()) && X.Value() == old(Y.Value())
    ensures X == Y ==> X.p == old(X.p)
    ensures X != Y ==> |X.p| == Max(old(|X.p|), Max(1, Sig(Y.p)))
    ensures forall k :: 0 <= k < |X.p| ==> X.p[k] == if k < old(|Y.p|) then old(Y.p)[k] else 0
    ensures Sig(X.p) == Sig(old(Y.p))
  {
    hide Val, Pow, Sig;
    if X == Y {
      return;
    }
    var i := UsedLimbs(Y);
    X.s := Y.s;
    if |X.p| < i {
      X.p := X.p + Zeros(i - |X.p|);
    }
    X.p := Y.p[..i] + Zeros(|X.p| - i);
    SameLimbs(X.p, Y.p, i);
  }

  /** mpi_lset: the machine integer z as an mpi; zero is positive. */
  method Lset(X: Mpi, z: int)
    requires X.Valid() && OneLimb(z)
    modifies X
    ensures X.Ready() && X.Value() == z && X.s == (if z < 0 then -1 else 1)
    ensures X.Abs() == if z < 0 then -z else z
    ensures |X.p| == Max(old(|X.p|), 1)
    ensures X.p[0] == (if z < 0 then -z else z) && forall k :: 1 <= k < |X.p| ==> X.p[k] == 0
  {
    hide Sig, Val, Pow, Wp;
    Grow(X, 1);
    X.p := Zeros(|X.p|);
    var a: limb := if z < 0 then -z else z;
    ValZeros(X.p);
    ValStore(X.p, 0, a);
    WpStep(0);
    X.p := X.p[0 := a];
    X.s := if z < 0 then -1 else 1;
  }

  /** A one-limb mpi on the stack, as the _int entry points build it. */
  method FromInt(z: int) returns (Y: Mpi)
    requires OneLimb(z)
    ensures fresh(Y) && Y.Ready() && Y.Value() == z && Y.s == (if z < 0 then -1 else 1)
    ensures |Y.p| == 1 && Y.p[0] == (if z < 0 then -z else z)
    ensures Y.Abs() == if z < 0 then -z else z
  {
    Y := new Mpi();
    Lset(Y, z);
  }

  /** Index of the highest nonzero limb, -1 when there is none. */
  method TopLimb(X: Mpi) returns (i: int)
    ensures i == Sig(X.p) - 1
  {
    i := |X.p| - 1;
    while i >= 0
      invariant -1 <= i < |X.p|
      invariant forall k :: i < k < |X.p| ==> X.p[k] == 0
    {
      if X.p[i] != 0 {
        break;
      }
      i := i - 1;
    }
    SigUnique(X.p, i + 1);
  }

  // ---- comparison ----

  /** The limbs of x and y above position i agree. */
  predicate SameFrom(x: seq<limb>, y: seq<limb>, i: nat)
    requires i <= |x| && i <= |y|
  {
    |x| == |y| && forall k :: i <= k < |x| ==> x[k] == y[k]
  }

  lemma {:induction false} FirstDifference(x: seq<limb>, y: seq<limb>, i: nat)
    requires i < |x| == |y| && SameFrom(x, y, i + 1) && x[i] < y[i]
    ensures Val(x) < Val(y)
  {
    ValSplit(x, i + 1);
    ValSplit(y, i + 1);
    assert x[i + 1..] == y[i + 1..];
    ValPrefixStep(x, i);
    ValPrefixStep(y, i);
    ValBound(x[..i]);
    DigitBound(Val(x[..i]), x[i], y[i], Wp(i));
  }

  lemma SigOrder(x: seq<limb>, y: seq<limb>)
    requires Sig(x) < Sig(y)
    ensures Val(x) < Val(y)
  {
    SigVal(x);
    SigVal(y);
    WpMono(Sig(x), Sig(y) - 1);
  }

  /** Limb strings with m significant limbs compare as their low m limbs. */
  method CmpLimbs(X: Mpi, Y: Mpi, m: nat) returns (r: int)
    requires Sig(X.p) == Sig(Y.p) == m
    ensures r == Sign(Val(X.p) - Val(Y.p))
  {
    SigVal(X.p);
    SigVal(Y.p);
    var i := m - 1;
    ghost var x, y := X.p[..m], Y.p[..m];
    while i >= 0
      invariant -1 <= i < m && SameFrom(x, y, i + 1)
    {
      if X.p[i] > Y.p[i] {
        FirstDifference(y, x, i);
        return 1;
      }
      if X.p[i] < Y.p[i] {
        FirstDifference(x, y, i);
        return -1;
      }
      i := i - 1;
    }
    assert x == y;
    return 0;
  }

  method CmpAbs(X: Mpi, Y: Mpi) returns (r: int)
    ensures r == Sign(X.Abs() - Y.Abs())
  {
    var i := TopLimb(X);
    var j := TopLimb(Y);
    SigVal(X.p);
    SigVal(Y.p);
    if i < 0 && j < 0 {
      return 0;
    }
    if i > j {
      SigOrder(Y.p, X.p);
      return 1;
    }
    if j > i {
      SigOrder(X.p, Y.p);
      return -1;
    }
    r := CmpLimbs(X, Y, i + 1);
  }

  /**
   * The one case in which mpi_cmp_mpi does not look at Y's sign: Y has more
   * significant limbs than X, and the signs differ.
   */
  ghost predicate CmpBlind(X: Mpi, Y: Mpi)
    reads X, Y
  {
    Sig(X.p) < Sig(Y.p) && X.s != Y.s
  }

  /** mpi_cmp_mpi decides the integer order exactly outside CmpBlind. */
  method CmpMpi(X: Mpi, Y: Mpi) returns (r: int)
    requires X.Ready() && Y.Ready()
    ensures r == if Sig(X.p) < Sig(Y.p) && X.s != Y.s then -X.s else Sign(X.Value() - Y.Value())
    ensures r == Sign(X.Value() - Y.Value()) <==> !(Sig(X.p) < Sig(Y.p) && X.s != Y.s)
  {
    var i := TopLimb(X);
    var j := TopLimb(Y);
    SigVal(X.p);
    SigVal(Y.p);
    if i < 0 && j < 0 {
      return 0;
    }
    if i > j {
      SigOrder(Y.p, X.p);
      return X.s;
    }
    if j > i {
      SigOrder(X.p, Y.p);
      return -X.s;
    }
    if X.s > 0 && Y.s < 0 {
      return 1;
    }
    if Y.s > 0 && X.s < 0 {
      return -1;
    }
    var c := CmpLimbs(X, Y, i + 1);
    return if c > 0 then X.s else if c < 0 then -X.s else 0;
  }

  method CmpInt(X: Mpi, z: int) returns (r: int)
    requires X.Ready() && OneLimb(z)
    ensures r == if X.Abs() == 0 && z != 0 && (X.s < 0) != (z < 0) then -X.s else Sign(X.Value() - z)
  {
    var Y := FromInt(z);
    SigVal(X.p);
    r := CmpMpi(X, Y);
  }
}
