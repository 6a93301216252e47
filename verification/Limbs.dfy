/**
 * Little-endian limb strings: the value a limb array stands for, and what
 * storing one limb, appending, cutting and leading zeros do to that value.
 *
 * The limb width is a parameter of the whole development: biL is some one of
 * the widths the library's headers allow, and nothing below looks at which.
 */
module Limbs {
  import opened Arith

  type LimbWidth = b: nat | b == 16 || b == 32 || b == 64 witness 32

  /** Bits in a limb. */
  const biL: LimbWidth

  /** The base of the number system: one more than the largest limb. */
  const W: nat := Pow(2, biL)

  type limb = x: nat | x < W witness 0

  lemma {:induction false} WBound()
    ensures W >= 65536
  {
    PowMono(2, 16, biL);
    PowAdd(2, 8, 8);
    assert Pow(2, 8) == 256;
  }

  lemma WEven()
    ensures W == 2 * Pow(2, biL - 1)
  {}

  /** The weight of position k. */
  function Wp(k: nat): (r: nat)
    ensures r > 0
  {
    Pow(W, k)
  }

  lemma WpStep(k: nat)
    ensures Wp(k + 1) == W * Wp(k) && Wp(0) == 1
  {}

  lemma WpAdd(i: nat, j: nat)
    ensures Wp(i + j) == Wp(i) * Wp(j)
  {
    PowAdd(W, i, j);
  }

  lemma WpMono(i: nat, j: nat)
    requires i <= j
    ensures Wp(i) <= Wp(j)
  {
    PowMono(W, i, j);
  }

  /** Every base-W weight is a power of two. */
  lemma WpPow2(k: nat)
    ensures Wp(k) == Pow(2, biL * k)
  {
    PowPow(2, biL, k);
  }

  // ---- the value of a limb string ----

  function Val(s: seq<limb>): (r: nat)
    decreases |s|
  {
    if |s| == 0 then 0 else
      MulNonneg(s[|s| - 1], Wp(|s| - 1));
      Val(s[..|s| - 1]) + s[|s| - 1] * Wp(|s| - 1)
  }

  lemma ValPrefixStep(s: seq<limb>, i: nat)
    requires i < |s|
    ensures Val(s[..i + 1]) == Val(s[..i]) + s[i] * Wp(i)
  {
    assert s[..i + 1][..i] == s[..i];
  }

  lemma {:induction false} ValBound(s: seq<limb>)
    ensures Val(s) < Wp(|s|)
    decreases |s|
  {
    if |s| > 0 {
      var i := |s| - 1;
      ValBound(s[..i]);
      WpStep(i);
      DigitBound(Val(s[..i]), s[i], W, Wp(i));
    }
  }

  lemma {:induction false} ValConcat(a: seq<limb>, b: seq<limb>)
    ensures Val(a + b) == Val(a) + Wp(|a|) * Val(b)
    decreases |b|
  {
    if |b| == 0 {
      assert a + b == a;
    } else {
      var i := |b| - 1;
      assert (a + b)[..|a + b| - 1] == a + b[..i];
      ValConcat(a, b[..i]);
      WpAdd(|a|, i);
      Associate(b[i], Wp(|a|), Wp(i));
      Distribute(Val(b[..i]), b[i] * Wp(i), Wp(|a|));
    }
  }

  lemma ValSplit(s: seq<limb>, i: nat)
    requires i <= |s|
    ensures Val(s) == Val(s[..i]) + Wp(i) * Val(s[i..])
  {
    assert s == s[..i] + s[i..];
    ValConcat(s[..i], s[i..]);
  }

  lemma {:induction false} ValSplitFirst(s: seq<limb>)
    requires |s| > 0
    ensures Val(s) == s[0] + W * Val(s[1..])
  {
    ValSplit(s, 1);
    assert s[..1] == [s[0]];
    assert Val(s[..1]) == s[0] by {
      ValPrefixStep(s[..1], 0);
      assert s[..1][..1] == s[..1];
      assert s[..1][..0] == [];
    }
    assert Wp(1) == W by { WpStep(0); }
  }

  /** Storing one limb moves the value by the change times the weight. */
  lemma {:induction false} ValStore(s: seq<limb>, i: nat, v: limb)
    requires i < |s|
    ensures Val(s[i := v]) == Val(s) + (v - s[i]) * Wp(i)
    decreases |s|
  {
    var m := |s| - 1;
    if i == m {
      assert s[i := v][..m] == s[..m];
      Distribute(v, s[i], Wp(i));
    } else {
      assert s[i := v][..m] == s[..m][i := v];
      ValStore(s[..m], i, v);
    }
  }

  lemma ValBump(s: seq<limb>, i: nat, v: limb, delta: int)
    requires i < |s| && v == s[i] + delta
    ensures Val(s[i := v]) == Val(s) + delta * Wp(i)
  {
    ValStore(s, i, v);
  }

  lemma ValAppend(s: seq<limb>, v: limb)
    ensures Val(s + [v]) == Val(s) + v * Wp(|s|)
  {
    assert (s + [v])[..|s|] == s;
  }

  function Zeros(n: nat): (s: seq<limb>)
    ensures |s| == n && forall i :: 0 <= i < n ==> s[i] == 0
  {
    seq(n, i => 0)
  }

  predicate AllZero(s: seq<limb>) {
    forall i :: 0 <= i < |s| ==> s[i] == 0
  }

  lemma {:induction false} ValZeros(s: seq<limb>)
    ensures Val(s) == 0 <==> AllZero(s)
    decreases |s|
  {
    if |s| > 0 {
      var i := |s| - 1;
      ValZeros(s[..i]);
      assert forall k :: 0 <= k < i ==> s[..i][k] == s[k];
      if s[i] != 0 {
        MulLe(1, s[i], Wp(i));
      }
    }
  }

  lemma ValZeroTail(s: seq<limb>, i: nat)
    requires i <= |s| && forall k :: i <= k < |s| ==> s[k] == 0
    ensures Val(s) == Val(s[..i])
  {
    ValSplit(s, i);
    ValZeros(s[i..]);
  }

  /** A value below Wp(i) leaves every limb from position i up at zero. */
  lemma ValSmallTail(s: seq<limb>, i: nat)
    requires i <= |s| && Val(s) < Wp(i)
    ensures forall k :: i <= k < |s| ==> s[k] == 0
    ensures Val(s) == Val(s[..i])
  {
    ValSplit(s, i);
    if Val(s[i..]) > 0 {
      MulLe(1, Val(s[i..]), Wp(i));
    }
    ValZeros(s[i..]);
    forall k | i <= k < |s| ensures s[k] == 0 {
      assert s[k] == s[i..][k - i];
    }
  }

  // ---- significant limbs ----

  /** The number of limbs up to and including the highest nonzero one. */
  function Sig(s: seq<limb>): (r: nat)
    ensures r <= |s|
    ensures r > 0 ==> s[r - 1] != 0
    ensures forall k :: r <= k < |s| ==> s[k] == 0
    decreases |s|
  {
    if |s| == 0 then 0
    else if s[|s| - 1] != 0 then |s|
    else Sig(s[..|s| - 1])
  }

  lemma SigUnique(s: seq<limb>, r: nat)
    requires r <= |s| && (r > 0 ==> s[r - 1] != 0)
    requires forall k :: r <= k < |s| ==> s[k] == 0
    ensures r == Sig(s)
  {
  }

  /** The significant limbs carry the value and pin down its magnitude. */
  lemma SigVal(s: seq<limb>)
    ensures Val(s) == Val(s[..Sig(s)]) < Wp(Sig(s))
    ensures Sig(s) > 0 ==> Wp(Sig(s) - 1) <= Val(s)
    ensures Sig(s) == 0 <==> Val(s) == 0
  {
    var r := Sig(s);
    ValZeroTail(s, r);
    ValBound(s[..r]);
    if r > 0 {
      ValPrefixStep(s, r - 1);
      MulLe(1, s[r - 1], Wp(r - 1));
    }
  }

  /** The number of significant limbs depends on the value only. */
  lemma SigOfVal(s: seq<limb>, k: nat)
    ensures Val(s) < Wp(k) <==> Sig(s) <= k
  {
    SigVal(s);
    if Sig(s) <= k {
      WpMono(Sig(s), k);
    } else {
      WpMono(k, Sig(s) - 1);
    }
  }
}
