/**
 * Schoolbook multiplication (src/bootloader/myboot/bignum.c, lines 781-915).
 * One MULADDC_CORE step is (c, *d) := *s * b + *d + c; the unrolled groups of
 * such steps are the one loop below.
 */
module Mul {
  import opened Arith
  import opened Limbs
  import opened Mpis
  import opened AddSub

  /** A limb product plus two limbs fits two limbs. */
  lemma MulAddBound(s: limb, b: limb, d: limb, c: limb)
    ensures s * b + d + c < W * W
  {
    MulLe2(s, W - 1, b);
    MulLe2(b, W - 1, W - 1);
    Distribute(W, 1, W - 1);
    Distribute(W, 1, W);
  }

  lemma SplitDouble(t: nat)
    requires t < W * W
    ensures t / W < W && t % W < W && t % W + (t / W) * W == t
  {
    hide Pow;
    DivBelow(t, W, W);
    DivMod(t, W);
  }

  /** MULADDC_CORE: the low and the high limb of s * b + d + c. */
  method MulAdd(s: limb, b: limb, d: limb, c: limb) returns (lo: limb, hi: limb)
    ensures lo + hi * W == d + c + s * b
  {
    hide Pow;
    MulAddBound(s, b, d, c);
    var t := s * b + d + c;
    SplitDouble(t);
    lo, hi := t % W, t / W;
  }

  /** One step at offset off + i of the destination. */
  lemma MulStep(x: seq<limb>, off: nat, i: nat, s: limb, b: limb, c: nat, d: limb, c': nat)
    requires off + i < |x| && d + c' * W == x[off + i] + c + s * b
    ensures Val(x[off + i := d]) + c' * Wp(off + i + 1) == Val(x) + c * Wp(off + i) + (b * (s * Wp(i))) * Wp(off)
  {
    hide Val, Pow, Wp;
    AddStep(x, off + i, s * b, c, d, c');
    WpAdd(i, off);
    Associate(s * b, Wp(i), Wp(off));
    Associate(b, s, Wp(i));
    assert (s * b) * Wp(i) == b * (s * Wp(i));
  }

  /**
   * mpi_mul_hlp: D += b * (S's low i limbs) * W^off, where S != D and the sum
   * fits D. The closing do-while absorbs the carry inside D.
   */
  method MulHlp(i0: nat, S: Mpi, D: Mpi, off: nat, b: limb)
    requires S != D && i0 <= |S.p| && off + i0 < |D.p|
    requires D.Abs() + (b * Val(S.p[..i0])) * Wp(off) < Wp(|D.p|)
    modifies D
    ensures D.s == old(D.s) && |D.p| == old(|D.p|)
    ensures D.Abs() == old(D.Abs()) + (b * Val(S.p[..i0])) * Wp(off)
    ensures D.p[..off] == old(D.p)[..off]
  {
    var c := MulLimbs(i0, S, D, off, b);
    AddTail(D, off, off + i0, c);
  }

  method MulLimbs(n: nat, S: Mpi, D: Mpi, off: nat, b: limb) returns (c: limb)
    requires S != D && n <= |S.p| && off + n < |D.p|
    modifies D
    ensures D.s == old(D.s) && |D.p| == old(|D.p|) && D.p[..off] == old(D.p)[..off]
    ensures D.Abs() + c * Wp(off + n) == old(D.Abs()) + (b * Val(S.p[..n])) * Wp(off)
  {
    hide Val, Pow, Wp;
    c := 0;
    ValZeros(S.p[..0]);
    var i := 0;
    while i < n
      invariant 0 <= i <= n
      invariant D.s == old(D.s) && |D.p| == old(|D.p|) && D.p[..off] == old(D.p)[..off]
      invariant D.Abs() + c * Wp(off + i) == old(D.Abs()) + (b * Val(S.p[..i])) * Wp(off)
    {
      var d, c' := MulAdd(S.p[i], b, D.p[off + i], c);
      MulStep(D.p, off, i, S.p[i], b, c, d, c');
      ValPrefixStep(S.p, i);
      Distribute(Val(S.p[..i]), S.p[i] * Wp(i), b);
      Distribute(b * Val(S.p[..i]), b * (S.p[i] * Wp(i)), Wp(off));
      D.p := D.p[off + i := d];
      c := c';
      i := i + 1;
    }
  }

  lemma AddLimbAt(x: seq<limb>, i: nat, c: limb)
    requires i < |x|
    ensures var d := AddW(x[i], c);
            Val(x[i := d]) + (if d < c then Wp(i + 1) else 0) == Val(x) + c * Wp(i)
  {
    hide Val, Pow, Wp;
    var d := AddW(x[i], c);
    ValBump(x, i, d, d - x[i]);
    if d < c {
      WpStep(i);
      Distribute(c, W, Wp(i));
    }
  }

  /** Lines 860-863: add the carry at position i and let it run. */
  method AddTail(D: Mpi, off: nat, i0: nat, carry: limb)
    requires off <= i0 < |D.p| && D.Abs() + carry * Wp(i0) < Wp(|D.p|)
    modifies D
    ensures D.s == old(D.s) && |D.p| == old(|D.p|) && D.p[..off] == old(D.p)[..off]
    ensures D.Abs() == old(D.Abs()) + carry * Wp(i0)
  {
    hide Val, Pow, Wp;
    WBound();
    var i := i0;
    AddLimbAt(D.p, i, carry);
    var d := AddW(D.p[i], carry);
    var c := Flag(d < carry);
    D.p := D.p[i := d];
    i := i + 1;
    while c != 0
      invariant D.s == old(D.s) && |D.p| == old(|D.p|) && D.p[..off] == old(D.p)[..off]
      invariant c <= 1 && i0 < i <= |D.p|
      invariant D.Abs() + (if c == 1 then Wp(i) else 0) == old(D.Abs()) + carry * Wp(i0)
      decreases |D.p| - i + 2 * c
    {
      AddLimbAt(D.p, i, c);
      d := AddW(D.p[i], c);
      c := Flag(d < c);
      D.p := D.p[i := d];
      i := i + 1;
    }
  }

  /** Multiplying by the limbs from j up, one limb at a time from the top. */
  lemma MulRow(a: nat, b: seq<limb>, j: nat)
    requires j < |b|
    ensures (b[j] * a) * Wp(j) + a * (Val(b) - Val(b[..j + 1])) == a * (Val(b) - Val(b[..j]))
  {
    hide Val, Pow, Wp;
    ValPrefixStep(b, j);
    var v := Val(b[..j]);
    Distribute(Val(b) - v, b[j] * Wp(j), a);
    Associate(a, b[j], Wp(j));
    assert (b[j] * a) * Wp(j) == a * (b[j] * Wp(j));
  }

  /** A partial row still fits the limbs reserved for the product. */
  lemma RowFits(a: nat, b: nat, cut: nat, i: nat, j: nat, n: nat)
    requires a < Wp(i) && b < Wp(j) && cut <= b && i + j <= n
    ensures a * (b - cut) < Wp(n)
  {
    hide Val, Pow, Wp;
    MulLe2(b - cut, b, a);
    WpAdd(i, j);
    WpMono(i + j, n);
    if a > 0 {
      MulLt(b, Wp(j), a);
      MulLt(a, Wp(i), Wp(j));
    }
  }

  lemma SignedProduct(sa: int, a: int, sb: int, b: int)
    requires (sa == 1 || sa == -1) && (sb == 1 || sb == -1)
    ensures (if sa == sb then 1 else -1) * (a * b) == (sa * a) * (sb * b)
    ensures sa * sb == if sa == sb then 1 else -1
  {
    assert (-a) * b == -(a * b) && a * (-b) == -(a * b) && (-a) * (-b) == a * b;
  }

  /** Lines 879-893, into a destination apart from both factors. */
  method MulApart(X: Mpi, A: Mpi, B: Mpi)
    requires X.Valid() && A.Ready() && B.Ready() && X !in {A, B}
    modifies X
    ensures X.Ready() && X.Abs() == A.Abs() * B.Abs() && X.s == A.s * B.s
    ensures |X.p| == Max(old(|X.p|), Max(1, Sig(A.p) + Sig(B.p)))
  {
    hide Val, Pow, Wp, Sig;
    SignedProduct(A.s, A.Abs(), B.s, B.Abs());
    WBound();
    var i := TopLimb(A);
    var j := TopLimb(B);
    Grow(X, i + j + 2);
    Lset(X, 0);
    MulRows(X, A, B, i + 1, j);
    X.s := A.s * B.s;
  }

  /** Lines 876-877: a factor that is also the result is copied first. */
  method Separate(X: Mpi, A0: Mpi) returns (A: Mpi)
    requires A0.Ready()
    ensures A != X && A.Ready() && A.s == A0.s && A.Abs() == A0.Abs() && Sig(A.p) == Sig(A0.p)
    ensures A == A0 || fresh(A)
  {
    hide Val, Sig;
    A := A0;
    if X == A0 {
      A := new Mpi();
      Copy(A, A0);
    }
  }

  /** mpi_mul_mpi: the exact signed product, for every aliasing. */
  method MulMpi(X: Mpi, A0: Mpi, B0: Mpi)
    requires X.Valid() && A0.Ready() && B0.Ready()
    modifies X
    ensures X.Ready() && X.Value() == old(A0.Value() * B0.Value())
    ensures X.Abs() == old(A0.Abs() * B0.Abs()) && X.s == old(A0.s * B0.s)
    ensures |X.p| == Max(old(|X.p|), Max(1, Sig(old(A0.p)) + Sig(old(B0.p))))
  {
    hide Val, Pow, Wp, Sig;
    SignedProduct(A0.s, A0.Abs(), B0.s, B0.Abs());
    var A := Separate(X, A0);
    var B := Separate(X, B0);
    MulApart(X, A, B);
  }

  /** Lines 890-891. */
  method MulRows(X: Mpi, A: Mpi, B: Mpi, i: nat, j0: int)
    requires X != A && X != B && X.Ready() && X.Abs() == 0
    requires i == Sig(A.p) && j0 == Sig(B.p) - 1 && i + j0 + 1 <= |X.p|
    modifies X
    ensures X.Ready() && |X.p| == old(|X.p|) && X.Abs() == A.Abs() * B.Abs()
  {
    hide Val, Pow, Wp, Sig;
    var j := j0;
    SigVal(A.p);
    SigVal(B.p);
    ghost var a, b := A.Abs(), B.Abs();
    while j >= 0
      invariant -1 <= j <= j0 && X.Ready() && |X.p| == old(|X.p|)
      invariant X.Abs() == a * (b - Val(B.p[..j + 1]))
    {
      MulRow(a, B.p, j);
      ValSplit(B.p, j);
      RowFits(a, b, Val(B.p[..j]), i, j0 + 1, |X.p|);
      MulHlp(i, A, X, j, B.p[j]);
      j := j - 1;
    }
    ValZeros(B.p[..0]);
  }

  method MulInt(X: Mpi, A: Mpi, b: limb)
    requires X.Valid() && A.Ready()
    modifies X
    ensures X.Ready() && X.s == old(A.s) && X.Abs() == old(A.Abs()) * b && X.Value() == old(A.Value()) * b
    ensures |X.p| >= old(|X.p|)
  {
    hide Val, Pow, Wp, Sig;
    var B := FromInt(b);
    MulMpi(X, A, B);
  }
}
