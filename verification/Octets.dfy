/**
 * Conversion between byte strings and numbers (src/bootloader/myboot/bignum.c,
 * lines 330-378; sections 4.1 and 4.2 of RFC 8017).
 */
module Octets {
  import opened Arith
  import opened Bits
  import opened Limbs
  import opened Mpis
  import opened Shift
  import opened Exponentiation

  type byte = b: nat | b < 256

  /** The number a big-endian byte string stands for. */
  function BytesVal(s: seq<byte>): nat {
    if |s| == 0 then 0 else s[0] * Pow2(8 * (|s| - 1)) + BytesVal(s[1..])
  }

  lemma Pow2Byte(k: nat)
    ensures Pow2(8 * (k + 1)) == 256 * Pow2(8 * k) && Pow2(8) == 256
  {
    Pow2Add(8 * k, 8);
    PowAdd(2, 4, 4);
    assert Pow(2, 4) == 16;
  }

  lemma {:induction false} BytesBound(s: seq<byte>)
    ensures BytesVal(s) < Pow2(8 * |s|)
  {
    hide Pow, Pow2;
    if |s| > 0 {
      BytesBound(s[1..]);
      Pow2Byte(|s| - 1);
      DigitBound(BytesVal(s[1..]), s[0], 256, Pow2(8 * (|s| - 1)));
    } else {
      Pow2Zero();
    }
  }

  /** Big-endian: an octet behind the others makes room for itself by a factor of 256. */
  lemma {:induction false} BytesAppend(s: seq<byte>, b: byte)
    ensures BytesVal([]) == 0 && BytesVal(s + [b]) == 256 * BytesVal(s) + b
    decreases |s|
  {
    hide Pow, Pow2;
    var t := s + [b];
    if |s| == 0 {
      assert t[1..] == [] && t[0] == b;
      Pow2Zero();
    } else {
      assert t[1..] == s[1..] + [b];
      BytesAppend(s[1..], b);
      Pow2Byte(|s| - 1);
      Associate(s[0], 256, Pow2(8 * (|s| - 1)));
    }
  }

  /** Byte strings of one length are determined by their value. */
  lemma {:induction false} BytesInjective(a: seq<byte>, b: seq<byte>)
    requires |a| == |b| && BytesVal(a) == BytesVal(b)
    ensures a == b
    decreases |a|
  {
    hide Pow, Pow2;
    if |a| > 0 {
      var w := Pow2(8 * (|a| - 1));
      BytesBound(a[1..]);
      BytesBound(b[1..]);
      DivModUnique(BytesVal(a), a[0], BytesVal(a[1..]), w);
      DivModUnique(BytesVal(b), b[0], BytesVal(b[1..]), w);
      BytesInjective(a[1..], b[1..]);
      assert a == [a[0]] + a[1..] && b == [b[0]] + b[1..];
    }
  }

  lemma {:induction false} LeadingZeros(s: seq<byte>, n: nat)
    requires n <= |s| && forall k :: 0 <= k < n ==> s[k] == 0
    ensures BytesVal(s) == BytesVal(s[n..])
    decreases n
  {
    if n > 0 {
      LeadingZeros(s[1..], n - 1);
      assert s[1..][n - 1..] == s[n..];
    } else {
      assert s[0..] == s;
    }
  }

  /** A first byte of zero keeps the value below a number that needs them all. */
  lemma PaddedBelow(s: seq<byte>, n: nat, len: nat)
    requires |s| == len > 0 && s[0] == 0 && len == (BitLen(n) + 7) / 8
    ensures BytesVal(s) < n
  {
    hide Pow, Pow2, BitLen;
    BytesBound(s[1..]);
    BitLenZero(n);
    BitLenBounds(n);
    Pow2Mono(8 * (len - 1), BitLen(n) - 1);
  }

  lemma BitLenZero(n: nat)
    ensures BitLen(n) == 0 <==> n == 0
  {}

  // ---- positions ----

  /** Bytes per limb. */
  function ciL(): (c: nat)
    ensures c > 0 && 8 * c == biL
  {
    biL / 8
  }

  lemma BytePosition(j: nat)
    ensures var q, r := j / ciL(), j % ciL();
            j == q * ciL() + r && 0 <= r < ciL() && Pow2(8 * j) == Pow2(8 * r) * Wp(q) && 8 * r + 8 <= biL
  {
    hide Pow, Pow2, Wp;
    var q, r := j / ciL(), j % ciL();
    DivMod(j, ciL());
    Associate(q, 8, ciL());
    WpPow2Bits(q);
    assert 8 * (q * ciL()) == q * biL;
    Pow2Add(8 * r, biL * q);
  }

  lemma LimbsCover(j: nat, len: nat, n: nat)
    requires j < len && n * ciL() >= len
    ensures j / ciL() < n
  {
    DivMod(j, ciL());
    MulCancelLt(j / ciL(), n, ciL());
  }

  // ---- mpi_import ----

  /** The limb that takes byte j has only the bytes before it. */
  lemma LimbBelow(s: seq<limb>, q: nat, bound: nat)
    requires q < |s| && Val(s) < bound * Wp(q)
    ensures s[q] < bound
  {
    hide Val, Pow, Wp;
    ValSplit(s, q + 1);
    ValPrefixStep(s, q);
    MulLe2(0, Val(s[q + 1..]), Wp(q + 1));
    assert s[q] * Wp(q) < bound * Wp(q);
    MulCancelLt(s[q], bound, Wp(q));
  }

  /** X->p[j / ciL] |= (t_int) b << ((j % ciL) << 3). */
  method StoreByte(X: Mpi, j: nat, b: byte)
    requires X.Ready() && j / ciL() < |X.p| && X.Abs() < Pow2(8 * j)
    modifies X
    ensures X.Ready() && X.s == old(X.s) && |X.p| == old(|X.p|)
    ensures X.Abs() == old(X.Abs()) + b * Pow2(8 * j)
  {
    hide Val, Pow, Pow2, Wp, Or;
    BytePosition(j);
    var q, r := j / ciL(), j % ciL();
    var t := Pow2(8 * r);
    LimbBelow(X.p, q, t);
    OrShifted(b, 8 * r, X.p[q]);
    ByteInLimb(X.p[q], b, r);
    var v: limb := Or(X.p[q], b * t);
    ValBump(X.p, q, v, b * t);
    Associate(b, t, Wp(q));
    X.p := X.p[q := v];
  }

  lemma ByteInLimb(x: nat, b: byte, r: nat)
    requires x < Pow2(8 * r) && 8 * r + 8 <= biL
    ensures x + b * Pow2(8 * r) < W
  {
    hide Pow, Pow2;
    Pow2Byte(r);
    DigitBound(x, b, 256, Pow2(8 * r));
    Pow2Mono(8 * r + 8, biL);
    LimbBits(0);
    WIsPow2(biL);
    Pow2Zero();
  }

  method Import(X: Mpi, buf: array<byte>, buflen: nat)
    requires X.Valid() && buflen <= buf.Length
    modifies X
    ensures X.Ready() && X.s == 1 && X.Value() == X.Abs() == BytesVal(buf[..buflen])
  {
    hide Val, Pow, Pow2, Wp, BytesVal, Sig;
    WBound();
    var n := 0;
    while n < buflen
      invariant 0 <= n <= buflen && forall k :: 0 <= k < n ==> buf[k] == 0
    {
      if buf[n] != 0 {
        break;
      }
      n := n + 1;
    }
    LeadingZeros(buf[..buflen], n);
    var limbs := (buflen - n + ciL() - 1) / ciL();
    DivMod(buflen - n + ciL() - 1, ciL());
    Grow(X, limbs);
    Lset(X, 0);
    var i, j: nat := buflen - 1, 0;
    ghost var s := buf[..buflen];
    BytesEmpty(s[buflen..]);
    while i >= n
      invariant n - 1 <= i <= buflen - 1 && j == buflen - 1 - i
      invariant X.Ready() && X.s == 1 && |X.p| >= limbs
      invariant X.Abs() == BytesVal(s[i + 1..])
    {
      BytesBound(s[i + 1..]);
      BytesFirst(s[i..]);
      assert s[i..][1..] == s[i + 1..];
      LimbsCover(j, buflen - n, limbs);
      StoreByte(X, j, buf[i]);
      assert |s[i..]| - 1 == j && s[i..][0] == buf[i];
      i, j := i - 1, j + 1;
    }
  }

  lemma BytesEmpty(s: seq<byte>)
    requires |s| == 0
    ensures BytesVal(s) == 0
  {}

  lemma BytesFirst(s: seq<byte>)
    requires |s| > 0
    ensures BytesVal(s) == s[0] * Pow2(8 * (|s| - 1)) + BytesVal(s[1..])
  {}

  // ---- mpi_export ----

  lemma DivisibleByByte(x: nat, high: nat, r: nat)
    requires 8 * r + 8 <= biL
    ensures ((x + W * high) / Pow2(8 * r)) % 256 == (x / Pow2(8 * r)) % 256
  {
    hide Pow, Pow2;
    var p, h := Pow2(8 * r), Pow2(biL - 8 * r - 8);
    Pow2Byte(r);
    WIsPow2(8 * r + 8);
    Associate(h, 256, p);
    var k := high * h;
    Associate(high, h, 256 * p);
    assert W * high == k * (256 * p);
    ByteMultiple(x, k, p);
  }

  lemma ByteMultiple(x: nat, k: nat, p: nat)
    requires p > 0
    ensures ((x + k * (256 * p)) / p) % 256 == (x / p) % 256
  {
    DivMod(x, p);
    var q := x / p;
    Associate(k, 256, p);
    Distribute(q, k * 256, p);
    DivModUnique(x + k * (256 * p), q + k * 256, x % p, p);
    DivMod(q, 256);
    Distribute(q / 256, k, 256);
    DivModUnique(q + k * 256, q / 256 + k, q % 256, 256);
  }

  /** Byte j of the value is a byte of one limb. */
  lemma ByteOfVal(s: seq<limb>, j: nat)
    requires j / ciL() < |s|
    ensures (Val(s) / Pow2(8 * j)) % 256 == (s[j / ciL()] / Pow2(8 * (j % ciL()))) % 256
  {
    hide Val, Pow, Pow2, Wp;
    var q, r := j / ciL(), j % ciL();
    BytePosition(j);
    DropLimbs(s, s[q..], q);
    ValSplitFirst(s[q..]);
    DivisibleByByte(s[q], Val(s[q..][1..]), r);
    DivDiv(Val(s), Wp(q), Pow2(8 * r));
  }

  /** One more byte of x from below. */
  lemma ByteStep(x: nat, j: nat)
    ensures x % Pow2(8 * (j + 1)) == ((x / Pow2(8 * j)) % 256) * Pow2(8 * j) + x % Pow2(8 * j)
  {
    hide Pow, Pow2;
    Pow2Byte(j);
    var p := Pow2(8 * j);
    DivMod(x, p);
    var q := x / p;
    DivMod(q, 256);
    var d := q % 256;
    Distribute((q / 256) * 256, d, p);
    Associate(q / 256, 256, p);
    DigitBound(x % p, d, 256, p);
    DivModUnique(x, q / 256, d * p + x % p, 256 * p);
  }

  const ERR_MPI_BUFFER_TOO_SMALL := 0x0006

  /** The bytes a number needs. */
  function ByteLen(x: nat): nat {
    (BitLen(x) + 7) / 8
  }

  /** The least number of bytes that holds x. */
  lemma ByteLenFits(x: nat)
    ensures x < Pow2(8 * ByteLen(x))
    ensures forall n: nat :: x < Pow2(8 * n) ==> ByteLen(x) <= n
  {
    hide Pow, Pow2, BitLen;
    BitLenLe(x, 8 * ByteLen(x));
    forall n: nat | x < Pow2(8 * n)
      ensures ByteLen(x) <= n
    {
      BitLenLe(x, 8 * n);
    }
  }

  lemma ByteLenIs(x: nat, n: nat)
    ensures n < ByteLen(x) <==> x >= Pow2(8 * n)
  {
    hide Pow, Pow2, BitLen;
    ByteLenFits(x);
    Pow2Mono(8 * ByteLen(x), if n < ByteLen(x) then 8 * ByteLen(x) else 8 * n);
  }

  /**
   * mpi_export: the big-endian bytes of |X|, padded with zeros in front to
   * the length given; the length needed when that is too short.
   */
  method Export(X: Mpi, buf: array<byte>, buflen: nat) returns (ret: int, olen: nat)
    requires X.Ready() && buflen <= buf.Length
    modifies buf
    ensures ret == if X.Abs() >= Pow2(8 * buflen) then ERR_MPI_BUFFER_TOO_SMALL else 0
    ensures olen == if ret == 0 then buflen else ByteLen(X.Abs())
    ensures ret == 0 ==> BytesVal(buf[..buflen]) == X.Abs() && buf[buflen..] == old(buf[buflen..])
    ensures ret != 0 ==> buf[..] == old(buf[..])
  {
    hide Val, Pow, Pow2, Wp, BytesVal, BitLen, Sig;
    var size := Size(X);
    var n := (size + 7) / 8;
    olen := buflen;
    ByteLenFits(X.Abs());
    ByteLenIs(X.Abs(), buflen);
    if buflen < n {
      return ERR_MPI_BUFFER_TOO_SMALL, n;
    }
    ghost var x := X.Abs();
    ByteLenFits(x);
    SizeBound(X.p);
    Clear(buf, buflen);
    WriteBytes(X, buf, buflen, n);
    DivModUnique(x, 0, x, Pow2(8 * n));
    LeadingZeros(buf[..buflen], buflen - n);
    assert buf[..buflen][buflen - n..] == buf[buflen - n..buflen];
    return 0, buflen;
  }

  lemma SizeBound(s: seq<limb>)
    ensures ByteLen(Val(s)) <= |s| * ciL()
  {
    hide Val, Pow, Pow2, Wp, BitLen;
    ValBound(s);
    WpPow2Bits(|s|);
    ByteLenFits(Val(s));
    Associate(|s|, 8, ciL());
    assert 8 * (|s| * ciL()) == biL * |s|;
  }

  /** memset( buf, 0, n ). */
  method Clear(buf: array<byte>, n: nat)
    requires n <= buf.Length
    modifies buf
    ensures (forall k :: 0 <= k < n ==> buf[k] == 0) && buf[n..] == old(buf[n..])
  {
    var i := 0;
    while i < n
      invariant 0 <= i <= n && (forall k :: 0 <= k < i ==> buf[k] == 0) && buf[n..] == old(buf[n..])
    {
      buf[i] := 0;
      i := i + 1;
    }
  }

  /** Lines 372-373. */
  method WriteBytes(X: Mpi, buf: array<byte>, buflen: nat, n0: nat)
    requires n0 <= buflen <= buf.Length && n0 <= |X.p| * ciL()
    modifies buf
    ensures BytesVal(buf[buflen - n0..buflen]) == X.Abs() % Pow2(8 * n0)
    ensures forall k :: 0 <= k < buflen - n0 ==> buf[k] == old(buf[k])
    ensures buf[buflen..] == old(buf[buflen..])
  {
    hide Val, Pow, Pow2, Wp, BytesVal;
    var i, j, n := buflen - 1, 0, n0;
    ghost var x := X.Abs();
    BytesEmpty(buf[buflen..buflen]);
    Pow2Zero();
    DivModUnique(x, x, 0, 1);
    while n > 0
      invariant 0 <= n <= n0 && j == n0 - n && i == buflen - 1 - j
      invariant BytesVal(buf[i + 1..buflen]) == x % Pow2(8 * j)
      invariant forall k :: 0 <= k <= i ==> buf[k] == old(buf[k])
      invariant buf[buflen..] == old(buf[buflen..])
    {
      LimbsCover(j, n0, |X.p|);
      ByteOfVal(X.p, j);
      ByteStep(x, j);
      ghost var s := buf[i + 1..buflen];
      buf[i] := (X.p[j / ciL()] / Pow2(8 * (j % ciL()))) % 256;
      assert buf[i + 1..buflen] == s;
      BytesFirst(buf[i..buflen]);
      assert buf[i..buflen][1..] == buf[i + 1..buflen];
      i, j, n := i - 1, j + 1, n - 1;
    }
  }

  /** Exporting an imported string to its own length gives the bytes back. */
  lemma ImportExport(s: seq<byte>, t: seq<byte>, x: nat)
    requires x == BytesVal(s) && |t| == |s|
    ensures ByteLen(x) <= |s|
    ensures BytesVal(t) == x <==> t == s
  {
    hide Pow, Pow2, BytesVal, BitLen;
    BytesBound(s);
    ByteLenFits(x);
    if BytesVal(t) == x {
      BytesInjective(s, t);
    }
  }
}
