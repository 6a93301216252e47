/**
 * Montgomery arithmetic (src/bootloader/myboot/bignum.c, lines 1157-1224).
 */
module Montgomery {
  import opened Arith
  import opened Bits
  import opened Modular
  import opened Limbs
  import opened Mpis
  import opened AddSub
  import opened Mul

  // ---- mpi_montg_init ----

  /** x as an inverse of m modulo 2^k. */
  predicate InverseMod2(m: int, x: int, k: nat) {
    Cong(m * x, 1, Pow2(k))
  }

  /** One Newton step doubles the number of correct bits. */
  lemma Newton(m: int, x: int, y: int, k: nat)
    requires InverseMod2(m, x, k) && Cong(y, x * (2 - m * x), Pow2(2 * k))
    ensures InverseMod2(m, y, 2 * k)
  {
    hide Cong, Pow, Pow2;
    var e := CongElim(m * x, 1, Pow2(k));
    var s := e * Pow2(k);
    Pow2Add(k, k);
    CongRefl(m, Pow2(2 * k));
    CongMul(m, m, y, x * (2 - m * x), Pow2(2 * k));
    Associate(m, x, 2 - m * x);
    assert (1 + s) * (1 - s) == 1 - s * s by {
      Distribute(1, s, 1 - s);
      Distribute(1, s, s);
    }
    assert s * s == (e * e) * Pow2(2 * k) by {
      Associate(e * Pow2(k), e, Pow2(k));
      Associate(e, Pow2(k), e);
      Associate(e * e, Pow2(k), Pow2(k));
      assert (e * Pow2(k)) * e == (e * e) * Pow2(k);
    }
    CongIntro(1 - s * s, 1, Pow2(2 * k), -(e * e));
    CongTrans(m * y, 1 - s * s, 1, Pow2(2 * k));
  }

  /** The starting value of line 1164-1165 is right modulo 16. */
  lemma NewtonStart(m: int, x: int)
    requires m % 2 == 1 && Cong(x, m + StartOffset(m), 16)
    ensures InverseMod2(m, x, 4)
  {
    hide Cong, Pow;
    EightIs();
    var r := m % 16;
    var a := StartOffset(m);
    OddResidue(m);
    StartTable(r);
    CongMod(m, 16);
    CongSym(r, m, 16);
    CongRefl(a, 16);
    CongAdd(m, r, a, a, 16);
    CongTrans(x, m + a, r + a, 16);
    CongMul(m, r, x, r + a, 16);
    CongTrans(m * x, r * (r + a), 1, 16);
  }

  function StartOffset(m: int): int {
    if m % 8 == 3 || m % 8 == 5 then 8 else 0
  }

  lemma OddResidue(m: int)
    requires m % 2 == 1
    ensures m % 16 in {1, 3, 5, 7, 9, 11, 13, 15} && StartOffset(m % 16) == StartOffset(m)
  {
    var k, r := m / 16, m % 16;
    DivModUnique(m, 2 * k + r / 8, r % 8, 8);
    DivModUnique(r, m / 2 - 8 * k, 1, 2);
    OddBelow16(r);
  }

  lemma OddBelow16(r: int)
    requires 0 <= r < 16 && r % 2 == 1
    ensures r in {1, 3, 5, 7, 9, 11, 13, 15}
  {
    var h := r / 2;
    assert r == 2 * h + 1;
  }

  lemma StartTable(r: int)
    requires r in {1, 3, 5, 7, 9, 11, 13, 15}
    ensures Cong(r * (r + StartOffset(r)), 1, 16)
  {}

  /** The low limb of a product. */
  function MulW(x: limb, y: limb): limb {
    DivMod(x * y, W);
    (x * y) % W
  }

  lemma MulWCong(x: limb, y: limb)
    ensures Cong(MulW(x, y), x * y, W)
  {
    CongMod(x * y, W);
  }

  lemma AddWCong(x: limb, y: limb)
    ensures Cong(AddW(x, y), x + y, W)
  {
    hide Cong;
    CongRefl(x + y, W);
    if x + y >= W {
      CongIntro(x + y, x + y - W, W, 1);
      CongSym(x + y, x + y - W, W);
    }
  }

  lemma SubWCong(x: limb, y: limb)
    ensures Cong(SubW(x, y), x - y, W)
  {
    hide Cong;
    CongRefl(x - y, W);
    if x < y {
      CongIntro(x - y + W, x - y, W, 1);
    }
  }

  /** x *= (2 - (m0 * x)), in limb arithmetic. */
  function NewtonW(m: limb, x: limb): limb {
    WBound();
    MulW(x, SubW(2, MulW(m, x)))
  }

  lemma NewtonWStep(m: limb, x: limb, k: nat)
    requires 2 * k <= biL && InverseMod2(m, x, k)
    ensures InverseMod2(m, NewtonW(m, x), 2 * k)
  {
    hide Cong, Pow, Pow2, MulW, SubW, InverseMod2;
    WBound();
    var p: int := MulW(m, x);
    var z := SubW(2, MulW(m, x));
    var y := MulW(x, z);
    MulWCong(m, x);
    SubWCong(2, MulW(m, x));
    MulWCong(x, z);
    CongRefl(2, W);
    CongAdd(2, 2, p, m * x, W);
    CongTrans(z, 2 - p, 2 - m * x, W);
    CongRefl(x, W);
    CongMul(x, x, z, 2 - m * x, W);
    CongTrans(y, x * z, x * (2 - m * x), W);
    WFactor(2 * k);
    CongDivisor(y, x * (2 - m * x), Pow2(2 * k), Pow2(biL - 2 * k));
    Newton(m, x, y, k);
  }

  lemma WFactor(k: nat)
    requires k <= biL
    ensures W == Pow2(k) * Pow2(biL - k)
  {
    Pow2Add(k, biL - k);
  }

  /** ((m0 + 2) & 4) << 1. */
  function StartFix(m: limb): limb {
    WBound();
    8 * ((AddW(m, 2) / 4) % 2)
  }

  lemma StartFixIs(m: limb)
    requires m % 2 == 1
    ensures StartFix(m) == StartOffset(m)
  {
    hide Pow, Pow2;
    WBound();
    WFactor(3);
    EightIs();
    BitTwo(m, AddW(m, 2), Pow2(biL - 3));
  }

  lemma BitTwo(m: nat, t: nat, h: nat)
    requires m % 2 == 1 && (t == m + 2 || t == m + 2 - 8 * h)
    ensures 8 * ((t / 4) % 2) == StartOffset(m)
  {
    var k, r := m / 8, m % 8;
    DivModUnique(r, m / 2 - 4 * k, 1, 2);
    OddBelow16(r);
    BitTwoOf(t, if t == m + 2 then k else k - h, r);
  }

  lemma BitTwoOf(t: nat, j: int, r: int)
    requires t == 8 * j + (r + 2) && r in {1, 3, 5, 7}
    ensures 8 * ((t / 4) % 2) == if r == 3 || r == 5 then 8 else 0
  {
    assert t / 4 == 2 * j + if r == 1 then 0 else if r == 7 then 2 else 1;
  }

  lemma EightIs()
    ensures Pow2(3) == 8 && Pow2(4) == 16
  {}

  /** mpi_montg_init: minus the inverse of the modulus' low limb, modulo W. */
  method MontgInit(m0: limb) returns (mm: limb)
    requires m0 % 2 == 1
    ensures Cong(mm * m0, -1, W)
  {
    hide Cong, Pow, Pow2, InverseMod2, NewtonW, StartFix;
    WBound();
    StartFixIs(m0);
    var x := AddW(m0, StartFix(m0));
    AddWCong(m0, StartFix(m0));
    EightIs();
    WFactor(4);
    CongDivisor(x, m0 + StartFix(m0), 16, Pow2(biL - 4));
    NewtonStart(m0, x);
    NewtonWStep(m0, x, 4);
    x := NewtonW(m0, x);
    if biL >= 16 {
      NewtonWStep(m0, x, 8);
      x := NewtonW(m0, x);
    }
    if biL >= 32 {
      NewtonWStep(m0, x, 16);
      x := NewtonW(m0, x);
    }
    if biL >= 64 {
      NewtonWStep(m0, x, 32);
      x := NewtonW(m0, x);
    }
    mm := AddW(W - 1 - x, 1);
    NegatedInverse(m0, x, mm);
  }

  lemma NegatedInverse(m0: limb, x: limb, mm: limb)
    requires InverseMod2(m0, x, biL) && mm == if x == 0 then 0 else W - x
    ensures Cong(mm * m0, -1, W)
  {
    hide Cong, Pow;
    var k := CongElim(m0 * x, 1, W);
    if x == 0 {
      Distribute(0, k, W);
      CongIntro(mm * m0, -1, W, -k);
    } else {
      Distribute(W, x, m0);
      Distribute(m0, k, W);
      CongIntro(mm * m0, -1, W, m0 - k);
    }
  }

  // ---- mpi_montmul ----

  /** mpi_mul_hlp on D's limbs from off up, when the sum fits there. */
  method MulHlpAt(n: nat, S: Mpi, D: Mpi, off: nat, b: limb)
    requires S != D && n <= |S.p| && off + n < |D.p|
    requires Val(D.p[off..]) + b * Val(S.p[..n]) < Wp(|D.p| - off)
    modifies D
    ensures D.s == old(D.s) && |D.p| == old(|D.p|) && D.p[..off] == old(D.p)[..off]
    ensures Val(D.p[off..]) == Val(old(D.p)[off..]) + b * Val(S.p[..n])
  {
    hide Val, Pow, Wp;
    ghost var add, v := b * Val(S.p[..n]), Val(D.p[off..]);
    TailFits(D.p, off, add);
    ghost var d := D.p;
    MulHlp(n, S, D, off, b);
    TailOf(d, D.p, off, add);
  }

  lemma TailFits(d: seq<limb>, off: nat, add: nat)
    requires off <= |d| && Val(d[off..]) + add < Wp(|d| - off)
    ensures Val(d) + add * Wp(off) < Wp(|d|)
  {
    hide Val, Pow, Wp;
    ValSplit(d, off);
    ValBound(d[..off]);
    var v := Val(d[off..]);
    Distribute(v, add, Wp(off));
    WpAdd(|d| - off, off);
    DigitBound(Val(d[..off]), v + add, Wp(|d| - off), Wp(off));
  }

  lemma TailOf(d: seq<limb>, e: seq<limb>, off: nat, add: nat)
    requires off <= |d| == |e| && d[..off] == e[..off] && Val(e) == Val(d) + add * Wp(off)
    ensures Val(e[off..]) == Val(d[off..]) + add
  {
    hide Val, Pow, Wp;
    ValSplit(d, off);
    ValSplit(e, off);
    var v, w := Val(d[off..]), Val(e[off..]);
    Distribute(v, add, Wp(off));
    assert w * Wp(off) == (v + add) * Wp(off);
    if w < v + add {
      MulLt(w, v + add, Wp(off));
    } else if w > v + add {
      MulLt(v + add, w, Wp(off));
    }
  }

  /** u1 of line 1195 makes the low limb vanish. */
  function U1(d0: limb, u0: limb, b0: limb, mm: limb): limb {
    MulW(AddW(d0, MulW(u0, b0)), mm)
  }

  lemma U1Clears(d0: limb, u0: limb, b0: limb, mm: limb, n0: limb)
    requires Cong(mm * n0, -1, W)
    ensures (d0 + u0 * b0 + U1(d0, u0, b0, mm) * n0) % W == 0
  {
    hide Cong, Pow, MulW, AddW;
    var s: int := d0 + u0 * b0;
    var p, a := MulW(u0, b0), AddW(d0, MulW(u0, b0));
    var u1: int := U1(d0, u0, b0, mm);
    MulWCong(u0, b0);
    AddWCong(d0, p);
    CongRefl(d0, W);
    CongAdd(d0, d0, p, u0 * b0, W);
    CongTrans(a, d0 + p, s, W);
    MulWCong(a, mm);
    CongRefl(mm, W);
    CongMul(a, s, mm, mm, W);
    CongTrans(u1, a * mm, s * mm, W);
    CongRefl(n0, W);
    CongMul(u1, s * mm, n0, n0, W);
    CongRefl(s, W);
    CongMul(s, s, mm * n0, -1, W);
    Associate(s, mm, n0);
    CongTrans(u1 * n0, s * (mm * n0), -s, W);
    CongAdd(s, s, u1 * n0, -s, W);
    CongZero(s + u1 * n0, W);
  }

  lemma CongZero(a: int, n: int)
    requires n > 0 && Cong(a, 0, n)
    ensures a % n == 0
  {
    DivModUnique(0, 0, 0, n);
  }

  lemma LowLimbMod(s: seq<limb>)
    requires |s| > 0
    ensures Val(s) % W == s[0] && Val(s) / W == Val(s[1..])
  {
    hide Val, Pow, Wp;
    ValSplitFirst(s);
    DivModUnique(Val(s), Val(s[1..]), s[0], W);
  }

  lemma LowLimbCong(s: seq<limb>)
    requires |s| > 0
    ensures Cong(Val(s), s[0], W)
  {
    hide Val, Pow, Wp, Cong;
    ValSplitFirst(s);
    CongIntro(Val(s), s[0], W, Val(s[1..]));
  }

  /** The low limb of v + u0*b + u1*n vanishes when the low limbs say so. */
  lemma LowVanishes(v: seq<limb>, b: seq<limb>, n: seq<limb>, u0: limb, u1: limb)
    requires |v| > 0 && |b| > 0 && |n| > 0
    requires (v[0] + u0 * b[0] + u1 * n[0]) % W == 0
    ensures (Val(v) + u0 * Val(b) + u1 * Val(n)) % W == 0
  {
    hide Val, Pow, Wp, Cong;
    LowLimbCong(v);
    LowLimbCong(b);
    LowLimbCong(n);
    CongRefl(u0, W);
    CongRefl(u1, W);
    CongMul(u0, u0, Val(b), b[0], W);
    CongMul(u1, u1, Val(n), n[0], W);
    CongAdd(Val(v), v[0], u0 * Val(b), u0 * b[0], W);
    CongAdd(Val(v) + u0 * Val(b), v[0] + u0 * b[0], u1 * Val(n), u1 * n[0], W);
    SameRemainder(Val(v) + u0 * Val(b) + u1 * Val(n), v[0] + u0 * b[0] + u1 * n[0], W);
  }

  lemma SameRemainder(a: int, b: int, n: int)
    requires n > 0 && Cong(a, b, n)
    ensures a % n == b % n
  {}

  /** Each step keeps the accumulator below N + B. */
  lemma StepBound(v: nat, b: nat, n: nat, u0: limb, u1: limb, v': nat)
    requires v < n + b && v' * W == v + u0 * b + u1 * n
    ensures v' < n + b && v + u0 * b + u1 * n < (n + b) * W
  {
    hide Pow;
    MulLe2(u0, W - 1, b);
    MulLe2(u1, W - 1, n);
    Distribute(W, 1, b);
    Distribute(W, 1, n);
    Distribute(n, b, W);
    MulCancelLt(v', n + b, W);
  }

  /** The invariant's value equation across one step. */
  lemma StepValue(v: nat, b: nat, n: nat, u0: nat, u1: nat, v': nat, weight: nat, a: nat, k: nat)
    requires v' * W == v + u0 * b + u1 * n
    requires v * weight == a * b + k * n
    ensures v' * (W * weight) == (a + u0 * weight) * b + (k + u1 * weight) * n
  {
    hide Pow;
    Associate(v', W, weight);
    Distribute(v + u0 * b, u1 * n, weight);
    Distribute(v, u0 * b, weight);
    Distribute(a, u0 * weight, b);
    Distribute(k, u1 * weight, n);
    Associate(u0, b, weight);
    Associate(u1, n, weight);
    assert (u0 * weight) * b == (u0 * b) * weight;
    assert (u1 * weight) * n == (u1 * n) * weight;
  }

  lemma RoomForStep(n: nat, b: nat, k: nat, room: nat)
    requires b <= n < Wp(k) && room >= k + 2
    ensures (n + b) * W <= Wp(room)
  {
    hide Pow, Wp;
    WBound();
    MulLe2(n + b, W * Wp(k), W);
    WpStep(k);
    WpStep(k + 1);
    WpMono(k + 2, room);
    MulLe2(2, W, Wp(k));
  }

  /** Lines 1197-1198: T's limbs from i up gain u0*B + u1*N. */
  method AccumulateRow(B: Mpi, N: Mpi, T: Mpi, i: nat, m: nat, u0: limb, u1: limb)
    requires T !in {B, N} && i < |N.p| && m <= |B.p| && m <= |N.p| && |T.p| == 2 * |N.p| + 2
    requires Val(B.p[..m]) <= Val(N.p) && Val(T.p[i..]) < Val(N.p) + Val(B.p[..m])
    modifies T
    ensures |T.p| == old(|T.p|) && T.s == old(T.s) && T.p[..i] == old(T.p)[..i]
    ensures Val(T.p[i..]) == Val(old(T.p)[i..]) + u0 * Val(B.p[..m]) + u1 * Val(N.p)
  {
    hide Val, Pow, Wp;
    var n := |N.p|;
    ghost var v, b, nn := Val(T.p[i..]), Val(B.p[..m]), Val(N.p);
    RowRoom(v, b, nn, u0, u1, n, |T.p| - i);
    ValBound(N.p);
    assert N.p[..n] == N.p;
    MulHlpAt(m, B, T, i, u0);
    MulHlpAt(n, N, T, i, u1);
  }

  lemma RowRoom(v: nat, b: nat, nn: nat, u0: limb, u1: limb, n: nat, room: nat)
    requires v < nn + b && b <= nn && room >= n + 2
    ensures nn < Wp(n) ==> v + u0 * b + u1 * nn < Wp(room)
    ensures u0 * b >= 0 && u1 * nn >= 0
  {
    hide Pow, Wp;
    MulLe2(u0, W - 1, b);
    MulLe2(u1, W - 1, nn);
    MulNonneg(u0, b);
    MulNonneg(u1, nn);
    Distribute(W, 1, b);
    Distribute(W, 1, nn);
    Distribute(nn, b, W);
    if nn < Wp(n) {
      RoomForStep(nn, b, n, room);
    }
  }

  /** Lines 1191-1200, one pass. */
  method MontStep(A: Mpi, B: Mpi, N: Mpi, mm: limb, T: Mpi, i: nat, m: nat)
    requires T !in {A, B, N} && i < |N.p| <= |A.p| && 1 <= m <= |B.p| && m <= |N.p|
    requires |T.p| == 2 * |N.p| + 2 && Val(B.p[..m]) <= Val(N.p) && Cong(mm * N.p[0], -1, W)
    requires Val(T.p[i..]) < Val(N.p) + Val(B.p[..m])
    modifies T
    ensures |T.p| == old(|T.p|) && T.s == old(T.s)
    ensures Val(T.p[i + 1..]) * W
         == Val(old(T.p)[i..]) + A.p[i] * Val(B.p[..m]) + U1(old(T.p)[i], A.p[i], B.p[0], mm) * Val(N.p)
    ensures Val(T.p[i + 1..]) < Val(N.p) + Val(B.p[..m])
    ensures T.p[..i + 1] == old(T.p)[..i] + [A.p[i]]
  {
    hide Val, Pow, Wp, U1, Cong;
    var n := |N.p|;
    var u0 := A.p[i];
    var u1 := U1(T.p[i], u0, B.p[0], mm);
    ghost var t, b, nn := T.p, Val(B.p[..m]), Val(N.p);
    U1Clears(T.p[i], u0, B.p[0], mm, N.p[0]);
    LowVanishes(t[i..], B.p[..m], N.p, u0, u1);
    AccumulateRow(B, N, T, i, m, u0, u1);
    DropLow(t, T.p, i, b, nn, u0, u1);
    ghost var t' := T.p;
    T.p := T.p[i := u0];
    assert T.p[i + 1..] == t'[i + 1..];
    ValBound(N.p);
    TopIsZero(T.p, i + 1, n, nn, b);
    T.p := T.p[i + 1 + n + 1 := 0];
    assert T.p[i + 1..] == t'[i + 1..];
    assert T.p[..i] == t[..i];
  }

  lemma DropLow(t: seq<limb>, t': seq<limb>, i: nat, b: nat, n: nat, u0: limb, u1: limb)
    requires i < |t| == |t'| && Val(t[i..]) < n + b
    requires Val(t'[i..]) == Val(t[i..]) + u0 * b + u1 * n && Val(t'[i..]) % W == 0
    ensures Val(t'[i + 1..]) * W == Val(t[i..]) + u0 * b + u1 * n && Val(t'[i + 1..]) < n + b
  {
    hide Val, Pow, Wp;
    LowLimbMod(t'[i..]);
    assert t'[i..][1..] == t'[i + 1..];
    DivMod(Val(t'[i..]), W);
    StepBound(Val(t[i..]), b, n, u0, u1, Val(t'[i + 1..]));
  }

  /** The limb cleared by d[n + 1] = 0 is already zero. */
  lemma TopIsZero(t: seq<limb>, i: nat, n: nat, nn: nat, b: nat)
    requires i + n + 1 < |t| && Val(t[i..]) < nn + b && b <= nn < Wp(n)
    ensures t[i + n + 1] == 0
  {
    hide Val, Pow, Wp;
    WBound();
    WpStep(n);
    MulLe2(2, W, Wp(n));
    ValSmallTail(t[i..], n + 1);
    assert t[i + n + 1] == t[i..][n + 1];
  }

  /** What mpi_montmul needs of its operands. */
  ghost predicate MontReady(A: Mpi, B: Mpi, N: Mpi, mm: limb, T: Mpi)
    reads A, B, N, T
  {
    && T !in {A, B, N} && A != N
    && |N.p| >= 1 && |B.p| >= 1 && |A.p| >= |N.p| + 1 && |T.p| == 2 * |N.p| + 2
    && A.Abs() < Wp(|N.p|) && B.Abs() <= N.Abs() && N.Abs() > 0
    && Cong(mm * N.p[0], -1, W)
  }

  /** Lines 1183-1201: T's upper half gets the unreduced product. */
  method MontLoop(A: Mpi, B: Mpi, N: Mpi, mm: limb, T: Mpi) returns (ghost k: nat)
    requires MontReady(A, B, N, mm, T)
    modifies T
    ensures |T.p| == old(|T.p|) && T.s == old(T.s)
    ensures T.p[..|N.p|] == A.p[..|N.p|]
    ensures Val(T.p[|N.p|..]) < N.Abs() + B.Abs()
    ensures Val(T.p[|N.p|..]) * Wp(|N.p|) == A.Abs() * B.Abs() + k * N.Abs()
  {
    hide Val, Pow, Wp, U1, Cong;
    T.p := Zeros(|T.p|);
    var n := |N.p|;
    var m := if |B.p| < n then |B.p| else n;
    ghost var b, nn := B.Abs(), N.Abs();
    LowLimbs(B.p, N.p, m);
    ValZeros(T.p[0..]);
    ValZeros(A.p[..0]);
    k := 0;
    var i := 0;
    while i < n
      invariant 0 <= i <= n && |T.p| == old(|T.p|) && T.s == old(T.s)
      invariant T.p[..i] == A.p[..i] && Val(T.p[i..]) < nn + b
      invariant Val(T.p[i..]) * Wp(i) == Val(A.p[..i]) * b + k * nn
    {
      ghost var v, u1 := Val(T.p[i..]), U1(T.p[i], A.p[i], B.p[0], mm);
      MontStep(A, B, N, mm, T, i, m);
      StepValue(v, b, nn, A.p[i], u1, Val(T.p[i + 1..]), Wp(i), Val(A.p[..i]), k);
      WpStep(i);
      ValPrefixStep(A.p, i);
      assert A.p[..i + 1] == A.p[..i] + [A.p[i]];
      MulNonneg(u1, Wp(i));
      k := k + u1 * Wp(i);
      i := i + 1;
    }
    ValSmallTail(A.p, n);
  }

  /** A number below N has no limbs beyond N's. */
  lemma LowLimbs(b: seq<limb>, n: seq<limb>, m: nat)
    requires m == (if |b| < |n| then |b| else |n|) && Val(b) <= Val(n)
    ensures Val(b[..m]) == Val(b)
  {
    hide Val, Pow, Wp;
    ValBound(n);
    if |b| < |n| {
      assert b[..m] == b;
    } else {
      ValSmallTail(b, m);
    }
  }

  /** Line 1203: n + 1 limbs of the result over A. */
  lemma ResultLimbs(t: seq<limb>, a: seq<limb>, n: nat)
    requires |t| == 2 * n + 2 && |a| >= n + 1 && Val(a) < Wp(n) && Val(t[n..]) < Wp(n + 1)
    ensures Val(t[n..2 * n + 1] + a[n + 1..]) == Val(t[n..])
  {
    hide Val, Pow, Wp;
    ValSmallTail(t[n..], n + 1);
    ValSmallTail(a, n);
    assert t[n..][..n + 1] == t[n..2 * n + 1];
    ValConcat(t[n..2 * n + 1], a[n + 1..]);
    ValZeros(a[n + 1..]);
  }

  /**
   * mpi_montmul: the representative below N of A * B / W^n, written
   * multiplied out. A and B may be the same object.
   */
  method MontMul(A: Mpi, B: Mpi, N: Mpi, mm: limb, T: Mpi)
    requires MontReady(A, B, N, mm, T)
    modifies A, T
    ensures A.s == old(A.s) && |A.p| == old(|A.p|) && |T.p| == old(|T.p|) && T.s == old(T.s)
    ensures A.Abs() < N.Abs()
    ensures Cong(A.Abs() * Wp(|N.p|), old(A.Abs() * B.Abs()), N.Abs())
  {
    hide Val, Pow, Wp, Cong;
    var n := |N.p|;
    ghost var ab, nn := A.Abs() * B.Abs(), N.Abs();
    ghost var k := MontLoop(A, B, N, mm, T);
    ghost var v := Val(T.p[n..]);
    BelowDouble(v, nn, N.p);
    ResultLimbs(T.p, A.p, n);
    A.p := T.p[n..2 * n + 1] + A.p[n + 1..];
    assert N.p[..n] == N.p;
    CongIntro(v * Wp(n), ab, nn, k);
    var c := CmpAbs(A, N);
    if c >= 0 {
      SubHlp(n, N, A);
      Distribute(v, nn, Wp(n));
      Distribute(k, Wp(n), nn);
      CongIntro((v - nn) * Wp(n), ab, nn, k - Wp(n));
    } else {
      Absorbs(T.p, A.p, n);
      SubHlp(n, A, T);
    }
  }

  lemma BelowDouble(v: nat, nn: nat, n: seq<limb>)
    requires nn == Val(n) && v < 2 * nn
    ensures v < Wp(|n| + 1)
  {
    hide Val, Pow, Wp;
    ValBound(n);
    WBound();
    WpStep(|n|);
    MulLe2(2, W, Wp(|n|));
  }

  /** The timing-balance subtraction of line 1209 stays inside T. */
  lemma Absorbs(t: seq<limb>, a: seq<limb>, n: nat)
    requires n <= |t| && n <= |a| && Val(a) == Val(t[n..])
    ensures Val(t) >= Val(a[..n])
  {
    hide Val, Pow, Wp;
    ValSplit(t, n);
    ValSplit(a, n);
    MulLe2(1, Wp(n), Val(a));
    MulNonneg(Wp(n), Val(a[n..]));
  }

  /** mpi_montred: multiplication by one. */
  method MontRed(A: Mpi, N: Mpi, mm: limb, T: Mpi)
    requires A != N && T != A && T != N && |N.p| >= 1 && |A.p| >= |N.p| + 1 && |T.p| == 2 * |N.p| + 2
    requires A.Abs() < Wp(|N.p|) && 1 <= N.Abs() && Cong(mm * N.p[0], -1, W)
    modifies A, T
    ensures A.s == old(A.s) && |A.p| == old(|A.p|) && |T.p| == old(|T.p|) && T.s == old(T.s)
    ensures A.Abs() < N.Abs() && Cong(A.Abs() * Wp(|N.p|), old(A.Abs()), N.Abs())
  {
    hide Val, Pow, Wp, Cong;
    WBound();
    var U := FromInt(1);
    MontMul(A, U, N, mm, T);
  }
}
