/**
 * Sliding-window modular exponentiation
 * (src/bootloader/myboot/bignum.c, lines 1226-1401).
 */
module Exponentiation {
  import opened Arith
  import opened Bits
  import opened Modular
  import opened Limbs
  import opened Mpis
  import opened AddSub
  import opened Mul
  import opened Shift
  import opened Division
  import opened Montgomery

  // ---- Montgomery representatives of powers ----

  /** x stands for a^e: x = a^e * W^n modulo N. */
  predicate Stands(x: nat, a: nat, e: nat, r: nat, nn: nat)
    requires nn > 0
  {
    Cong(x, Pow(a, e) * r, nn)
  }

  /** W^n cancels modulo an odd number. */
  lemma CancelR(a: int, b: int, n: nat, nn: int)
    requires nn > 0 && nn % 2 == 1 && Cong(a * Wp(n), b * Wp(n), nn)
    ensures Cong(a, b, nn)
  {
    hide Cong, Pow, Pow2, Wp;
    WpPow2Bits(n);
    CancelPow2(a, b, biL * n, nn);
  }

  /** For an odd modulus what Montgomery reduction leaves is the only such number. */
  lemma ReducedUnique(x: nat, y: nat, v: int, n: nat, nn: nat)
    requires nn % 2 == 1 && x < nn && y < nn
    requires Cong(x * Wp(n), v, nn) && Cong(y * Wp(n), v, nn)
    ensures x == y
  {
    hide Cong, Wp;
    CongSym(y * Wp(n), v, nn);
    CongTrans(x * Wp(n), v, y * Wp(n), nn);
    CancelR(x, y, n, nn);
    CongUnique(x, y, nn);
  }

  /** Montgomery multiplication adds the exponents. */
  lemma StandsMul(x': nat, x: nat, y: nat, a: nat, u: nat, v: nat, n: nat, nn: nat)
    requires nn % 2 == 1 && Cong(x' * Wp(n), x * y, nn)
    requires Stands(x, a, u, Wp(n), nn) && Stands(y, a, v, Wp(n), nn)
    ensures Stands(x', a, u + v, Wp(n), nn)
  {
    hide Cong, Pow, Wp;
    var r, pu, pv := Wp(n), Pow(a, u), Pow(a, v);
    CongMul(x, pu * r, y, pv * r, nn);
    PowAdd(a, u, v);
    Associate(pu * r, pv, r);
    Associate(pu, r, pv);
    assert (pu * r) * pv == (pu * pv) * r;
    CongTrans(x' * r, x * y, (pu * pv * r) * r, nn);
    CancelR(x', pu * pv * r, n, nn);
  }

  /** A residue ready for Montgomery multiplication that stands for a^e. */
  ghost predicate Rep(X: Mpi, N: Mpi, a: nat, e: nat)
    reads X, N
  {
    && |N.p| >= 1 && X.Ready() && |X.p| >= |N.p| + 1
    && X.Abs() < N.Abs() && Stands(X.Abs(), a, e, Wp(|N.p|), N.Abs())
  }

  ghost predicate Modulus(N: Mpi, mm: limb, T: Mpi)
    reads N, T
  {
    T != N && |N.p| >= 1 && |T.p| == 2 * |N.p| + 2 && N.Abs() % 2 == 1 && Cong(mm * N.p[0], -1, W)
  }

  method MulRep(X: Mpi, Y: Mpi, N: Mpi, mm: limb, T: Mpi, ghost a: nat, ghost u: nat, ghost v: nat)
    requires T !in {X, Y, N} && X != N && Modulus(N, mm, T) && Rep(X, N, a, u) && Rep(Y, N, a, v)
    modifies X, T
    ensures Rep(X, N, a, u + v) && |T.p| == old(|T.p|) && X.s == old(X.s)
  {
    hide Cong, Val, Pow, Wp, Stands;
    ghost var x, y := X.Abs(), Y.Abs();
    ValBound(N.p);
    MontMul(X, Y, N, mm, T);
    StandsMul(X.Abs(), x, y, a, u, v, |N.p|, N.Abs());
  }

  /** Squaring k times. */
  method SquareTimes(X: Mpi, N: Mpi, mm: limb, T: Mpi, k: nat, ghost a: nat, ghost u: nat)
    requires T !in {X, N} && X != N && Modulus(N, mm, T) && Rep(X, N, a, u)
    modifies X, T
    ensures Rep(X, N, a, u * Pow2(k)) && |T.p| == old(|T.p|) && X.s == old(X.s)
  {
    hide Cong, Val, Pow, Pow2, Wp, Stands;
    Pow2Step(0);
    var i := 0;
    while i < k
      invariant 0 <= i <= k && Modulus(N, mm, T) && Rep(X, N, a, u * Pow2(i)) && X.s == old(X.s)
    {
      Pow2Step(i);
      MulRep(X, X, N, mm, T, a, u * Pow2(i), u * Pow2(i));
      Associate(u, 2, Pow2(i));
      i := i + 1;
    }
  }

  // ---- the exponent's bits ----

  lemma BitSum(x: nat, high: nat, j: nat)
    requires j < biL
    ensures Bit(x + W * high, j) == Bit(x, j)
  {
    hide Pow, Pow2;
    WIsPow2(j);
    var h := Pow2(biL - j - 1);
    Pow2Step(biL - j - 1);
    DivMod(x, Pow2(j));
    var q, r := x / Pow2(j), x % Pow2(j);
    SumSplit(q, r, high, 2 * h, Pow2(j));
    DivModUnique(x + W * high, q + high * (2 * h), r, Pow2(j));
    EvenPart(q, high, h);
  }

  lemma SumSplit(q: nat, r: nat, high: nat, h: nat, p: nat)
    ensures (q * p + r) + (h * p) * high == (q + high * h) * p + r
  {
    hide Pow;
    Associate(high, h, p);
    Distribute(q, high * h, p);
  }

  lemma EvenPart(q: int, a: int, b: int)
    ensures (q + a * (2 * b)) % 2 == q % 2
  {
    Associate(a, 2, b);
  }

  /** Bit i * biL + j of the value is bit j of limb i. */
  lemma BitOfVal(s: seq<limb>, i: nat, j: nat)
    requires i < |s| && j < biL
    ensures Bit(Val(s), i * biL + j) == Bit(s[i], j)
  {
    hide Val, Pow, Pow2, Wp, Bit;
    DropLimbs(s, s[i..], i);
    ValSplitFirst(s[i..]);
    BitSum(s[i], Val(s[i..][1..]), j);
    WpPow2Bits(i);
    var k := biL * i;
    assert i * biL == k;
    BitBehind(Val(s), k, j);
  }

  lemma BitBehind(x: nat, k: nat, j: nat)
    ensures x / Pow2(k) >= 0 && Bit(x, k + j) == Bit(x / Pow2(k), j)
  {
    hide Pow, Pow2;
    Pow2Add(k, j);
    DivMod(x, Pow2(k));
    DivLe(x, Pow2(k));
    DivDiv(x, Pow2(k), Pow2(j));
  }

  /** The bits below limb i, and j more. */
  function Left(i: nat, j: nat): nat {
    i * biL + j
  }

  lemma OneBitLess(i: nat, j: nat)
    requires j < biL
    ensures j > 0 ==> Left(i, j - 1) == Left(i, j) - 1
    ensures j == 0 && i > 0 ==> Left(i - 1, biL - 1) == Left(i, j) - 1
    ensures j == 0 && i == 0 ==> Left(i, j) == 0
  {
    Distribute(i, 1, biL);
  }

  lemma BitAt(s: seq<limb>, i: nat, j: nat)
    requires i < |s| && j < biL
    ensures Bit(Val(s), Left(i, j)) == Bit(s[i], j)
  {
    hide Val, Bit;
    BitOfVal(s, i, j);
  }

  /** Reading one more bit of e from the top. */
  lemma NextBit(e: nat, r: nat)
    requires r > 0
    ensures e / Pow2(r - 1) == 2 * (e / Pow2(r)) + Bit(e, r - 1) && 0 <= Bit(e, r - 1) <= 1
  {
    hide Pow, Pow2;
    Pow2Step(r - 1);
    DivDiv(e, Pow2(r - 1), 2);
  }

  // ---- the window ----

  /**
   * After the exponent's leading bits with value e: X holds the power u, and
   * the open window holds nbits bits of value v, left-aligned in wbits.
   */
  predicate Window(e: nat, wsize: nat, state: int, nbits: nat, wbits: nat, u: nat, v: nat) {
    && nbits < wsize && v < Pow2(nbits) && e == u * Pow2(nbits) + v && wbits == v * Pow2(wsize - nbits)
    && 0 <= state <= 2
    && (state == 0 ==> e == 0 && nbits == 0)
    && (state == 1 ==> nbits == 0)
    && (state == 2 ==> nbits >= 1 && Pow2(nbits - 1) <= v)
  }

  /** A table entry exists for every full window, which starts with a one bit. */
  ghost predicate Table(Wt: seq<Mpi>, N: Mpi, a: nat, wsize: nat)
    reads Wt, N
  {
    && |Wt| == 64 && 1 <= wsize <= 6 && Rep(Wt[1], N, a, 1)
    && forall k :: Pow2(wsize - 1) <= k < Pow2(wsize) && k < 64 ==> Rep(Wt[k], N, a, k)
  }

  lemma WindowGrows(v: nat, nbits: nat, wsize: nat, ei: nat)
    requires nbits < wsize && v < Pow2(nbits) && ei <= 1
    ensures var k := wsize - nbits - 1;
            Or(v * Pow2(wsize - nbits), ei * Pow2(k)) == (2 * v + ei) * Pow2(k)
    ensures 2 * v + ei < Pow2(nbits + 1)
  {
    hide Pow, Pow2, Or;
    var k := wsize - nbits - 1;
    Pow2Step(k);
    Pow2Step(nbits);
    OrDisjoint(v, k + 1, ei * Pow2(k));
    Distribute(2 * v, ei, Pow2(k));
    Associate(v, 2, Pow2(k));
  }

  lemma TableIndex(v: nat, wsize: nat)
    requires 1 <= wsize <= 6 && v < Pow2(wsize)
    ensures v < 64
  {
    Pow2Mono(wsize, 6);
    assert Pow2(6) == 64 by {
      SixtyFour();
    }
  }

  lemma SixtyFour()
    ensures Pow2(6) == 64
  {
    PowAdd(2, 3, 3);
    assert Pow(2, 3) == 8;
  }

  lemma ShiftOneMore(u: nat, v: nat, n: nat, ei: nat)
    ensures 2 * (u * Pow2(n) + v) + ei == u * Pow2(n + 1) + (2 * v + ei)
  {
    hide Pow, Pow2;
    Pow2Step(n);
    Associate(u, 2, Pow2(n));
  }

  /** A zero bit outside a window. */
  lemma WindowZero(e: nat, wsize: nat, state: int, u: nat, v: nat, nbits: nat, wbits: nat)
    requires Window(e, wsize, state, nbits, wbits, u, v) && state != 2
    ensures nbits == 0 && v == 0 && wbits == 0 && e == u
    ensures state == 0 ==> Window(2 * e, wsize, 0, 0, 0, u, 0)
    ensures state == 1 ==> Window(2 * e, wsize, 1, 0, 0, 2 * u, 0)
  {
    hide Pow, Pow2;
    Pow2Step(0);
    MulNonneg(0, Pow2(wsize));
  }

  /** A bit that goes into the window: nbits + 1 bits of value 2 * v + ei. */
  lemma WindowPush(e: nat, wsize: nat, state: int, nbits: nat, wbits: nat, u: nat, v: nat, ei: nat)
    requires Window(e, wsize, state, nbits, wbits, u, v) && ei <= 1 && (state != 2 ==> ei == 1)
    ensures var k, v' := wsize - nbits - 1, 2 * v + ei;
            && Or(wbits, ei * Pow2(k)) == v' * Pow2(k)
            && Pow2(nbits) <= v' < Pow2(nbits + 1)
            && 2 * e + ei == u * Pow2(nbits + 1) + v'
  {
    hide Pow, Pow2, Or;
    Pow2Step(0);
    WindowGrows(v, nbits, wsize, ei);
    if nbits > 0 {
      Pow2Step(nbits - 1);
    }
    ShiftOneMore(u, v, nbits, ei);
  }

  lemma WindowOpen(e: nat, wsize: nat, nbits: nat, wbits: nat, u: nat, v: nat)
    requires 1 <= nbits < wsize && Pow2(nbits - 1) <= v < Pow2(nbits)
    requires e == u * Pow2(nbits) + v && wbits == v * Pow2(wsize - nbits)
    ensures Window(e, wsize, 2, nbits, wbits, u, v)
  {}

  lemma WindowShut(e: nat, wsize: nat)
    requires wsize >= 1
    ensures Window(e, wsize, 1, 0, 0, e, 0)
  {
    hide Pow, Pow2;
    Pow2Step(0);
    MulNonneg(0, Pow2(wsize));
  }

  /** Lines 1331-1370, for one exponent bit. */
  method ConsumeBit(X: Mpi, N: Mpi, mm: limb, T: Mpi, Wt: seq<Mpi>, wsize: nat, ei: nat,
                    state: int, nbits: nat, wbits: nat, ghost a: nat, ghost e: nat, ghost u: nat, ghost v: nat)
    returns (state': int, nbits': nat, wbits': nat, ghost u': nat, ghost v': nat)
    requires T !in {X, N} && X != N && X !in Wt && T !in Wt && Modulus(N, mm, T) && Table(Wt, N, a, wsize)
    requires Rep(X, N, a, u) && ei <= 1 && Window(e, wsize, state, nbits, wbits, u, v)
    requires |Wt| == 64 && 0 <= state <= 2 && nbits < wsize
    modifies X, T
    ensures Rep(X, N, a, u') && |T.p| == old(|T.p|) && X.s == old(X.s) && Modulus(N, mm, T)
    ensures Window(2 * e + ei, wsize, state', nbits', wbits', u', v') && 0 <= state' <= 2 && nbits' < wsize
  {
    hide Pow, Pow2, Wp, Val, Cong, Stands, Or, Window, Table;
    state', nbits', wbits', u', v' := state, nbits, wbits, u, v;
    if ei == 0 && state' == 0 {
      WindowZero(e, wsize, state, u, v, nbits, wbits);
      return;
    }
    if ei == 0 && state' == 1 {
      WindowZero(e, wsize, state, u, v, nbits, wbits);
      MulRep(X, X, N, mm, T, a, u, u);
      u' := 2 * u;
      return;
    }
    WindowPush(e, wsize, state, nbits, wbits, u, v, ei);
    state' := 2;
    nbits' := nbits' + 1;
    wbits' := Or(wbits', ei * Pow2(wsize - nbits'));
    v' := 2 * v + ei;
    if nbits' == wsize {
      Pow2Zero();
      TableHas(Wt, N, a, wsize, wbits');
      UseWindow(X, N, mm, T, Wt[wbits'], wsize, wbits', a, u);
      u' := 2 * e + ei;
      v' := 0;
      state' := state' - 1;
      nbits' := 0;
      wbits' := 0;
      WindowShut(u', wsize);
    } else {
      WindowOpen(2 * e + ei, wsize, nbits', wbits', u', v');
    }
  }

  lemma TableHas(Wt: seq<Mpi>, N: Mpi, a: nat, wsize: nat, v: nat)
    requires Table(Wt, N, a, wsize) && Pow2(wsize - 1) <= v < Pow2(wsize)
    ensures v < 64 && Rep(Wt[v], N, a, v)
  {
    hide Pow, Pow2, Rep;
    TableIndex(v, wsize);
  }

  /** Lines 1359-1365: wsize squarings and one table entry. */
  method UseWindow(X: Mpi, N: Mpi, mm: limb, T: Mpi, Wv: Mpi, wsize: nat, v: nat, ghost a: nat, ghost u: nat)
    requires T !in {X, N, Wv} && X !in {N, Wv} && Modulus(N, mm, T) && Rep(Wv, N, a, v) && Rep(X, N, a, u)
    modifies X, T
    ensures Rep(X, N, a, u * Pow2(wsize) + v) && |T.p| == old(|T.p|) && X.s == old(X.s) && Modulus(N, mm, T)
  {
    hide Pow, Pow2, Wp, Val, Cong, Stands;
    SquareTimes(X, N, mm, T, wsize, a, u);
    MulRep(X, Wv, N, mm, T, a, u * Pow2(wsize), v);
  }

  /** Lines 1311-1371: all bits of E from the top. */
  method Scan(X: Mpi, E: Mpi, N: Mpi, mm: limb, T: Mpi, Wt: seq<Mpi>, wsize: nat, ghost a: nat)
    returns (nbits: nat, wbits: nat, ghost u: nat, ghost v: nat)
    requires T !in {X, N, E} && X !in {N, E} && X !in Wt && T !in Wt && Modulus(N, mm, T) && Table(Wt, N, a, wsize)
    requires Rep(X, N, a, 0) && wsize >= 1 && |Wt| == 64
    modifies X, T
    ensures Rep(X, N, a, u) && |T.p| == old(|T.p|) && X.s == old(X.s)
    ensures nbits < wsize && v < Pow2(nbits) && E.Abs() == u * Pow2(nbits) + v && wbits == v * Pow2(wsize - nbits)
  {
    hide Pow, Pow2, Wp, Val, Cong, Stands, Or, Bit, Window, Table, Modulus, Rep, Left;
    var nblimbs: int := |E.p|;
    var bufsize := 0;
    var state := 0;
    nbits, wbits, u, v := 0, 0, 0, 0;
    ghost var e, r := E.Abs(), Left(|E.p|, 0);
    ScanStart(E.p, wsize);
    while true
      invariant 0 <= nblimbs <= |E.p| && 0 <= bufsize < biL && (bufsize > 0 ==> nblimbs < |E.p|)
      invariant Modulus(N, mm, T) && Rep(X, N, a, u) && X.s == old(X.s) && |T.p| == old(|T.p|)
      invariant r == Left(nblimbs, bufsize) && Window(e / Pow2(r), wsize, state, nbits, wbits, u, v)
      invariant 0 <= state <= 2 && nbits < wsize
      decreases r
    {
      OneBitLess(nblimbs, bufsize);
      if bufsize == 0 {
        nblimbs := nblimbs - 1;
        if nblimbs + 1 == 0 {
          break;
        }
        bufsize := biL;
      }
      bufsize := bufsize - 1;
      var ei := Bit(E.p[nblimbs], bufsize);
      BitAt(E.p, nblimbs, bufsize);
      NextBit(e, r);
      r := r - 1;
      state, nbits, wbits, u, v :=
        ConsumeBit(X, N, mm, T, Wt, wsize, ei, state, nbits, wbits, a, e / Pow2(r + 1), u, v);
    }
    ScanEnd(e, wsize, state, nbits, wbits, u, v);
  }

  lemma ScanStart(s: seq<limb>, wsize: nat)
    requires wsize >= 1
    ensures Window(Val(s) / Pow2(Left(|s|, 0)), wsize, 0, 0, 0, 0, 0)
  {
    hide Pow, Pow2, Wp, Val;
    ValBound(s);
    WpPow2Bits(|s|);
    DivModUnique(Val(s), 0, Val(s), Pow2(|s| * biL));
    Pow2Step(0);
    MulNonneg(0, Pow2(wsize));
  }

  lemma ScanEnd(e: nat, wsize: nat, state: int, nbits: nat, wbits: nat, u: nat, v: nat)
    requires Window(e / Pow2(0), wsize, state, nbits, wbits, u, v)
    ensures nbits < wsize && v < Pow2(nbits) && e == u * Pow2(nbits) + v && wbits == v * Pow2(wsize - nbits)
  {
    Pow2Zero();
    DivModUnique(e, e, 0, 1);
  }

  /** Bit wsize of the left-aligned window, shifted i + 1 places. */
  lemma TailBit(v: nat, nbits: nat, wsize: nat, i: nat)
    requires i < nbits < wsize && v < Pow2(nbits)
    ensures Bit(v * Pow2(wsize - nbits + i + 1), wsize) == Bit(v, nbits - i - 1)
    ensures v / Pow2(nbits - i - 1) == 2 * (v / Pow2(nbits - i)) + Bit(v, nbits - i - 1)
    ensures 0 <= Bit(v, nbits - i - 1) <= 1
  {
    hide Pow, Pow2;
    var s, t := wsize - nbits + i + 1, nbits - i - 1;
    Pow2Add(t, s);
    Pow2Add(s, t);
    DivDiv(v * Pow2(s), Pow2(s), Pow2(t));
    ShiftBack(v, Pow2(s));
    NextBit(v, nbits - i);
  }

  /** One pass of lines 1376-1384: a squaring, and a factor when the next bit is set. */
  method TailStep(X: Mpi, W1: Mpi, N: Mpi, mm: limb, T: Mpi, wsize: nat, wbits0: nat, ghost a: nat, ghost x: nat)
    returns (wbits: nat)
    requires T !in {X, N, W1} && X !in {N, W1} && Modulus(N, mm, T) && Rep(W1, N, a, 1) && Rep(X, N, a, x)
    modifies X, T
    ensures wbits == wbits0 * 2 && Rep(X, N, a, 2 * x + (if Bit(wbits, wsize) != 0 then 1 else 0))
    ensures Modulus(N, mm, T) && |T.p| == old(|T.p|) && X.s == old(X.s)
  {
    hide Pow, Pow2, Wp, Val, Cong, Stands, Bit;
    MulRep(X, X, N, mm, T, a, x, x);
    wbits := wbits0 * 2;
    if Bit(wbits, wsize) != 0 {
      MulRep(X, W1, N, mm, T, a, 2 * x, 1);
    }
  }

  /** Lines 1376-1384: the bits left in an unfinished window. */
  method Tail(X: Mpi, W1: Mpi, N: Mpi, mm: limb, T: Mpi, wsize: nat, nbits: nat, wbits0: nat,
              ghost a: nat, ghost u: nat, ghost v: nat)
    requires T !in {X, N, W1} && X !in {N, W1} && Modulus(N, mm, T) && Rep(W1, N, a, 1)
    requires Rep(X, N, a, u) && nbits < wsize && v < Pow2(nbits) && wbits0 == v * Pow2(wsize - nbits)
    modifies X, T
    ensures Rep(X, N, a, u * Pow2(nbits) + v) && |T.p| == old(|T.p|) && X.s == old(X.s)
  {
    hide Pow, Pow2, Wp, Val, Cong, Stands, Bit;
    var i, wbits := 0, wbits0;
    Pow2Step(0);
    DivModUnique(v, 0, v, Pow2(nbits));
    while i < nbits
      invariant 0 <= i <= nbits && Modulus(N, mm, T) && X.s == old(X.s)
      invariant wbits == v * Pow2(wsize - nbits + i)
      invariant Rep(X, N, a, u * Pow2(i) + v / Pow2(nbits - i))
    {
      ghost var x := u * Pow2(i) + v / Pow2(nbits - i);
      TailBit(v, nbits, wsize, i);
      Pow2Step(i);
      Associate(u, 2, Pow2(i));
      Pow2Step(wsize - nbits + i);
      Associate(v, 2, Pow2(wsize - nbits + i));
      wbits := TailStep(X, W1, N, mm, T, wsize, wbits, a, x);
      i := i + 1;
    }
    DivModUnique(v, v, 0, 1);
  }

  /** 64 mpi structures, all zero (line 1244). */
  method NewTable() returns (Wt: seq<Mpi>)
    ensures |Wt| == 64 && forall k :: 0 <= k < 64 ==> fresh(Wt[k]) && Wt[k].Valid() && Wt[k].p == []
    ensures forall k, l :: 0 <= k < l < 64 ==> Wt[k] != Wt[l]
  {
    Wt := [];
    while |Wt| < 64
      invariant |Wt| <= 64 && forall k :: 0 <= k < |Wt| ==> fresh(Wt[k]) && Wt[k].Valid() && Wt[k].p == []
      invariant forall k, l :: 0 <= k < l < |Wt| ==> Wt[k] != Wt[l]
    {
      var w := new Mpi();
      Wt := Wt + [w];
    }
  }

  /** mpi_grow to n + 1 limbs, then mpi_copy: Y's representative in X. */
  method CopyRep(X: Mpi, Y: Mpi, N: Mpi, ghost a: nat, ghost e: nat)
    requires X != Y && X != N && X.Valid() && X.p == [] && Rep(Y, N, a, e)
    modifies X
    ensures Rep(X, N, a, e)
  {
    hide Pow, Wp, Val, Cong, Stands, Sig;
    Grow(X, |N.p| + 1);
    Copy(X, Y);
  }

  /** Lines 1302-1307: the power after Y's, by one more factor. */
  method NextPower(X: Mpi, Y: Mpi, One: Mpi, N: Mpi, mm: limb, T: Mpi, ghost a: nat, ghost e: nat)
    requires X !in {Y, One, N, T} && T !in {Y, One, N} && Modulus(N, mm, T)
    requires Rep(Y, N, a, e) && Rep(One, N, a, 1) && X.Valid() && X.p == []
    modifies X, T
    ensures Rep(X, N, a, e + 1) && Modulus(N, mm, T) && |T.p| == old(|T.p|)
  {
    hide Wp, Val, Cong, Stands, Pow;
    CopyRep(X, Y, N, a, e);
    MulRep(X, One, N, mm, T, a, e, 1);
  }

  /** Lines 1302-1308: the entries behind j. */
  method FillTable(Wt: seq<Mpi>, N: Mpi, mm: limb, T: Mpi, j: nat, end: nat, ghost a: nat)
    requires |Wt| == 64 && (forall k, l :: 0 <= k < l < 64 ==> Wt[k] != Wt[l]) && 1 < j < end <= 64
    requires N !in Wt && T !in Wt && Modulus(N, mm, T) && Rep(Wt[1], N, a, 1) && Rep(Wt[j], N, a, j)
    requires forall k :: j < k < 64 ==> Wt[k].Valid() && Wt[k].p == []
    modifies T, Wt[j + 1..]
    ensures Rep(Wt[1], N, a, 1) && (forall k :: j <= k < end ==> Rep(Wt[k], N, a, k)) && |T.p| == old(|T.p|)
  {
    hide Wp, Val, Cong, Stands, Pow;
    var i := j + 1;
    while i < end
      invariant j < i <= end && Modulus(N, mm, T) && Rep(Wt[1], N, a, 1)
      invariant forall k :: j <= k < i ==> Rep(Wt[k], N, a, k)
      invariant forall k :: i <= k < 64 ==> Wt[k].Valid() && Wt[k].p == []
    {
      NextPower(Wt[i], Wt[i - 1], Wt[1], N, mm, T, a, i - 1);
      i := i + 1;
    }
  }

  /** Lines 1286-1309: W[j] = a^j for j from 2^(wsize-1) up to 2^wsize. */
  method BuildTable(Wt: seq<Mpi>, N: Mpi, mm: limb, T: Mpi, wsize: nat, ghost a: nat)
    requires |Wt| == 64 && (forall k, l :: 0 <= k < l < 64 ==> Wt[k] != Wt[l])
    requires N !in Wt && T !in Wt && Modulus(N, mm, T) && wsize in {1, 3, 4, 5, 6}
    requires Rep(Wt[1], N, a, 1) && forall k :: 2 <= k < 64 ==> Wt[k].Valid() && Wt[k].p == []
    modifies T, Wt
    ensures Table(Wt, N, a, wsize) && |T.p| == old(|T.p|)
  {
    hide Wp, Val, Cong, Stands, Pow;
    SmallPowers();
    if wsize > 1 {
      var j := Pow2(wsize - 1);
      Pow2Step(wsize - 1);
      CopyRep(Wt[j], Wt[1], N, a, 1);
      SquareTimes(Wt[j], N, mm, T, wsize - 1, a, 1);
      FillTable(Wt, N, mm, T, j, Pow2(wsize), a);
    }
  }

  lemma SmallPowers()
    ensures Pow2(0) == 1 && Pow2(1) == 2 && Pow2(2) == 4 && Pow2(3) == 8
    ensures Pow2(4) == 16 && Pow2(5) == 32 && Pow2(6) == 64
  {
    Pow2Step(0);
    Pow2Step(1);
    Pow2Step(2);
    Pow2Step(3);
    Pow2Step(4);
    Pow2Step(5);
  }

  // ---- the whole operation ----

  const ERR_MPI_INVALID_PARAMETER := 0x0004

  /** The window size for an exponent of i bits (lines 1248-1249). */
  function WindowSize(i: nat): nat {
    if i > 671 then 6 else if i > 239 then 5 else if i > 79 then 4 else if i > 23 then 3 else 1
  }

  /** R^2 mod N, where R = W^n is the Montgomery radix of N's n limbs. */
  ghost function RadixSquare(N: Mpi): nat
    requires N.Abs() > 0
    reads N
  {
    Wp(2 * |N.p|) % N.Abs()
  }

  /** A cache for R^2 mod N: still empty, or right for N. */
  ghost predicate Cache(C: Mpi, N: Mpi)
    reads C, N
  {
    && C.Valid()
    && (C.p == [] || (C.s == 1 && N.Abs() > 0 && C.Abs() == RadixSquare(N)))
  }

  lemma RadixCong(x: nat, n: nat, nn: nat)
    requires nn > 0 && x == Wp(2 * n) % nn
    ensures Cong(x, Wp(n) * Wp(n), nn) && x < nn
  {
    hide Pow, Wp, Cong;
    WpAdd(n, n);
    CongMod(Wp(2 * n), nn);
  }

  /** Lines 1259-1269. */
  method Radix(C: Mpi?, N: Mpi) returns (RR: Mpi)
    requires N.Ready() && N.s == 1 && N.Abs() > 0 && C != N && (C != null ==> Cache(C, N))
    modifies C
    ensures fresh(RR) && RR.Ready() && RR.s == 1 && RR.Abs() == RadixSquare(N)
    ensures C != null ==> Cache(C, N) && C.p != []
    ensures C != null && old(C.p) != [] ==> unchanged(C)
  {
    hide Pow, Pow2, Val, Wp, Cong, Sig, BitLen, BitsToLimbs;
    RR := new Mpi();
    if C == null || |C.p| == 0 {
      WBound();
      Lset(RR, 1);
      ShiftL(RR, |N.p| * 2 * biL);
      WpPow2Bits(2 * |N.p|);
      assert |N.p| * 2 * biL == biL * (2 * |N.p|);
      var r := ModMpi(RR, RR, N);
      if C != null {
        C.s, C.p := RR.s, RR.p;
      }
    } else {
      RR.s, RR.p := C.s, C.p;
    }
  }

  lemma BaseCong(x: nat, a: nat, nn: nat)
    requires nn > 0 && (x == a % nn || x == a || (x == nn && a == 0))
    ensures Cong(x, a, nn)
  {
    hide Cong;
    CongMod(a, nn);
    CongRefl(a, nn);
    if x == nn && a == 0 {
      CongIntro(nn, 0, nn, 1);
    }
  }

  lemma StandsFirst(x: nat, w: nat, rr: nat, a: nat, n: nat, nn: nat)
    requires nn % 2 == 1 && Cong(x * Wp(n), w * rr, nn)
    requires Cong(w, a, nn) && Cong(rr, Wp(n) * Wp(n), nn)
    ensures Stands(x, a, 1, Wp(n), nn)
  {
    hide Cong, Wp;
    var r := Wp(n);
    CongMul(w, a, rr, r * r, nn);
    Associate(a, r, r);
    CongTrans(x * r, w * rr, (a * r) * r, nn);
    CancelR(x, a * r, n, nn);
    assert Pow(a, 1) == a;
  }

  lemma StandsZero(x: nat, rr: nat, a: nat, n: nat, nn: nat)
    requires nn % 2 == 1 && Cong(x * Wp(n), rr, nn) && Cong(rr, Wp(n) * Wp(n), nn)
    ensures Stands(x, a, 0, Wp(n), nn)
  {
    hide Cong, Wp;
    CongTrans(x * Wp(n), rr, Wp(n) * Wp(n), nn);
    CancelR(x, Wp(n), n, nn);
    assert Pow(a, 0) == 1;
  }

  /**
   * The number that is raised. A base below zero that has fewer limbs than N is
   * taken for not less than N, and reduced; any other goes in by its magnitude.
   */
  ghost function BaseUsed(A: Mpi, N: Mpi): (b: nat)
    requires A.Ready() && N.Abs() > 0
    reads A, N
    ensures A.Value() >= 0 ==> b == A.Value()
  {
    if A.Value() >= 0 then A.Value() else if CmpBlind(A, N) then A.Value() % N.Abs() else A.Abs()
  }

  /** A magnitude of more limbs than N does not fit the working numbers. */
  ghost predicate BaseFits(A: Mpi, N: Mpi)
    reads A, N
  {
    A.Value() >= 0 || CmpBlind(A, N) || A.Abs() < Wp(|N.p|)
  }

  /** Lines 1274-1276: the base, reduced unless it is below N already. */
  method BaseBelow(W1: Mpi, A: Mpi, N: Mpi)
    requires W1 !in {A, N} && N.Ready() && N.s == 1 && N.Abs() > 0 && A.Ready() && W1.Ready() && BaseFits(A, N)
    modifies W1
    ensures W1.Ready() && |W1.p| >= old(|W1.p|)
    ensures W1.Abs() < Wp(|N.p|) && Cong(W1.Abs(), BaseUsed(A, N), N.Abs())
  {
    hide Pow, Val, Wp, Cong, Sig;
    var c := CmpMpi(A, N);
    if c >= 0 {
      var r := ModMpi(W1, A, N);
    } else {
      Copy(W1, A);
    }
    BaseCong(W1.Abs(), BaseUsed(A, N), N.Abs());
    ValBound(N.p);
  }

  /** Lines 1274-1278: W[1] stands for A. */
  method First(W1: Mpi, RR: Mpi, A: Mpi, N: Mpi, mm: limb, T: Mpi)
    requires W1 !in {RR, A, N, T} && T !in {A, N, RR} && Modulus(N, mm, T) && N.Ready() && N.s == 1
    requires A.Ready() && BaseFits(A, N) && RR.Ready() && RR.Abs() == RadixSquare(N)
    requires W1.Ready() && |W1.p| >= |N.p| + 1
    modifies W1, T
    ensures Rep(W1, N, BaseUsed(A, N), 1) && |T.p| == old(|T.p|)
  {
    hide Pow, Val, Wp, Cong, Sig;
    hide BaseFits, BaseUsed;
    ghost var a, nn, n := BaseUsed(A, N), N.Abs(), |N.p|;
    BaseBelow(W1, A, N);
    RadixCong(RR.Abs(), n, nn);
    ghost var w := W1.Abs();
    MontMul(W1, RR, N, mm, T);
    StandsFirst(W1.Abs(), w, RR.Abs(), a, n, nn);
  }

  /** Lines 1283-1284: X stands for the empty power. */
  method Zeroth(X: Mpi, RR: Mpi, N: Mpi, mm: limb, T: Mpi, ghost a: nat)
    requires X !in {RR, N, T} && T !in {N, RR} && Modulus(N, mm, T) && X.Ready() && |X.p| >= |N.p| + 1
    requires RR.Ready() && RR.s == 1 && N.Abs() > 0 && RR.Abs() == RadixSquare(N)
    modifies X, T
    ensures Rep(X, N, a, 0) && |T.p| == old(|T.p|) && X.s == 1
  {
    hide Pow, Val, Wp, Cong, Sig;
    ghost var n := |N.p|;
    Copy(X, RR);
    RadixCong(RR.Abs(), n, N.Abs());
    ValBound(N.p);
    MontRed(X, N, mm, T);
    StandsZero(X.Abs(), RR.Abs(), a, n, N.Abs());
  }

  /** Line 1389: out of the Montgomery domain. */
  method Unstand(X: Mpi, N: Mpi, mm: limb, T: Mpi, ghost a: nat, ghost e: nat)
    requires X !in {N, T} && Modulus(N, mm, T) && Rep(X, N, a, e)
    modifies X, T
    ensures X.Ready() && X.s == old(X.s) && X.Abs() == Pow(a, e) % N.Abs()
  {
    hide Pow, Val, Wp, Cong;
    ghost var x, n, nn := X.Abs(), |N.p|, N.Abs();
    ValBound(N.p);
    MontRed(X, N, mm, T);
    CongTrans(X.Abs() * Wp(n), x, Pow(a, e) * Wp(n), nn);
    CancelR(X.Abs(), Pow(a, e), n, nn);
    CongResidue(X.Abs(), Pow(a, e), nn);
  }

  lemma ParityOfLow(s: seq<limb>)
    requires |s| > 0
    ensures Val(s) % 2 == s[0] % 2
  {
    hide Val, Pow, Wp;
    ValSplitFirst(s);
    WEven();
    Associate(2, Pow(2, biL - 1), Val(s[1..]));
  }

  /** Lines 1286-1389: X goes from the empty power to A^|E| mod N. */
  method Exponentiate(X: Mpi, E: Mpi, N: Mpi, mm: limb, T: Mpi, Wt: seq<Mpi>, wsize: nat, ghost a: nat)
    requires T !in {X, N, E} && X !in {N, E} && X !in Wt && N !in Wt && T !in Wt && E !in Wt
    requires Modulus(N, mm, T) && wsize in {1, 3, 4, 5, 6} && Rep(X, N, a, 0)
    requires |Wt| == 64 && (forall k, l :: 0 <= k < l < 64 ==> Wt[k] != Wt[l])
    requires Rep(Wt[1], N, a, 1) && forall k :: 2 <= k < 64 ==> Wt[k].Valid() && Wt[k].p == []
    modifies X, T, Wt
    ensures X.Ready() && X.s == old(X.s) && X.Abs() == Pow(a, E.Abs()) % N.Abs()
  {
    hide Pow, Val, Wp, Cong, Stands;
    BuildTable(Wt, N, mm, T, wsize, a);
    var nbits, wbits, u, v := Scan(X, E, N, mm, T, Wt, wsize, a);
    Tail(X, Wt[1], N, mm, T, wsize, nbits, wbits, a, u, v);
    Unstand(X, N, mm, T, a, E.Abs());
  }

  /** Powers of a number of either sign. */
  function SignedPow(a: int, e: nat): int {
    if a < 0 && e % 2 == 1 then 0 - Pow(Magnitude(a), e) else Pow(Magnitude(a), e)
  }

  lemma SignedPowStep(a: int, e: nat)
    ensures SignedPow(a, 0) == 1 && SignedPow(a, e + 1) == a * SignedPow(a, e)
  {
    var m, p := Magnitude(a), Pow(Magnitude(a), e);
    assert Pow(m, e + 1) == m * p;
    hide Pow;
    Distribute(0, m, p);
    Distribute(0, p, a);
    Distribute(0, p, m);
  }

  lemma {:induction false} CongSignedPow(a: int, b: nat, e: nat, n: nat)
    requires n > 0 && Cong(b, a, n)
    ensures Cong(Pow(b, e), SignedPow(a, e), n)
  {
    hide Cong, SignedPow;
    if e == 0 {
      SignedPowStep(a, 0);
      CongRefl(1, n);
    } else {
      CongSignedPow(a, b, e - 1, n);
      SignedPowStep(a, e - 1);
      CongMul(b, a, Pow(b, e - 1), SignedPow(a, e - 1), n);
    }
  }

  /** Modulo an odd number p and -p leave the same only when both leave nothing. */
  lemma NegatedResidue(p: nat, n: nat)
    requires n % 2 == 1
    ensures p % n == (0 - p) % n <==> p % n == 0
  {
    DivMod(p, n);
    var q, r := p / n, p % n;
    Distribute(0, q + 1, n);
    Distribute(q, 1, n);
    Distribute(0, q, n);
    if r == 0 {
      DivModUnique(0 - p, 0 - q, 0, n);
    } else {
      DivModUnique(0 - p, 0 - (q + 1), n - r, n);
      assert r != n - r;
    }
  }

  /** When the sign of the base does not matter, or is heeded. */
  ghost predicate PowerRight(A: Mpi, e: nat, N: Mpi)
    requires N.Abs() > 0
    reads A, N
  {
    A.Value() >= 0 || CmpBlind(A, N) || e % 2 == 0 || Pow(A.Abs(), e) % N.Abs() == 0
  }

  lemma PowerOfUsed(A: Mpi, e: nat, N: Mpi)
    requires A.Ready() && N.Abs() % 2 == 1
    ensures Pow(BaseUsed(A, N), e) % N.Abs() == SignedPow(A.Value(), e) % N.Abs() <==> PowerRight(A, e, N)
  {
    hide Val, Pow, Sig;
    var n := N.Abs();
    if A.Value() < 0 {
      if CmpBlind(A, N) {
        CongMod(A.Value(), n);
        CongSignedPow(A.Value(), BaseUsed(A, N), e, n);
      } else {
        NegatedResidue(Pow(A.Abs(), e), n);
      }
    }
  }

  lemma UsedIs(A: Mpi, N: Mpi)
    requires A.Ready() && N.Ready() && N.s == 1 && N.Abs() > 0
    ensures CmpBlind(A, N) && A.Value() < 0 <==> A.Value() < 0 && Sig(A.p) < Sig(N.p)
    ensures BaseUsed(A, N) == if A.Value() < 0 && Sig(A.p) < Sig(N.p) then A.Value() % N.Abs() else A.Abs()
    ensures N.Value() == N.Abs()
  {
    hide Val, Sig;
  }

  /**
   * mpi_exp_mod, for every odd N > 0, with or without a cached R^2 mod N: the
   * power of BaseUsed, and exactly when that is A^|E| mod N. X may be A.
   */
  method ExpMod(X: Mpi, A: Mpi, E: Mpi, N: Mpi, C: Mpi?) returns (ret: int)
    requires X.Valid() && A.Ready() && E.Ready() && N.Ready() && X !in {E, N} && C !in {X, N}
    requires BaseFits(A, N) && (C != null ==> Cache(C, N))
    modifies X, C
    ensures ret == if N.Value() < 0 || N.Abs() % 2 == 0 then ERR_MPI_INVALID_PARAMETER else 0
    ensures ret == 0 ==>
      var a, b, e, n := old(A.Value()), old(A.Abs()), old(E.Abs()), N.Abs();
      var reduced := a < 0 && old(Sig(A.p) < Sig(N.p));
      && X.Ready() && X.s == 1
      && X.Abs() == Pow(if reduced then a % n else b, e) % n
      && (X.Abs() == (if a < 0 && e % 2 == 1 then 0 - Pow(b, e) else Pow(b, e)) % n
          <==> a >= 0 || reduced || e % 2 == 0 || Pow(b, e) % n == 0)
    ensures C != null ==> Cache(C, N)
    ensures C != null && ret == 0 ==> C.p != [] && C.s == 1 && C.Abs() == Wp(2 * |N.p|) % N.Abs()
    ensures ret != 0 ==> unchanged(X) && (C != null ==> unchanged(C))
  {
    hide Pow, Val, Wp, Cong, Sig, BitLen, Stands;
    ParityOfLow(N.p);
    var c := CmpInt(N, 0);
    if c < 0 || N.p[0] % 2 == 0 {
      return ERR_MPI_INVALID_PARAMETER;
    }
    var mm := MontgInit(N.p[0]);
    PowerOfUsed(A, E.Abs(), N);
    UsedIs(A, N);
    ExpModOdd(X, A, E, N, C, mm);
    return 0;
  }

  /** Lines 1243-1254. */
  method Workspace(n: nat) returns (T: Mpi, Wt: seq<Mpi>)
    ensures fresh(T) && |T.p| == 2 * (n + 1) && T !in Wt
    ensures |Wt| == 64 && forall k :: 0 <= k < 64 ==> fresh(Wt[k])
    ensures forall k, l :: 0 <= k < l < 64 ==> Wt[k] != Wt[l]
    ensures forall k :: 2 <= k < 64 ==> Wt[k].Valid() && Wt[k].p == []
    ensures Wt[1].Ready() && |Wt[1].p| == n + 1
  {
    hide Val, Sig;
    Wt := NewTable();
    T := new Mpi();
    Grow(Wt[1], n + 1);
    Grow(T, (n + 1) * 2);
  }

  /** Lines 1243-1389, for an odd N > 0. */
  method ExpModOdd(X: Mpi, A: Mpi, E: Mpi, N: Mpi, C: Mpi?, mm: limb)
    requires X.Valid() && A.Ready() && E.Ready() && N.Ready() && X !in {E, N} && C !in {X, N}
    requires BaseFits(A, N) && (C != null ==> Cache(C, N))
    requires N.s == 1 && N.Abs() % 2 == 1 && Cong(mm * N.p[0], -1, W)
    modifies X, C
    ensures X.Ready() && X.s == 1 && X.Abs() == Pow(old(BaseUsed(A, N)), old(E.Abs())) % N.Abs()
    ensures C != null ==> Cache(C, N) && C.p != []
  {
    hide Pow, Val, Wp, Cong, Sig, BitLen, Stands;
    ghost var a := BaseUsed(A, N);
    var T, Wt := Workspace(|N.p|);
    var i := Size(E);
    var wsize := WindowSize(i);
    Grow(X, |N.p| + 1);
    var RR := Radix(C, N);
    assert BaseFits(A, N) && BaseUsed(A, N) == a;
    hide BaseFits, BaseUsed;
    ExpFrom(X, RR, A, E, N, mm, T, Wt, wsize);
  }

  /** Lines 1271-1389, from R^2 mod N. */
  method ExpFrom(X: Mpi, RR: Mpi, A: Mpi, E: Mpi, N: Mpi, mm: limb, T: Mpi, Wt: seq<Mpi>, wsize: nat)
    requires A.Ready() && BaseFits(A, N) && E.Ready() && N.Ready() && N.s == 1
    requires T !in {X, N, E, A, RR} && X !in {N, E, RR} && X !in Wt && T !in Wt && RR !in Wt
    requires N !in Wt && E !in Wt && A !in Wt
    requires Modulus(N, mm, T) && wsize in {1, 3, 4, 5, 6} && X.Ready() && |X.p| >= |N.p| + 1
    requires RR.Ready() && RR.s == 1 && N.Abs() > 0 && RR.Abs() == RadixSquare(N)
    requires |Wt| == 64 && (forall k, l :: 0 <= k < l < 64 ==> Wt[k] != Wt[l])
    requires Wt[1].Ready() && |Wt[1].p| == |N.p| + 1
    requires forall k :: 2 <= k < 64 ==> Wt[k].Valid() && Wt[k].p == []
    modifies X, T, Wt
    ensures X.Ready() && X.s == 1 && X.Abs() == Pow(old(BaseUsed(A, N)), old(E.Abs())) % N.Abs()
  {
    hide Pow, Val, Wp, Cong, Sig, BitLen, Stands, BaseFits, BaseUsed;
    ghost var a := BaseUsed(A, N);
    First(Wt[1], RR, A, N, mm, T);
    Zeroth(X, RR, N, mm, T, a);
    Exponentiate(X, E, N, mm, T, Wt, wsize, a);
  }
}
