/**
 * The RSA public and private operations
 * (src/bootloader/myboot/rsa.c, lines 105-201).
 */
module Rsa {
  import opened Arith
  import opened Bits
  import opened Modular
  import opened Limbs
  import opened Mpis
  import opened AddSub
  import opened Mul
  import opened Division
  import opened Exponentiation
  import opened Octets
  import opened NumberTheory

  const ERR_RSA_BAD_INPUT_DATA := 0x0300
  const ERR_RSA_INVALID_PADDING := 0x0310
  const ERR_RSA_PUBLIC_FAILED := 0x0340
  const ERR_RSA_PRIVATE_FAILED := 0x0350
  const ERR_RSA_VERIFY_FAILED := 0x0360

  /** A number with sign +1. */
  ghost predicate Positive(X: Mpi)
    reads X
  {
    X.Ready() && X.s == 1
  }

  /** rsa_context: the key numbers and the three caches of R^2. */
  class RsaContext {
    var len: int
    const N: Mpi
    const E: Mpi
    const D: Mpi
    const P: Mpi
    const Q: Mpi
    const DP: Mpi
    const DQ: Mpi
    const QP: Mpi
    const RN: Mpi
    const RP: Mpi
    const RQ: Mpi

    constructor (len: int, N: Mpi, E: Mpi, D: Mpi, P: Mpi, Q: Mpi, DP: Mpi, DQ: Mpi, QP: Mpi, RN: Mpi, RP: Mpi, RQ: Mpi)
      ensures this.len == len && this.N == N && this.E == E && this.D == D && this.P == P && this.Q == Q
      ensures this.DP == DP && this.DQ == DQ && this.QP == QP && this.RN == RN && this.RP == RP && this.RQ == RQ
    {
      this.len, this.N, this.E, this.D, this.P, this.Q := len, N, E, D, P, Q;
      this.DP, this.DQ, this.QP, this.RN, this.RP, this.RQ := DP, DQ, QP, RN, RP, RQ;
    }

    ghost function Numbers(): set<Mpi> {
      {N, E, D, P, Q, DP, DQ, QP}
    }

    ghost function Caches(): set<Mpi> {
      {RN, RP, RQ}
    }

    /** The public half: a positive modulus and an exponent. */
    ghost predicate Public()
      reads this, N, E, RN
    {
      N.Ready() && N.s == 1 && N.Abs() > 0 && E.Ready() && Cache(RN, N) && RN !in {N, E}
    }

    /** A complete key as key generation leaves it. */
    ghost predicate Key()
      reads this, N, E, D, P, Q, DP, DQ, QP, RN, RP, RQ
    {
      && Public() && len == ByteLen(N.Abs())
      && Positive(E) && Positive(D) && Positive(P) && Positive(Q) && Positive(DP) && Positive(DQ) && Positive(QP)
      && RN !in Numbers() && RP !in Numbers() && RQ !in Numbers() && RN != RP && RN != RQ && RP != RQ
      && P.Abs() > 0 && Q.Abs() > 0 && Cache(RP, P) && Cache(RQ, Q)
      && KeyNumbers(N.Abs(), E.Abs(), D.Abs(), P.Abs(), Q.Abs(), DP.Abs(), DQ.Abs(), QP.Abs())
    }
  }

  /** x^e modulo n, the operation on numbers. */
  ghost function Power(x: nat, e: nat, n: nat): nat
    requires n > 0
  {
    Pow(x, e) % n
  }

  /** The two error groups do not overlap the mpi codes. */
  lemma OrCodes(mpi: nat)
    requires mpi < 16
    ensures Or(ERR_RSA_PUBLIC_FAILED, mpi) == ERR_RSA_PUBLIC_FAILED + mpi
    ensures Or(ERR_RSA_PRIVATE_FAILED, mpi) == ERR_RSA_PRIVATE_FAILED + mpi
  {
    assert Pow2(4) == 16 by {
      SmallPowers();
    }
    OrDisjoint(0x34, 4, mpi);
    OrDisjoint(0x35, 4, mpi);
  }

  /**
   * rsa_public: the number in the input, raised to E modulo N, in olen bytes.
   * Input and output may be the same buffer.
   */
  method RsaPublic(ctx: RsaContext, input: array<byte>, ilen: nat, output: array<byte>, olen: nat)
    returns (ret: int, olen': nat)
    requires ctx.Public() && ilen <= input.Length && olen <= output.Length
    modifies ctx.RN, output
    ensures ctx.Public()
    ensures var x, n := BytesVal(old(input[..ilen])), ctx.N.Abs();
            var y := Pow(x, ctx.E.Abs()) % n;
            && ret == (if x >= n then ERR_RSA_BAD_INPUT_DATA
                       else if n % 2 == 0 then ERR_RSA_PUBLIC_FAILED + ERR_MPI_INVALID_PARAMETER
                       else if y >= Pow2(8 * olen) then ERR_RSA_PUBLIC_FAILED + ERR_MPI_BUFFER_TOO_SMALL
                       else 0)
            && (ret == 0 ==> olen' == olen && BytesVal(output[..olen]) == y)
    ensures output[olen..] == old(output[olen..])
    ensures ret != 0 ==> output[..] == old(output[..])
  {
    hide Val, Sig, Pow, Pow2, BytesVal, BitLen, Or, Wp;
    OrCodes(ERR_MPI_INVALID_PARAMETER);
    OrCodes(ERR_MPI_BUFFER_TOO_SMALL);
    var T := new Mpi();
    Import(T, input, ilen);
    var c := CmpMpi(T, ctx.N);
    if c >= 0 {
      return ERR_RSA_BAD_INPUT_DATA, olen;
    }
    ret := ExpMod(T, T, ctx.E, ctx.N, ctx.RN);
    if ret != 0 {
      return Or(ERR_RSA_PUBLIC_FAILED, ret), olen;
    }
    ret, olen' := Export(T, output, olen);
    if ret != 0 {
      return Or(ERR_RSA_PUBLIC_FAILED, ret), olen';
    }
    return 0, olen';
  }

  /** A key's numbers as mpi magnitudes; the context's fields are its arguments. */
  lemma KeyFacts(ctx: RsaContext)
    requires ctx.Key()
    ensures ctx.P.Abs() % 2 == 1 && ctx.Q.Abs() % 2 == 1 && ctx.QP.Abs() > 0
    ensures ctx.N.Abs() == ctx.P.Abs() * ctx.Q.Abs() && ctx.N.Abs() % 2 == 1
  {
    hide Val, Pow, Wp;
    var p, q := ctx.P.Abs(), ctx.Q.Abs();
    OddOdd(p, q);
    InverseNonzero(q, ctx.QP.Abs(), p);
  }

  lemma InverseNonzero(q: nat, qp: nat, p: nat)
    requires Prime(p) && Cong(q * qp, 1, p)
    ensures qp > 0
  {
    if qp == 0 {
      CongUnique(0, 1, p);
    }
  }

  /** The product T * Q never leaves a carry stuck in the shorter T2. */
  lemma RecombinationNeverSticks(X: Mpi, A: Mpi, B: Mpi, h: nat, q: nat)
    requires X !in {A, B} && B.Abs() == h * q && A.Abs() < q
    ensures !AddSticks(X, A, B)
  {
    hide Val, Pow, Wp;
    var n := AddCase(X, A, B).0;
    SigVal(B.p);
    SigVal(A.p);
    if h == 0 {
      assert 0 * q == 0;
      assert Sig(B.p) == 0;
      WpStep(0);
      ValZeros(A.p[..0]);
    } else {
      MulLe2(1, h, q);
      if Sig(B.p) < Sig(A.p) {
        SigOrder(B.p, A.p);
      }
      NoStickWhenShorter(n, A.p, B.p);
    }
  }

  /** Lines 180-188: T = T2 + ((T1 - T2) * QP mod P) * Q. */
  method Garner(T: Mpi, T1: Mpi, T2: Mpi, QP: Mpi, P: Mpi, Q: Mpi)
    requires T !in {T1, T2, QP, P, Q} && T1 !in {T2, QP, P, Q} && T2 !in {P, Q, QP}
    requires T.Valid() && T1.Ready() && T1.s == 1 && T2.Ready() && T2.s == 1
    requires QP.Ready() && QP.s == 1 && QP.Abs() > 0 && P.Ready() && P.s == 1 && P.Abs() > 0
    requires Q.Ready() && Q.s == 1 && T2.Abs() < Q.Abs()
    modifies T, T1
    ensures T.Ready() && T.Value() == Recombine(old(T1.Abs()), T2.Abs(), P.Abs(), Q.Abs(), QP.Abs())
  {
    hide Val, Sig, AddSticks, AddLoss, Wp, Pow;
    ghost var t1: int, t2: int, qp := T1.Abs(), T2.Abs(), QP.Abs();
    SubMpi(T, T1, T2);
    assert T.Value() == t1 - t2;
    ProductNotNegativeZero(T.s, T.Abs(), qp);
    MulMpi(T1, T, QP);
    assert T1.Value() == (t1 - t2) * qp;
    var r := ModMpi(T, T1, P);
    MulMpi(T1, T, Q);
    RecombinationNeverSticks(T, T2, T1, T.Abs(), Q.Abs());
    AddMpi(T, T2, T1);
  }

  lemma ProductNotNegativeZero(s: int, a: nat, b: nat)
    requires b > 0 && (a == 0 ==> s == 1)
    ensures a * b == 0 ==> s * 1 == 1
  {
    if a > 0 {
      MulLe2(1, a, b);
    }
  }

  /**
   * rsa_private: the number in the input, raised to D modulo N, computed from
   * the two half-size powers.
   */
  method RsaPrivate(ctx: RsaContext, input: array<byte>, ilen: nat, output: array<byte>, olen: nat)
    returns (ret: int, olen': nat)
    requires ctx.Key() && ilen <= input.Length && olen <= output.Length
    modifies ctx.RP, ctx.RQ, output
    ensures ctx.Key()
    ensures var x, n := BytesVal(old(input[..ilen])), ctx.N.Abs();
            var y := Pow(x, ctx.D.Abs()) % n;
            && ret == (if x >= n then ERR_RSA_BAD_INPUT_DATA
                       else if y >= Pow2(8 * olen) then ERR_RSA_PRIVATE_FAILED + ERR_MPI_BUFFER_TOO_SMALL
                       else 0)
            && (ret == 0 ==> olen' == olen && BytesVal(output[..olen]) == y)
    ensures output[olen..] == old(output[olen..])
    ensures ret != 0 ==> output[..] == old(output[..])
  {
    hide Val, Sig, Pow, Pow2, BytesVal, BitLen, Or, Wp, KeyNumbers;
    OrCodes(ERR_MPI_BUFFER_TOO_SMALL);
    var T := new Mpi();
    Import(T, input, ilen);
    var c := CmpMpi(T, ctx.N);
    if c >= 0 {
      return ERR_RSA_BAD_INPUT_DATA, olen;
    }
    PrivatePower(ctx, T);
    ret, olen' := Export(T, output, olen);
    if ret != 0 {
      return Or(ERR_RSA_PRIVATE_FAILED, ret), olen';
    }
    return 0, olen';
  }

  /** For a complete key the recombined half powers are the whole power. */
  lemma WholePower(ctx: RsaContext, x: nat)
    requires ctx.Key()
    ensures ctx.P.Abs() > 0 && ctx.Q.Abs() > 0 && ctx.QP.Abs() > 0 && ctx.N.Abs() > 0
    ensures Recombine(Pow(x, ctx.DP.Abs()) % ctx.P.Abs(), Pow(x, ctx.DQ.Abs()) % ctx.Q.Abs(),
                      ctx.P.Abs(), ctx.Q.Abs(), ctx.QP.Abs()) == Power(x, ctx.D.Abs(), ctx.N.Abs())
  {
    hide Val, Pow, Wp, KeyNumbers, Cache, Recombine;
    KeyFacts(ctx);
    CrtPower(x, ctx.N.Abs(), ctx.E.Abs(), ctx.D.Abs(), ctx.P.Abs(), ctx.Q.Abs(),
             ctx.DP.Abs(), ctx.DQ.Abs(), ctx.QP.Abs());
  }

  /** Lines 174-188. */
  method PrivatePower(ctx: RsaContext, T: Mpi)
    requires ctx.Key() && T !in ctx.Numbers() + ctx.Caches() && T.Ready() && T.s == 1
    modifies T, ctx.RP, ctx.RQ
    ensures ctx.Key() && T.Ready() && T.Value() == T.Abs() == Power(old(T.Abs()), ctx.D.Abs(), ctx.N.Abs())
  {
    hide Val, Sig, Pow, Wp, KeyNumbers, Cache, Recombine, Power;
    KeyFacts(ctx);
    ghost var x := T.Abs();
    var T1 := new Mpi();
    var T2 := new Mpi();
    HalfPowers(ctx, T, T1, T2);
    WholePower(ctx, x);
    Garner(T, T1, T2, ctx.QP, ctx.P, ctx.Q);
  }

  /** Lines 174-175. */
  method HalfPowers(ctx: RsaContext, T: Mpi, T1: Mpi, T2: Mpi)
    requires ctx.Key() && ctx.P.Abs() % 2 == 1 && ctx.Q.Abs() % 2 == 1
    requires {T, T1, T2} !! (ctx.Numbers() + ctx.Caches()) && T !in {T1, T2} && T1 != T2
    requires T.Ready() && T.s == 1 && T1.Valid() && T2.Valid()
    modifies ctx.RP, ctx.RQ, T1, T2
    ensures ctx.Key()
    ensures T1.Ready() && T1.s == 1 && T1.Abs() == Pow(T.Abs(), ctx.DP.Abs()) % ctx.P.Abs()
    ensures T2.Ready() && T2.s == 1 && T2.Abs() == Pow(T.Abs(), ctx.DQ.Abs()) % ctx.Q.Abs()
  {
    hide Val, Sig, Pow, Wp, KeyNumbers, Cache, BitLen;
    var r := ExpMod(T1, T, ctx.DP, ctx.P, ctx.RP);
    r := ExpMod(T2, T, ctx.DQ, ctx.Q, ctx.RQ);
  }
}
