/**
 * mpi_mod_int (src/bootloader/myboot/bignum.c, lines 1119-1155): the remainder
 * by a small integer, half a limb at a time.
 */
module ModInts {
  import opened Arith
  import opened Bits
  import opened Limbs
  import opened Mpis
  import opened Shift
  import opened Division

  /** 2^biH, the weight of half a limb. */
  const H: nat := Pow2(biL / 2)

  lemma HalfWeight()
    ensures W == H * H && H >= 256
  {
    hide Pow;
    Pow2Add(biL / 2, biL / 2);
    WIsPow2(biL / 2);
    Pow2Mono(8, biL / 2);
    EightBits();
  }

  lemma EightBits()
    ensures Pow2(8) == 256
  {}

  /** (y << biH) | h in one limb. */
  function ShiftIn(y: nat, h: nat): (r: nat) {
    Or((y * H) % W, h)
  }

  /** y = (y << biH) | h, then y -= (y / b) * b. */
  function HalfStep(y: nat, h: nat, b: nat): (r: nat)
    requires b > 0
  {
    ShiftIn(y, h) % b
  }

  function LimbStep(y: nat, x: limb, b: nat): (r: nat)
    requires b > 0
  {
    HalfStep(HalfStep(y, x / H, b), x % H, b)
  }

  /** The loop over the limbs, top limb first. */
  function Loop(s: seq<limb>, b: nat): (r: nat)
    requires b > 0
    decreases |s|
  {
    if s == [] then 0 else LimbStep(Loop(s[1..], b), s[0], b)
  }

  /** What mpi_mod_int computes for a positive b. */
  function Remainder(s: seq<limb>, b: nat): (r: nat)
    requires b > 0 && |s| > 0
  {
    if b == 1 then 0 else if b == 2 then s[0] % 2 else Loop(s, b)
  }

  lemma HalvesBound(x: limb)
    ensures x == (x / H) * H + x % H && x % H < H && x / H < H
  {
    hide Pow, Pow2;
    HalfWeight();
    DivMod(x, H);
    if x / H >= H {
      MulLe2(H, x / H, H);
    }
  }

  /** y * 2^biH + h, without a bound. */
  function Join(y: nat, h: nat): (r: nat) {
    MulNonneg(y, H);
    y * H + h
  }

  /** The shifted value has room for the half limb beside it, but loses its own top half. */
  lemma ShiftInValue(y: nat, h: nat)
    requires h < H
    ensures ShiftIn(y, h) == Join(y % H, h)
  {
    hide Pow, Pow2, Or;
    HalfWeight();
    DivMod(y, H);
    Distribute((y / H) * H, y % H, H);
    Associate(y / H, H, H);
    MulLt(y % H, H, H);
    MulNonneg(y % H, H);
    DivModUnique(y * H, y / H, (y % H) * H, W);
    OrShifted(y % H, biL / 2, h);
  }

  predicate ModExact(b: nat) {
    b > 0 && (b <= H || W % b == 0)
  }

  lemma TopHalfDivides(y: nat, h: nat, b: nat)
    requires b > 0 && W % b == 0
    ensures Join(y % H, h) % b == Join(y, h) % b
  {
    HalfWeight();
    hide Pow, Pow2;
    var q := W / b;
    DivMod(W, b);
    DivMod(y, H);
    Distribute((y / H) * H, y % H, H);
    Associate(y / H, H, H);
    Associate(y / H, q, b);
    var z := Join(y % H, h);
    assert Join(y, h) == z + ((y / H) * q) * b;
    AddMultiple(z, (y / H) * q, b);
  }

  lemma HalfStepExact(y: nat, h: nat, b: nat)
    requires ModExact(b) && b > 0 && y < b && h < H
    ensures HalfStep(y, h, b) == Join(y, h) % b
  {
    hide Pow, Pow2, Or, ShiftIn, Join;
    ShiftInValue(y, h);
    if b <= H {
      DivModUnique(y, 0, y, H);
    } else {
      TopHalfDivides(y, h, b);
    }
  }

  lemma AddMultiple(z: int, k: int, b: nat)
    requires b > 0
    ensures (z + k * b) % b == z % b
  {
    DivMod(z, b);
    Distribute(z / b, k, b);
    DivModUnique(z + k * b, z / b + k, z % b, b);
  }

  lemma JoinMod(v: nat, h: nat, b: nat)
    requires b > 0
    ensures v % b < b && Join(v % b, h) % b == Join(v, h) % b
  {
    hide Pow, Pow2;
    DivMod(v, b);
    var q, r := v / b, v % b;
    Distribute(q * b, r, H);
    Associate(q, b, H);
    Associate(q, H, b);
    Associate(b, q, H);
    assert Join(v, h) == Join(r, h) + (q * H) * b;
    AddMultiple(Join(r, h), q * H, b);
  }

  lemma JoinTwice(v: nat, x: limb)
    ensures Join(Join(v, x / H), x % H) == x + W * v
  {
    hide Pow, Pow2;
    HalvesBound(x);
    HalfWeight();
    Distribute(v * H, x / H, H);
    Associate(v, H, H);
  }

  lemma LimbStepExact(v: nat, x: limb, b: nat)
    requires ModExact(b) && b > 0
    ensures v % b < b && LimbStep(v % b, x, b) == (x + W * v) % b
  {
    hide Pow, Pow2, HalfStep, ModExact, Join;
    HalvesBound(x);
    var h, l := x / H, x % H;
    JoinMod(v, h, b);
    HalfStepExact(v % b, h, b);
    var u := Join(v, h);
    JoinMod(u, l, b);
    HalfStepExact(u % b, l, b);
    JoinTwice(v, x);
  }

  lemma {:induction false} LoopExact(s: seq<limb>, b: nat)
    requires ModExact(b) && b > 0
    ensures Loop(s, b) == Val(s) % b
    decreases |s|
  {
    hide Pow, Pow2, LimbStep, ModExact;
    if s == [] {
      DivModUnique(0, 0, 0, b);
    } else {
      ValSplitFirst(s);
      LoopExact(s[1..], b);
      hide Val;
      LimbStepExact(Val(s[1..]), s[0], b);
    }
  }

  lemma RemainderWorks(s: seq<limb>, b: nat)
    requires ModExact(b) && b > 0 && |s| > 0
    ensures Remainder(s, b) == Val(s) % b
  {
    hide Pow, Pow2;
    if b == 1 {
      DivModUnique(Val(s), Val(s), 0, 1);
    } else if b == 2 {
      ParityVal(s);
    } else {
      LoopExact(s, b);
    }
  }

  lemma ParityVal(s: seq<limb>)
    requires |s| > 0
    ensures Val(s) % 2 == s[0] % 2
  {
    ValSplitFirst(s);
    WEven();
    hide Val, Pow;
    EvenMultiple(s[0], Pow(2, biL - 1), Val(s[1..]));
  }

  lemma EvenMultiple(x: int, k: int, v: int)
    ensures (x + (2 * k) * v) % 2 == x % 2
  {
    Associate(2, k, v);
    AddMultiple(x, k * v, 2);
  }

  /** The number W is already wrong for any other divisor: the top half limb is shifted out. */
  lemma RemainderFails(b: nat)
    requires 0 < b < W && !ModExact(b)
    ensures Remainder([0, 1], b) == 0 && Val([0, 1]) == W && W % b != 0
  {
    hide Pow, Pow2, Or, ShiftIn;
    HalfWeight();
    var s: seq<limb> := [0, 1];
    ValSplitFirst(s);
    ValSplitFirst(s[1..]);
    assert s[1..][1..] == [] && s[1..] == [1];
    hide Val;
    DivModUnique(1, 0, 1, H);
    DivModUnique(0, 0, 0, H);
    DivModUnique(H, 1, 0, H);
    ShiftInValue(0, 0);
    ShiftInValue(0, 1);
    ShiftInValue(1, 0);
    ShiftInValue(H, 0);
    DivModUnique(0, 0, 0, b);
    DivModUnique(1, 0, 1, b);
    DivModUnique(H, 0, H, b);
    assert Loop([], b) == 0;
    assert Loop([1], b) == 1;
    assert Loop(s, b) == 0;
  }

  /** For divisors of one limb, the result is right for all numbers exactly when ModExact holds. */
  lemma RemainderExactly(b: nat)
    requires 0 < b < W
    ensures ModExact(b) <==> forall s: seq<limb> :: |s| > 0 ==> Remainder(s, b) == Val(s) % b
  {
    hide Remainder, Val, ModExact;
    if ModExact(b) {
      forall s: seq<limb> | |s| > 0 ensures Remainder(s, b) == Val(s) % b {
        RemainderWorks(s, b);
      }
    } else {
      RemainderFails(b);
      var s: seq<limb> := [0, 1];
      assert Remainder(s, b) != Val(s) % b;
    }
  }

  method ModInt(A: Mpi, b0: int) returns (ret: int, r: nat)
    requires A.Ready() && OneLimb(b0)
    ensures ret == if b0 == 0 then ERR_MPI_DIVISION_BY_ZERO else 0
    ensures ret == 0 ==> r == Remainder(A.p, if b0 < 0 then -b0 else b0)
  {
    hide Val, Pow, Pow2, Or, ShiftIn;
    ret, r := 0, 0;
    if b0 == 0 {
      return ERR_MPI_DIVISION_BY_ZERO, 0;
    }
    var b := if b0 < 0 then -b0 else b0;
    if b == 1 {
      return 0, 0;
    }
    if b == 2 {
      return 0, A.p[0] % 2;
    }
    var i, y := |A.p| - 1, 0;
    while i >= 0
      invariant -1 <= i < |A.p|
      invariant y == Loop(A.p[i + 1..], b)
    {
      var x := A.p[i];
      HalvesBound(x);
      assert A.p[i..][1..] == A.p[i + 1..];
      y := ShiftIn(y, x / H);
      var z := y / b;
      SubtractQuotient(y, b);
      y := y - z * b;
      // x <<= biH; x >> biH is the low half.
      y := ShiftIn(y, x % H);
      z := y / b;
      SubtractQuotient(y, b);
      y := y - z * b;
      i := i - 1;
    }
    assert A.p[0..] == A.p;
    r := y;
  }

  lemma SubtractQuotient(y: nat, b: nat)
    requires b > 0
    ensures y - (y / b) * b == y % b
  {
    DivMod(y, b);
  }
}
