/**
 * Numbers as text (src/bootloader/myboot/bignum.c, lines 162-321): mpi_read and
 * mpi_showf in the radices 2 to 16.
 */
module Texts {
  import opened Arith
  import opened Bits
  import opened Limbs
  import opened Mpis
  import opened AddSub
  import opened Mul
  import opened Shift
  import opened Division
  import opened ModInts
  import opened Octets

  type Text = seq<nat>  // character codes

  const MINUS: nat := 0x2D
  const SPACE: nat := 0x20
  const NEWLINE: nat := 0x0A

  const ERR_MPI_INVALID_CHARACTER := 0x0002
  const ERR_MPI_INVALID_PARAMETER := 0x0004

  // ---- digits ----

  function Digits(x: nat, radix: nat): (ds: seq<nat>)
    requires radix >= 2
    ensures |ds| > 0 && forall k :: 0 <= k < |ds| ==> ds[k] < radix
    decreases x
  {
    if x < radix then [x] else
      DivLe(x, radix);
      Smaller(x, radix);
      Digits(x / radix, radix) + [x % radix]
  }

  lemma Smaller(x: nat, radix: nat)
    requires radix >= 2 && x > 0
    ensures 0 <= x / radix < x
  {
    DivMod(x, radix);
    MulLe2(2, radix, x / radix);
  }

  function Number(ds: seq<nat>, radix: nat): (x: nat)
    decreases |ds|
  {
    if ds == [] then 0 else
      MulNonneg(Number(ds[..|ds| - 1], radix), radix);
      Number(ds[..|ds| - 1], radix) * radix + ds[|ds| - 1]
  }

  /** The place values. */
  lemma NumberSnoc(ds: seq<nat>, d: nat, radix: nat)
    ensures Number([], radix) == 0
    ensures Number(ds + [d], radix) == Number(ds, radix) * radix + d
  {
    assert (ds + [d])[..|ds|] == ds;
  }

  lemma {:induction false} NumberOfDigits(x: nat, radix: nat)
    requires radix >= 2
    ensures Number(Digits(x, radix), radix) == x
    decreases x
  {
    if x < radix {
      NumberSnoc([], x, radix);
      assert [] + [x] == [x];
    } else {
      Smaller(x, radix);
      NumberOfDigits(x / radix, radix);
      NumberSnoc(Digits(x / radix, radix), x % radix, radix);
      DivMod(x, radix);
    }
  }

  /** No more digits than it takes. */
  lemma {:induction false} NoLeadingZero(x: nat, radix: nat)
    requires radix >= 2
    ensures |Digits(x, radix)| == 1 || Digits(x, radix)[0] != 0
    decreases x
  {
    if x >= radix {
      Smaller(x, radix);
      NoLeadingZero(x / radix, radix);
      if x / radix < radix {
        DivMod(x, radix);
        MulLe2(0, x / radix, radix);
      }
    }
  }

  // ---- characters ----

  function DigitChar(d: nat): nat {
    if d < 10 then d + 0x30 else d + 0x37
  }

  /** mpi_get_digit; 16 for a character that is no digit. */
  function GetDigit(c: nat): (d: nat)
    ensures d <= 16
  {
    if 0x61 <= c <= 0x66 then c - 0x57
    else if 0x41 <= c <= 0x46 then c - 0x37
    else if 0x30 <= c <= 0x39 then c - 0x30
    else 16
  }

  /** What these 22 characters are worth: the letters 10 to 15 in either case; and what is shown of them. */
  lemma DigitValues()
    ensures forall i :: 0 <= i < 22 ==>
      GetDigit("0123456789ABCDEFabcdef"[i] as int) == if i < 16 then i else i - 6
    ensures forall d :: 0 <= d < 16 ==> DigitChar(d) == "0123456789ABCDEF"[d] as int
  {
  }

  /** The digits are these 22 characters and no others. */
  lemma DigitsAre()
    ensures forall c: nat ::
      GetDigit(c) < 16 <==> exists i :: 0 <= i < 22 && c == "0123456789ABCDEFabcdef"[i] as int
  {
    forall c: nat
      ensures GetDigit(c) < 16 <==> exists i :: 0 <= i < 22 && c == "0123456789ABCDEFabcdef"[i] as int
    {
      if GetDigit(c) < 16 {
        var i := if c < 0x41 then c - 0x30 else if c < 0x61 then c - 0x37 else c - 0x51;
        assert c == "0123456789ABCDEFabcdef"[i] as int;
      }
    }
  }

  function Chars(ds: seq<nat>): (t: Text)
    ensures |t| == |ds| && forall k :: 0 <= k < |ds| ==> t[k] == DigitChar(ds[k])
  {
    seq(|ds|, k requires 0 <= k < |ds| => DigitChar(ds[k]))
  }

  function Parsed(t: Text): (ds: seq<nat>)
    ensures |ds| == |t| && forall k :: 0 <= k < |t| ==> ds[k] == GetDigit(t[k])
  {
    seq(|t|, k requires 0 <= k < |t| => GetDigit(t[k]))
  }

  lemma CharsConcat(a: seq<nat>, b: seq<nat>)
    ensures Chars(a + b) == Chars(a) + Chars(b)
  {
  }

  lemma ParsedChars(ds: seq<nat>)
    requires forall k :: 0 <= k < |ds| ==> ds[k] < 16
    ensures Parsed(Chars(ds)) == ds
  {
  }

  // ---- mpi_showf ----

  /** The digits mpi_showf prints: two hexadecimal ones a byte, or as few as needed. */
  function ShownDigits(x: nat, radix: nat): (ds: seq<nat>)
    requires radix >= 2
    ensures forall k :: 0 <= k < |ds| ==> ds[k] < radix
  {
    if radix == 16 then HexPairs(x) else Digits(x, radix)
  }

  function HexPairs(x: nat): (ds: seq<nat>)
    ensures |ds| > 0 && forall k :: 0 <= k < |ds| ==> ds[k] < 16
    decreases x
  {
    var pair := [x % 256 / 16, x % 16];
    if x < 256 then pair else HexPairs(x / 256) + pair
  }

  /** Whole bytes, and no more of them than it takes. */
  lemma {:induction false} NoLeadingPair(x: nat)
    ensures var ds := HexPairs(x); |ds| % 2 == 0 && (|ds| == 2 || ds[0] != 0 || ds[1] != 0)
    decreases x
  {
    if x >= 256 {
      NoLeadingPair(x / 256);
    }
  }

  lemma Nibbles(x: nat)
    ensures ((x / 256) * 16 + x % 256 / 16) * 16 + x % 16 == x
    ensures x < 256 ==> x / 256 == 0
  {
    var a, r := x / 256, x % 256;
    var b, c := r / 16, r % 16;
    assert x == (a * 16 + b) * 16 + c;
    DivModUnique(x, a * 16 + b, c, 16);
  }

  lemma {:induction false} NumberOfPairs(x: nat)
    ensures Number(HexPairs(x), 16) == x
    decreases x
  {
    hide Number, HexPairs;
    Nibbles(x);
    PairsUnfold(x);
    var a, b := x % 256 / 16, x % 16;
    var front := if x < 256 then [] else HexPairs(x / 256);
    NumberNone();
    if x >= 256 {
      NumberOfPairs(x / 256);
    }
    NumberSnoc(front, a, 16);
    NumberSnoc(front + [a], b, 16);
    assert front + [a, b] == front + [a] + [b];
  }

  lemma PairsUnfold(x: nat)
    ensures HexPairs(x) == (if x < 256 then [] else HexPairs(x / 256)) + [x % 256 / 16, x % 16]
  {
  }

  lemma NumberOfShown(x: nat, radix: nat)
    requires radix >= 2
    ensures Number(ShownDigits(x, radix), radix) == x
  {
    NumberOfDigits(x, radix);
    NumberOfPairs(x);
  }

  lemma SmallRadix(radix: nat)
    requires 2 <= radix <= 16
    ensures ModExact(radix) && OneLimb(radix)
  {
    hide Pow, Pow2;
    HalfWeight();
    WBound();
  }

  /** mpi_recurse_showf: the text comes out high digit first, and X ends as zero. */
  method RecurseShow(X: Mpi, radix: int) returns (ret: int, text: Text)
    requires X.Ready()
    modifies X
    ensures ret == if 2 <= radix <= 16 then 0 else ERR_MPI_INVALID_PARAMETER
    ensures ret == 0 ==> text == Chars(Digits(old(X.Abs()), radix))
    decreases X.Abs()
  {
    hide Val, Pow, Pow2, Remainder, Number, TMod, TDiv, Chars, ModExact, Digits, DigitChar;
    text := [];
    if radix < 2 || radix > 16 {
      return ERR_MPI_INVALID_PARAMETER, text;
    }
    ghost var x: nat := X.Abs();
    SmallRadix(radix);
    var r: nat;
    ret, r := ModInt(X, radix);
    RemainderWorks(X.p, radix);
    ret := DivInt(X, null, X, radix);
    DigitsStep(x, radix);
    ghost var q: nat := x / radix;
    assert X.Abs() == q && r == x % radix;
    var c := CmpInt(X, 0);
    ghost var front: seq<nat> := [];
    if c != 0 {
      Smaller(x, radix);
      front := Digits(q, radix);
      ret, text := RecurseShow(X, radix);
    }
    CharsConcat(front, [r]);
    OneChar(r);
    text := text + [DigitChar(r)];
    ret := 0;
  }

  lemma OneChar(r: nat)
    ensures Chars([r]) == [DigitChar(r)]
  {
  }

  lemma DigitsStep(x: nat, radix: nat)
    requires radix >= 2
    ensures x / radix >= 0 && x % radix >= 0
    ensures Digits(x, radix) == (if x / radix != 0 then Digits(x / radix, radix) else []) + [x % radix]
  {
    DivMod(x, radix);
    if x < radix {
      DivModUnique(x, 0, x, radix);
    } else if x / radix == 0 {
      assert false;
    }
  }

  // ---- the hexadecimal form ----

  lemma BytePrefix(x: nat, t: nat)
    ensures x / Pow2(8 * t) >= 0 && x / Pow2(8 * (t + 1)) >= 0
    ensures x / Pow2(8 * t) == (x / Pow2(8 * (t + 1))) * 256 + (x / Pow2(8 * t)) % 256
  {
    hide Pow, Pow2;
    Pow2Byte(t);
    var p := Pow2(8 * t);
    DivLe(x, p);
    DivLe(x, Pow2(8 * (t + 1)));
    DivMod(x, p);
    var q := x / p;
    DivMod(q, 256);
    Distribute((q / 256) * 256, q % 256, p);
    Associate(q / 256, 256, p);
    DigitBound(x % p, q % 256, 256, p);
    DivModUnique(x, q / 256, (q % 256) * p + x % p, 256 * p);
  }

  lemma PairsStep(x: nat, k: nat)
    requires k < 256
    ensures HexPairs(x * 256 + k) == (if x == 0 then [] else HexPairs(x)) + [k / 16, k % 16]
  {
    DivModUnique(x * 256 + k, x, k, 256);
  }

  /** x without its t low bytes. */
  function Front(x: nat, t: nat): (r: nat) {
    DivLe(x, Pow2(8 * t));
    x / Pow2(8 * t)
  }

  lemma FrontStep(x: nat, t: nat, k: nat)
    requires k == (x / Pow2(8 * t)) % 256
    ensures k < 256 && Front(x, t) == Front(x, t + 1) * 256 + k
  {
    BytePrefix(x, t);
  }

  lemma FrontAll(x: nat)
    ensures Front(x, 0) == x
  {
  }

  /** All bytes of all limbs taken off leave nothing. */
  lemma FrontNone(s: seq<limb>)
    ensures |s| * ciL() >= 0 && Front(Val(s), |s| * ciL()) == 0
  {
    hide Val, Pow, Pow2, Wp;
    MulNonneg(|s|, ciL());
    Associate(8, |s|, ciL());
    Associate(|s|, 8, ciL());
    WpPow2Bits(|s|);
    ValBound(s);
    DivModUnique(Val(s), 0, Val(s), Pow2(8 * (|s| * ciL())));
  }

  /** The number of bytes below byte j of limb i. */
  function Below(i: nat, j: nat): (t: nat)
    ensures t == 0 <==> i == 0 && j == 0
  {
    MulNonneg(i, ciL());
    if i > 0 then MulLe2(1, i, ciL()); i * ciL() + j else j
  }

  lemma BelowEnds(i: nat)
    ensures Below(i, ciL()) == Below(i + 1, 0)
  {
    Distribute(i, 1, ciL());
  }

  lemma ByteAt(s: seq<limb>, i: nat, j: nat)
    requires i < |s| && j < ciL()
    ensures (Val(s) / Pow2(8 * Below(i, j))) % 256 == (s[i] / Pow2(8 * j)) % 256
  {
    hide Val, Pow, Pow2;
    var t := Below(i, j);
    assert t == i * ciL() + j;
    DivModUnique(t, i, j, ciL());
    ByteOfVal(s, t);
  }

  /** What has been printed when t bytes are still to come. */
  ghost predicate Printed(text: Text, shown: bool, x: nat, t: nat) {
    if t == 0 then text == Chars(HexPairs(x))
    else (shown <==> Front(x, t) != 0) && text == if shown then Chars(HexPairs(Front(x, t))) else []
  }

  lemma PrintedStep(text: Text, shown: bool, x: nat, t: nat, k: nat)
    requires Printed(text, shown, x, t + 1) && k == (x / Pow2(8 * t)) % 256
    ensures k < 256
    ensures if k == 0 && !shown && t != 0 then Printed(text, shown, x, t)
            else Printed(text + [DigitChar(k / 16), DigitChar(k % 16)], true, x, t)
  {
    hide Pow, Pow2, Front, HexPairs, Chars;
    FrontStep(x, t, k);
    FrontAll(x);
    PairsStep(Front(x, t + 1), k);
    CharsConcat(if shown then HexPairs(Front(x, t + 1)) else [], [k / 16, k % 16]);
    assert Chars([k / 16, k % 16]) == [DigitChar(k / 16), DigitChar(k % 16)];
    assert [] + [k / 16, k % 16] == [k / 16, k % 16];
  }

  /** The bytes of X, high one first, without the leading zero bytes. */
  method ShowHex(X: Mpi) returns (text: Text)
    requires X.Ready()
    ensures text == Chars(HexPairs(X.Abs()))
  {
    hide Val, Pow, Pow2, HexPairs, Chars, Front, Printed, Below;
    text := [];
    ghost var x := X.Abs();
    var i, shown := |X.p| - 1, false;
    StartPrinting(X.p);
    while i >= 0
      invariant -1 <= i < |X.p|
      invariant Printed(text, shown, x, Below(i + 1, 0))
    {
      var j := ciL() - 1;
      BelowEnds(i);
      while j >= 0
        invariant -1 <= j < ciL()
        invariant Printed(text, shown, x, Below(i, j + 1))
      {
        ByteAt(X.p, i, j);
        BelowNext(i, j);
        var k := (X.p[i] / Pow2(8 * j)) % 256;
        PrintedStep(text, shown, x, Below(i, j), k);
        if !(k == 0 && !shown && i + j != 0) {
          text := text + [DigitChar(k / 16), DigitChar(k % 16)];
          shown := true;
        }
        j := j - 1;
      }
      i := i - 1;
    }
    DonePrinting(text, shown, x);
  }

  lemma BelowNext(i: nat, j: nat)
    ensures Below(i, j + 1) == Below(i, j) + 1
  {
  }

  lemma StartPrinting(s: seq<limb>)
    requires |s| > 0
    ensures Printed([], false, Val(s), Below(|s|, 0))
  {
    hide Val, Pow, Pow2, HexPairs, Chars, Front;
    FrontNone(s);
    assert Below(|s|, 0) == |s| * ciL();
  }

  lemma DonePrinting(text: Text, shown: bool, x: nat)
    requires Printed(text, shown, x, Below(0, 0))
    ensures text == Chars(HexPairs(x))
  {
  }

  /** mpi_showf: the name, a sign, the digits of the magnitude and a line end. */
  method Show(name: Text, X: Mpi, radix: int) returns (ret: int, text: Text)
    requires X.Ready()
    ensures ret == if 2 <= radix <= 16 then 0 else ERR_MPI_INVALID_PARAMETER
    ensures ret == 0 ==>
      text == name + [if X.s == -1 then MINUS else SPACE] + Chars(ShownDigits(X.Abs(), radix)) + [NEWLINE]
  {
    hide Val, Pow, Pow2, HexPairs, Chars, Digits;
    text := [];
    if radix < 2 || radix > 16 {
      return ERR_MPI_INVALID_PARAMETER, text;
    }
    ret := 0;
    text := name + [if X.s == -1 then MINUS else SPACE];
    var body: Text;
    if radix == 16 {
      body := ShowHex(X);
    } else {
      var T := new Mpi();
      Copy(T, X);
      ret, body := RecurseShow(T, radix);
    }
    text := text + body + [NEWLINE];
  }

  // ---- mpi_read ----

  predicate Negated(s: Text) { |s| > 0 && s[0] == MINUS }

  function Unsigned(s: Text): Text { if Negated(s) then s[1..] else s }

  predicate AllDigits(s: Text, radix: nat) {
    forall k :: 0 <= k < |s| ==> GetDigit(s[k]) < radix
  }

  /**
   * When mpi_add_int gets t + d wrong: the digit carries into a second limb
   * that is all ones, and X has, or the sum needs, a third limb. wide says
   * that X came with three limbs already.
   */
  predicate StickAt(wide: bool, t: nat, d: nat) {
    d > 0 && (wide || t >= W * W) && t % W + d >= W && (t / W) % W == W - 1
  }

  predicate ReadSticks(wide: bool, ds: seq<nat>, radix: nat)
    decreases |ds|
  {
    if ds == [] then false
    else
      var n := |ds| - 1;
      ReadSticks(wide, ds[..n], radix) || StickAt(wide, ScaledNumber(ds[..n], radix), ds[n])
  }

  /** What the digits leave in X, stuck carries and all. */
  function Kept(wide: bool, ds: seq<nat>, radix: nat): (x: nat)
    decreases |ds|
  {
    if ds == [] then 0
    else
      var n := |ds| - 1;
      var t := Kept(wide, ds[..n], radix) * radix;
      MulNonneg(Kept(wide, ds[..n], radix), radix);
      if StickAt(wide, t, ds[n]) then
        StuckHasTwoLimbs(t);
        t + ds[n] - (W * W - W)
      else t + ds[n]
  }

  lemma StuckHasTwoLimbs(t: nat)
    requires (t / W) % W == W - 1
    ensures t >= W * W - W
  {
    hide Pow;
    WBound();
    DivMod(t, W);
    DivMod(t / W, W);
    DivLe(t / W, W);
    MulLe2(0, (t / W) / W, W);
    MulLe2(W - 1, t / W, W);
    Distribute(W, 1, W);
  }

  lemma KeptSnoc(wide: bool, ds: seq<nat>, d: nat, radix: nat)
    ensures Kept(wide, ds, radix) * radix >= 0
    ensures var t := Kept(wide, ds, radix) * radix;
      Kept(wide, ds + [d], radix) == t + d - (if StickAt(wide, t, d) then W * W - W else 0)
  {
    hide StickAt, Pow;
    MulNonneg(Kept(wide, ds, radix), radix);
    assert (ds + [d])[..|ds|] == ds;
  }

  function ScaledNumber(ds: seq<nat>, radix: nat): nat {
    MulNonneg(Number(ds, radix), radix);
    Number(ds, radix) * radix
  }

  lemma FirstLimb(a: seq<limb>)
    requires |a| > 0
    ensures Val(a) % W == a[0] && Val(a) / W == Val(a[1..])
  {
    ValSplitFirst(a);
    hide Val, Pow;
    var v := Val(a[1..]);
    Associate(W, v, 1);
    DivModUnique(Val(a), v, a[0], W);
  }

  lemma NoLimbs(a: seq<limb>)
    requires a == []
    ensures Val(a) == 0
  {
  }

  lemma LowLimbs(a: seq<limb>)
    requires |a| > 0
    ensures a[0] == Val(a) % W
    ensures (Val(a) / W) % W == if |a| > 1 then a[1] else 0
  {
    hide Pow, Val;
    FirstLimb(a);
    if |a| > 1 {
      FirstLimb(a[1..]);
    } else {
      NoLimbs(a[1..]);
      DivModUnique(0, 0, 0, W);
    }
  }

  lemma TwoLimbs()
    ensures Wp(1) == W && Wp(2) == W * W && Wp(0) == 1
  {
    hide Pow;
    WpStep(0);
    WpStep(1);
  }

  lemma ThreeLimbs(a: seq<limb>)
    ensures Sig(a) >= 3 <==> Val(a) >= W * W
  {
    hide Pow, Val, Sig;
    TwoLimbs();
    SigOfVal(a, 2);
  }

  /** The carry of mpi_add_int in terms of the number alone. */
  lemma StickMeaning(wide: bool, x: seq<limb>, a: seq<limb>, d: limb)
    requires |a| > 0 && |x| > 0
    requires wide ==> |x| >= 3
    requires |x| >= 3 ==> wide || Val(a) >= W * W
    ensures CarrySticks(IntCase(false, x, a, d), a, [d]) <==> StickAt(wide, Val(a), d)
    ensures StickLoss(IntCase(false, x, a, d), a, [d]) == if StickAt(wide, Val(a), d) then W * W - W else 0
  {
    hide Pow, Wp;
    var b: seq<limb> := [d];
    SigUnique(b, if d == 0 then 0 else 1);
    TwoLimbs();
    LowLimbs(a);
    ThreeLimbs(a);
    ValSplitFirst(b);
    assert b[1..] == [];
    ValSplitFirst(a[..1]);
    assert a[..1][1..] == [] && a[..1][0] == a[0] && a[..0] == [];
    assert Val([]) == 0;
    WBound();
    hide Val;
  }

  /** What one digit does to value and length. */
  lemma ReadStep(wide: bool, n: nat, x: seq<limb>, a: seq<limb>, y: seq<limb>, d: limb, radix: nat)
    requires |x| > 0 && |a| > 0 && 2 <= radix && Val(a) == Val(x) * radix && Val(x) <= n
    requires wide ==> |x| >= 3
    requires |x| >= 3 ==> wide || Val(x) >= W * W
    requires Val(y) == Val(a) + d - StickLoss(IntCase(false, x, a, d), a, [d])
    requires |x| <= |y| <= Max(IntCase(false, x, a, d), Sig(y))
    ensures Val(y) <= n * radix + d
    ensures Val(y) == n * radix + d <==> Val(x) == n && !StickAt(wide, n * radix, d)
    ensures wide ==> |y| >= 3
    ensures |y| >= 3 ==> wide || Val(y) >= W * W
  {
    hide Pow, Val, Sig, StickLoss, CarrySticks, StickAt, IntCase;
    WBound();
    MulLe2(1, radix, Val(x));
    MulLe2(Val(x), n, radix);
    if Val(x) < n {
      MulLt(Val(x), n, radix);
    }
    StickMeaning(wide, x, a, d);
    MulLt(1, W, W);
    if !wide {
      LengthStep(x, a, y, d);
    }
  }

  lemma KeptStep(wide: bool, x: seq<limb>, a: seq<limb>, y: seq<limb>, d: limb, radix: nat)
    requires |x| > 0 && |a| > 0 && 2 <= radix && Val(a) == Val(x) * radix
    requires wide ==> |x| >= 3
    requires |x| >= 3 ==> wide || Val(x) >= W * W
    requires Val(y) == Val(a) + d - StickLoss(IntCase(false, x, a, d), a, [d])
    ensures Val(y) == Val(a) + d - (if StickAt(wide, Val(a), d) then W * W - W else 0)
  {
    hide Pow, Val, Sig, StickLoss, CarrySticks, StickAt, IntCase;
    MulLe2(1, radix, Val(x));
    StickMeaning(wide, x, a, d);
  }

  lemma LengthStep(x: seq<limb>, a: seq<limb>, y: seq<limb>, d: limb)
    requires |x| > 0 && |a| > 0 && (|x| >= 3 ==> Val(a) >= W * W)
    requires |y| <= Max(IntCase(false, x, a, d), Sig(y))
    requires Val(y) >= Val(a) + d - (if StickAt(false, Val(a), d) then W * W - W else 0)
    ensures |y| >= 3 ==> Val(y) >= W * W
  {
    hide Pow, Val, Sig;
    ThreeLimbs(a);
    ThreeLimbs(y);
    OneLimbSig([d]);
    if StickAt(false, Val(a), d) {
      AfterSticking(Val(a));
    }
  }

  /** Even what a stuck carry leaves still needs three limbs. */
  lemma AfterSticking(t: nat)
    requires t >= W * W && (t / W) % W == W - 1
    ensures t - (W * W - W) >= W * W
  {
    hide Pow;
    WBound();
    DivMod(t, W);
    var u := t / W;
    DivMod(u, W);
    var q := u / W;
    if q <= 0 {
      MulLe2(q, 0, W);
      MulLe2(u + 1, W, W);
      Distribute(u, 1, W);
    }
    MulLe2(1, q, W);
    MulLe2(2 * W - 1, u, W);
    Distribute(2 * W, 1, W);
    Associate(2, W, W);
  }

  /** X, as sign and limbs, after the digits ds; wide as in StickAt. */
  ghost predicate ReadSoFar(wide: bool, negated: bool, sign: int, x: seq<limb>, ds: seq<nat>, radix: nat) {
    var n := Number(ds, radix);
    |x| > 0 && Val(x) <= n && Val(x) == Kept(wide, ds, radix)
    && (Val(x) == n <==> !ReadSticks(wide, ds, radix))
    && sign == (if negated && n == 0 then -1 else 1)
    && (wide ==> |x| >= 3) && (|x| >= 3 ==> wide || Val(x) >= W * W)
  }

  lemma ReadSnoc(wide: bool, ds: seq<nat>, d: nat, radix: nat)
    ensures Number(ds + [d], radix) == Number(ds, radix) * radix + d
    ensures ScaledNumber(ds, radix) == Number(ds, radix) * radix
    ensures ReadSticks(wide, ds + [d], radix)
        <==> ReadSticks(wide, ds, radix) || StickAt(wide, ScaledNumber(ds, radix), d)
  {
    NumberSnoc(ds, d, radix);
    assert (ds + [d])[..|ds|] == ds;
  }

  /** One more digit onto a number without a sign. */
  lemma ReadMore(wide: bool, negated: bool, x: seq<limb>, a: seq<limb>, y: seq<limb>,
                 ds: seq<nat>, d: limb, radix: nat)
    requires ReadSoFar(wide, negated, 1, x, ds, radix) && 2 <= radix
    requires |a| > 0 && Val(a) == Val(x) * radix
    requires Val(y) == Val(a) + d - StickLoss(IntCase(false, x, a, d), a, [d])
    requires |x| <= |y| <= Max(IntCase(false, x, a, d), Sig(y))
    ensures ReadSoFar(wide, negated, 1, y, ds + [d], radix)
  {
    hide Pow, Val, Sig, StickLoss, StickAt, IntCase, Number, ReadSticks, ScaledNumber, Kept;
    var n := Number(ds, radix);
    KeptSnoc(wide, ds, d, radix);
    KeptStep(wide, x, a, y, d, radix);
    ReadSnoc(wide, ds, d, radix);
    ReadStep(wide, n, x, a, y, d, radix);
    MulNonneg(n, radix);
    if n > 0 {
      MulLe2(1, n, radix);
    }
  }

  /** The first digit after a minus sign, or after that and zeros, drops the sign unless it is zero. */
  lemma ReadFirst(wide: bool, x: seq<limb>, y: seq<limb>, ds: seq<nat>, d: limb, radix: nat)
    requires ReadSoFar(wide, true, -1, x, ds, radix) && 2 <= radix && d <= 16
    requires Val(y) == d && |x| <= |y| <= Max(|x|, 1)
    ensures Val(x) == 0 && ReadSoFar(wide, true, if d == 0 then -1 else 1, y, ds + [d], radix)
  {
    hide Pow, Val, Number, ReadSticks, ScaledNumber, Kept;
    ReadSnoc(wide, ds, d, radix);
    KeptSnoc(wide, ds, d, radix);
    WBound();
    DivModUnique(0, 0, 0, W);
    MulLt(1, W, W);
  }

  lemma NothingRead(wide: bool, negated: bool, x: seq<limb>, radix: nat)
    requires |x| > 0 && Val(x) == 0 && (wide <==> |x| >= 3)
    ensures ReadSoFar(wide, negated, if negated then -1 else 1, x, [], radix)
  {
    hide Pow, Val;
    assert Number([], radix) == 0;
  }

  lemma ReadValue(negated: bool, sign: int, x: seq<limb>, wide: bool, ds: seq<nat>, radix: nat)
    requires ReadSoFar(wide, negated, sign, x, ds, radix) && sign == -1
    ensures Val(x) == 0 && negated
  {
  }

  /** T = X * radix, X = T + d. */
  method TakeDigit(X: Mpi, T: Mpi, d: nat, radix: nat, ghost wide: bool, ghost minus: bool, ghost ds: seq<nat>)
    requires X.Ready() && T.Valid() && X != T && d <= 16 && 2 <= radix <= 16
    requires ReadSoFar(wide, minus, X.s, X.p, ds, radix)
    modifies X, T
    ensures X.Ready() && T.Ready() && ReadSoFar(wide, minus, X.s, X.p, ds + [d], radix)
  {
    hide Val, Pow, ReadSoFar, StickLoss, IntCase, Sig;
    WBound();
    ghost var x, sign := X.p, X.s;
    MulInt(T, X, radix);
    ghost var a := T.p;
    if sign == -1 {
      ReadValue(minus, sign, x, wide, ds, radix);
    }
    AddInt(X, T, d);
    if sign == -1 {
      ReadFirst(wide, x, X.p, ds, d, radix);
    } else {
      ReadMore(wide, minus, x, a, X.p, ds, d, radix);
    }
  }

  /** The digits of mpi_read when the radix is not 16. */
  method ReadDigits(X: Mpi, s: Text, radix: nat) returns (ret: int)
    requires X.Valid() && 2 <= radix <= 16
    modifies X
    ensures ret == if AllDigits(Unsigned(s), radix) then 0 else ERR_MPI_INVALID_CHARACTER
    ensures ret == 0 ==>
      X.Ready() && ReadSoFar(old(|X.p|) >= 3, Negated(s), X.s, X.p, Parsed(Unsigned(s)), radix)
  {
    hide Val, Pow, ReadSoFar, StickLoss, Parsed, IntCase, Sig;
    ghost var wide, minus := |X.p| >= 3, Negated(s);
    var T := new Mpi();
    WBound();
    Lset(X, 0);
    ghost var u, ds: seq<nat> := Unsigned(s), [];
    var i := 0;
    if Negated(s) {
      X.s := -1;
      i := 1;
    }
    NothingRead(wide, minus, X.p, radix);
    ghost var first := i;
    assert Parsed(s[first..i]) == [] by { ParsedNone(s[first..i]); }
    while i < |s|
      invariant first <= i <= |s| && X.Ready() && T.Valid()
      invariant ds == Parsed(s[first..i])
      invariant forall k :: first <= k < i ==> GetDigit(s[k]) < radix
      invariant ReadSoFar(wide, minus, X.s, X.p, ds, radix)
    {
      var d := GetDigit(s[i]);
      if d >= radix {
        assert u[i - first] == s[i];
        return ERR_MPI_INVALID_CHARACTER;
      }
      TakeDigit(X, T, d, radix, wide, minus, ds);
      ParsedSnoc(s[first..i], s[i]);
      assert s[first..i + 1] == s[first..i] + [s[i]];
      ds := ds + [d];
      i := i + 1;
    }
    assert s[first..] == u && s[first..i] == s[first..];
    assert forall k :: 0 <= k < |u| ==> u[k] == s[first + k];
    ret := 0;
  }

  lemma ParsedNone(t: Text)
    requires t == []
    ensures Parsed(t) == []
  {
  }

  lemma ParsedSnoc(t: Text, c: nat)
    ensures Parsed(t + [c]) == Parsed(t) + [GetDigit(c)]
  {
  }

  // ---- the hexadecimal form, four bits a digit ----

  lemma Pow2Nibble(k: nat)
    ensures Pow2(4 * (k + 1)) == 16 * Pow2(4 * k) && Pow2(0) == 1
  {
    Pow2Add(4 * k, 4);
    FourBits();
  }

  lemma FourBits()
    ensures Pow2(4) == 16
  {
  }

  /** Number, from the front. */
  lemma {:induction false} NumberFirst(d: nat, ds: seq<nat>)
    requires d < 16 && forall k :: 0 <= k < |ds| ==> ds[k] < 16
    ensures Number([d] + ds, 16) == d * Pow2(4 * |ds|) + Number(ds, 16)
    ensures Number([d] + ds, 16) < Pow2(4 * (|ds| + 1))
    decreases |ds|
  {
    hide Pow, Pow2;
    Pow2Nibble(|ds|);
    if ds == [] {
      NumberSnoc([], d, 16);
      assert [] + [d] == [d] + ds;
    } else {
      var n := |ds| - 1;
      Pow2Nibble(n);
      NumberFirst(d, ds[..n]);
      assert [d] + ds == ([d] + ds[..n]) + [ds[n]];
      NumberSnoc([d] + ds[..n], ds[n], 16);
      Associate(d, 16, Pow2(4 * n));
      Associate(16, d, Pow2(4 * n));
    }
  }

  lemma NibblePosition(j: nat)
    ensures var q, r := j / (ciL() * 2), j % (ciL() * 2);
      r >= 0 && q >= 0 && Pow2(4 * j) == Pow2(4 * r) * Wp(q) && 4 * r + 4 <= biL
  {
    hide Pow, Pow2, Wp;
    var q, r := j / (ciL() * 2), j % (ciL() * 2);
    DivMod(j, ciL() * 2);
    DivLe(j, ciL() * 2);
    Associate(q, 4, ciL() * 2);
    WpPow2Bits(q);
    assert 4 * (q * (ciL() * 2)) == q * biL;
    Pow2Add(4 * r, biL * q);
  }

  lemma NibbleInLimb(x: nat, d: nat, r: nat)
    requires x < Pow2(4 * r) && 4 * r + 4 <= biL && d < 16
    ensures x + d * Pow2(4 * r) < W
  {
    hide Pow, Pow2;
    Pow2Nibble(r);
    DigitBound(x, d, 16, Pow2(4 * r));
    Pow2Mono(4 * r + 4, biL);
    LimbBits(0);
    WIsPow2(biL);
  }

  /** BITS_TO_LIMBS(len << 2). */
  function HexLimbs(len: nat): (n: nat) {
    (4 * len + biL - 1) / biL
  }

  lemma NibblesCover(j: nat, len: nat)
    requires j < len
    ensures j / (ciL() * 2) < HexLimbs(len)
  {
    var n := HexLimbs(len);
    DivMod(4 * len + biL - 1, biL);
    DivMod(j, ciL() * 2);
    Associate(n, 4, ciL() * 2);
    MulCancelLt(j / (ciL() * 2), n, ciL() * 2);
  }

  /** X->p[j / (ciL * 2)] |= d << ((j % (ciL * 2)) << 2). */
  method StoreNibble(X: Mpi, j: nat, d: nat)
    requires X.Ready() && j / (ciL() * 2) < |X.p| && X.Abs() < Pow2(4 * j) && d < 16
    modifies X
    ensures X.Ready() && X.s == old(X.s) && |X.p| == old(|X.p|)
    ensures X.Abs() == old(X.Abs()) + d * Pow2(4 * j)
  {
    hide Val, Pow, Pow2, Wp, Or;
    NibblePosition(j);
    var q, r := j / (ciL() * 2), j % (ciL() * 2);
    var t := Pow2(4 * r);
    LimbBelow(X.p, q, t);
    OrShifted(d, 4 * r, X.p[q]);
    NibbleInLimb(X.p[q], d, r);
    var v: limb := Or(X.p[q], d * t);
    ValBump(X.p, q, v, d * t);
    Associate(d, t, Wp(q));
    X.p := X.p[q := v];
  }

  method ReadHex(X: Mpi, s: Text) returns (ret: int)
    requires X.Valid()
    modifies X
    ensures ret == if AllDigits(Unsigned(s), 16) then 0 else ERR_MPI_INVALID_CHARACTER
    ensures ret == 0 ==>
      X.Ready() && X.s == (if Negated(s) then -1 else 1) && X.Abs() == Number(Parsed(Unsigned(s)), 16)
  {
    hide Val, Pow, Pow2, Wp, Number, Parsed, Sig, HexLimbs;
    WBound();
    var n := HexLimbs(|s|);
    Grow(X, n);
    Lset(X, 0);
    var i, j: nat := |s| - 1, 0;
    ParsedNone(s[|s|..]);
    NumberNone();
    Pow2Nibble(0);
    ghost var first := if Negated(s) then 1 else 0;
    while i >= 0
      invariant first - 1 <= i < |s| && j == |s| - 1 - i
      invariant X.Ready() && X.s == 1 && |X.p| >= n
      invariant forall k :: i < k < |s| ==> GetDigit(s[k]) < 16
      invariant X.Abs() == Number(Parsed(s[i + 1..]), 16) < Pow2(4 * j)
    {
      if i == 0 && s[i] == MINUS {
        X.s := -1;
        break;
      }
      var d := GetDigit(s[i]);
      if d >= 16 {
        assert Unsigned(s)[i - first] == s[i];
        return ERR_MPI_INVALID_CHARACTER;
      }
      NibblesCover(j, |s|);
      StoreNibble(X, j, d);
      FrontDigit(s, i);
      i, j := i - 1, j + 1;
    }
    assert s[first..] == Unsigned(s);
    assert forall k :: 0 <= k < |Unsigned(s)| ==> Unsigned(s)[k] == s[first + k];
    ret := 0;
  }

  /** The digit at i, in front of those that follow. */
  lemma FrontDigit(s: Text, i: nat)
    requires i < |s| && forall k :: i <= k < |s| ==> GetDigit(s[k]) < 16
    ensures var j := |s| - 1 - i;
      Number(Parsed(s[i..]), 16) == Number(Parsed(s[i + 1..]), 16) + GetDigit(s[i]) * Pow2(4 * j) < Pow2(4 * (j + 1))
  {
    hide Pow, Pow2, Number;
    assert s[i..] == [s[i]] + s[i + 1..];
    ParsedFirst(s[i], s[i + 1..]);
    NumberFirst(GetDigit(s[i]), Parsed(s[i + 1..]));
  }

  lemma NumberNone()
    ensures Number([], 16) == 0
  {
  }

  lemma ParsedFirst(c: nat, t: Text)
    ensures Parsed([c] + t) == [GetDigit(c)] + Parsed(t)
  {
  }

  /** A number short of the last limb but one never meets the carry, nor one of two limbs in a narrow X. */
  lemma {:induction false} ShortIsExact(wide: bool, ds: seq<nat>, radix: nat)
    requires 2 <= radix && (Number(ds, radix) < W * W - W || (!wide && Number(ds, radix) < W * W))
    ensures !ReadSticks(wide, ds, radix)
    decreases |ds|
  {
    hide Pow;
    if ds != [] {
      var n := |ds| - 1;
      var t := Number(ds[..n], radix) * radix;
      MulNonneg(Number(ds[..n], radix), radix);
      MulLe2(1, radix, Number(ds[..n], radix));
      ShortIsExact(wide, ds[..n], radix);
      if StickAt(wide, t, ds[n]) {
        StuckHasTwoLimbs(t);
      }
    }
  }

  lemma SmallRadixIsExact(wide: bool, ds: seq<nat>, radix: nat)
    requires radix in {2, 4, 8} && forall k :: 0 <= k < |ds| ==> ds[k] < radix
    ensures !ReadSticks(wide, ds, radix)
  {
    assert Pow2(1) == 2 && Pow2(2) == 4 && Pow2(3) == 8;
    PowersOfTwoNeverStick(wide, ds, if radix == 2 then 1 else if radix == 4 then 2 else 3);
  }

  /**
   * mpi_read. In radix 16 the number comes out with its sign. In the other
   * radices it comes out without its sign, and exactly unless a carry sticks.
   */
  method Read(X: Mpi, s: Text, radix: int) returns (ret: int)
    requires X.Valid()
    modifies X
    ensures var u := if |s| > 0 && s[0] == 0x2D then s[1..] else s;
      ret == if radix < 2 || radix > 16 then ERR_MPI_INVALID_PARAMETER
             else if exists k :: 0 <= k < |u| && GetDigit(u[k]) >= radix then ERR_MPI_INVALID_CHARACTER else 0
    ensures ret == 0 ==>
      var minus, wide := |s| > 0 && s[0] == 0x2D, old(|X.p|) >= 3;
      var ds := Parsed(if minus then s[1..] else s);
      var n := Number(ds, radix);
      && X.Ready() && X.s == (if minus && (radix == 16 || n == 0) then -1 else 1)
      && X.Abs() == (if radix == 16 then n else Kept(wide, ds, radix)) <= n
      && (X.Abs() == n <==> radix == 16 || !ReadSticks(wide, ds, radix))
      && (radix in {2, 4, 8, 16} || n < W * W - W || (!wide && n < W * W) ==> X.Abs() == n)
  {
    hide Val, Pow, Pow2, Wp, Number, Parsed, Sig, ReadSticks, Kept;
    if radix < 2 || radix > 16 {
      return ERR_MPI_INVALID_PARAMETER;
    }
    ghost var wide, u := |X.p| >= 3, Unsigned(s);
    if radix == 16 {
      ret := ReadHex(X, s);
    } else {
      ret := ReadDigits(X, s, radix);
      if ret == 0 {
        ExactWhen(wide, Parsed(u), radix);
      }
    }
  }

  lemma ExactWhen(wide: bool, ds: seq<nat>, radix: nat)
    requires 2 <= radix && forall k :: 0 <= k < |ds| ==> ds[k] < radix
    ensures var n := Number(ds, radix);
      radix in {2, 4, 8} || n < W * W - W || (!wide && n < W * W) ==> !ReadSticks(wide, ds, radix)
  {
    hide Number, Pow, ReadSticks;
    if radix in {2, 4, 8} {
      SmallRadixIsExact(wide, ds, radix);
    } else if Number(ds, radix) < W * W - W || (!wide && Number(ds, radix) < W * W) {
      ShortIsExact(wide, ds, radix);
    }
  }

  /** The same text but for the case of its letters, as lines 171-172 take them. */
  predicate SameButCase(s: Text, t: Text) {
    |s| == |t| && forall k :: 0 <= k < |s| ==>
      s[k] == t[k] || (0x41 <= s[k] <= 0x46 && t[k] == s[k] + 0x20) || (0x41 <= t[k] <= 0x46 && s[k] == t[k] + 0x20)
  }

  lemma SameDigits(s: Text, t: Text)
    requires SameButCase(s, t)
    ensures Parsed(s) == Parsed(t)
  {
  }

  /** Capital letters and small ones read alike: the same error, the same number. */
  method ReadInEitherCase(X: Mpi, Y: Mpi, s: Text, t: Text, radix: int) returns (ret: int, ret': int)
    requires X.Valid() && Y.Valid() && X != Y && |X.p| == |Y.p| && SameButCase(s, t)
    modifies X, Y
    ensures ret == ret' && (ret == 0 ==> X.Ready() && Y.Ready() && X.s == Y.s && X.Abs() == Y.Abs())
  {
    hide Val, Pow, Number, ReadSticks, Kept, Parsed, GetDigit;
    ret := Read(X, s, radix);
    ret' := Read(Y, t, radix);
    SameDigits(s, t);
    SameDigits(s[if Negated(s) then 1 else 0..], t[if Negated(s) then 1 else 0..]);
  }

  // ---- reading what was shown ----

  /** The digits mpi_showf prints for x are digits to mpi_read, and stand for x. */
  lemma ShownIsReadable(x: nat, radix: nat)
    requires 2 <= radix <= 16
    ensures var t := Chars(ShownDigits(x, radix));
      Unsigned(t) == t && AllDigits(t, radix) && Parsed(t) == ShownDigits(x, radix)
      && Number(Parsed(t), radix) == x
  {
    hide Number, Digits, HexPairs;
    var ds := ShownDigits(x, radix);
    ParsedChars(ds);
    NumberOfShown(x, radix);
  }

  /** The printed number, without a blank in front and the newline behind. */
  function Line(text: Text): Text
    requires |text| >= 2
  {
    text[if text[0] == SPACE then 1 else 0..|text| - 1]
  }

  /**
   * What mpi_showf prints, mpi_read gives back: every number in radix 16, and in
   * the others exactly the numbers that are not negative and leave no carry stuck.
   */
  method ShowThenRead(X: Mpi, Y: Mpi, radix: int) returns (ret: int)
    requires X.Ready() && Y.Valid() && Y != X && 2 <= radix <= 16
    modifies Y
    ensures ret == 0 && Y.Ready()
    ensures Y.Value() == X.Value()
       <==> radix == 16 || (X.Value() >= 0 && !ReadSticks(old(|Y.p|) >= 3, Digits(X.Abs(), radix), radix))
  {
    hide Val, Pow, Pow2, Number, Parsed, Chars, ReadSticks, Digits, HexPairs;
    ShownIsReadable(X.Abs(), radix);
    var text;
    ret, text := Show([], X, radix);
    ghost var body := Chars(ShownDigits(X.Abs(), radix));
    assert Line(text) == if X.s == -1 then [MINUS] + body else body;
    ret := Read(Y, Line(text), radix);
    assert Unsigned([MINUS] + body) == body;
    ShownStartsWithDigit(X.Abs(), radix);
    SignedAlike(X, Y);
  }

  /** Equal numbers have the same magnitude, and the same sign unless they are zero. */
  lemma SignedAlike(X: Mpi, Y: Mpi)
    requires X.Ready() && Y.Ready()
    ensures Y.Value() == X.Value() <==> Y.Abs() == X.Abs() && (Y.s == X.s || X.Abs() == 0)
    ensures X.Value() >= 0 <==> X.s == 1 || X.Abs() == 0
  {}

  lemma ShownStartsWithDigit(x: nat, radix: nat)
    requires 2 <= radix <= 16
    ensures !Negated(Chars(ShownDigits(x, radix)))
  {
    hide Digits, HexPairs;
  }

  /** In the radices 2, 4 and 8 no carry ever sticks. */
  lemma {:induction false} PowersOfTwoNeverStick(wide: bool, ds: seq<nat>, k: nat)
    requires 1 <= k <= 3 && forall i :: 0 <= i < |ds| ==> ds[i] < Pow2(k)
    ensures !ReadSticks(wide, ds, Pow2(k))
    decreases |ds|
  {
    if ds != [] {
      var n := |ds| - 1;
      PowersOfTwoNeverStick(wide, ds[..n], k);
      hide Pow, Pow2, Number;
      NoCarryOut(Number(ds[..n], Pow2(k)), ds[n], k);
      assert ScaledNumber(ds[..n], Pow2(k)) == Number(ds[..n], Pow2(k)) * Pow2(k);
    }
  }

  lemma NoCarryOut(v: nat, d: nat, k: nat)
    requires 1 <= k <= 3 && d < Pow2(k)
    ensures (v * Pow2(k)) % W + d < W
  {
    hide Pow, Pow2;
    WBound();
    WIsPow2(k);
    var p, m := Pow2(k), Pow2(biL - k);
    DivMod(v, m);
    Distribute((v / m) * m, v % m, p);
    Associate(v / m, m, p);
    MulLe2(v % m + 1, m, p);
    MulNonneg(v % m, p);
    Distribute(v % m, 1, p);
    DivModUnique(v * p, v / m, (v % m) * p, W);
  }

  lemma LimbSquareEndsInSix()
    ensures (W * W) % 10 == 6
  {
    Pow16();
    PowAdd(2, 16, 16);
    PowAdd(2, 32, 32);
    hide Pow;
    var a := Pow(2, 16);
    SixTimesSix(a, a);
    SixTimesSix(a * a, a * a);
    SixTimesSix(W, W);
  }

  lemma Pow16()
    ensures Pow(2, 16) == 65536
  {
    PowAdd(2, 8, 8);
    assert Pow(2, 8) == 256;
  }

  lemma SixTimesSix(a: nat, b: nat)
    requires a % 10 == 6 && b % 10 == 6
    ensures (a * b) % 10 == 6
  {
    var p, q := a / 10, b / 10;
    Distribute(10 * p, 6, b);
    Associate(10, p, b);
    DivModUnique(a * b, p * b + 6 * q + 3, 6, 10);
  }

  /** The last decimal digit of 2 * w * w, and what stands in front of it. */
  lemma DecimalShape(w: nat, x: nat)
    requires w > 2 && x == 2 * (w * w) && (w * w) % 10 == 6
    ensures x % 10 == 2 && x / 10 * 10 == x - 2
    ensures (x - 2) % w == w - 2 && ((x - 2) / w) % w == w - 1 && x - 2 >= w * w && x >= 10
  {
    var q := w * w;
    MulLe2(3, w, w);
    Distribute(2 * w, 1, w);
    Associate(2, w, w);
    DivModUnique(x - 2, 2 * w - 1, w - 2, w);
    DivModUnique(2 * w - 1, 1, w - 1, w);
    LastDigit(q);
  }

  lemma LastDigit(q: nat)
    requires q % 10 == 6
    ensures (2 * q) % 10 == 2 && (2 * q) / 10 * 10 == 2 * q - 2
  {
  }

  /** In decimal, 2 * W * W is printed correctly and read back wrong, whatever the limb width. */
  lemma DecimalSticks(wide: bool)
    ensures var x := 2 * (W * W);
      x >= 0 && ReadSticks(wide, Digits(x, 10), 10)
  {
    WBound();
    LimbSquareEndsInSix();
    hide Pow, Number, Digits, ReadSticks;
    MulNonneg(W, W);
    var x := 2 * (W * W);
    DecimalShape(W, x);
    DigitsStep(x, 10);
    var h := x / 10;
    NumberOfDigits(h, 10);
    ReadSnoc(wide, Digits(h, 10), 2, 10);
  }
}
