// src/program/tlv/crc-itu-t.c and crc-itu-t.h: the CRC of ITU-T V.41 by table,
// most significant bit first, and the polynomial remainder it stands for.
module CrcItuT {
  import opened Polynomials

  type reg = bv16
  type octet = bv8

  // x^12 + x^5 + 1, the generator without its leading x^16.
  const POLY: reg := 0x1021

  // --- Register operators -------------------------------------------------

  function Xor(a: reg, b: reg): reg { a ^ b }

  predicate Negative(c: reg) { c & 0x8000 == 0x8000 }

  function Double(c: reg): reg { c << 1 }

  function Raise(c: reg): reg { c << 8 }

  function Top(c: reg): reg { c & 0xFF00 }

  function Rest(c: reg): reg { c & 0x00FF }

  function Wide(b: octet): reg { b as reg }

  function HighOctet(c: reg): octet { (c >> 8) as octet }

  function LowOctet(c: reg): octet { (c & 0x00FF) as octet }

  predicate Clear(c: reg, mask: reg) { c & mask == 0 }

  /** An octet at the top of the register, where the message enters. */
  function Lifted(b: octet): reg { Raise(Wide(b)) }

  lemma XorComm(x: reg, y: reg)
    ensures Xor(x, y) == Xor(y, x)
  {}

  lemma XorAssoc(x: reg, y: reg, z: reg)
    ensures Xor(Xor(x, y), z) == Xor(x, Xor(y, z))
  {}

  lemma XorZero(x: reg)
    ensures Xor(x, 0) == x
  {}

  lemma XorSelf(x: reg)
    ensures Xor(x, x) == 0
  {}

  lemma DoubleXor(x: reg, y: reg)
    ensures Double(Xor(x, y)) == Xor(Double(x), Double(y))
  {}

  lemma NegativeXor(x: reg, y: reg)
    ensures Negative(Xor(x, y)) == (Negative(x) != Negative(y))
  {}

  lemma RaiseXor(x: reg, y: reg)
    ensures Raise(Xor(x, y)) == Xor(Raise(x), Raise(y))
  {}

  lemma RaiseLifted(b: octet)
    ensures Raise(Lifted(b)) == 0
  {}

  lemma TopRest(x: reg)
    ensures Xor(Top(x), Rest(x)) == x
  {}

  lemma TopLifted(x: reg)
    ensures Top(x) == Lifted(HighOctet(x))
  {}

  lemma RaiseRest(x: reg)
    ensures Raise(Rest(x)) == Raise(x)
  {}

  lemma RaiseLow(x: reg)
    ensures Raise(x) == Lifted(LowOctet(x))
  {}

  lemma ClearRest(x: reg)
    ensures Clear(Rest(x), 0xFF00)
  {}

  lemma ClearDouble(x: reg, m: reg)
    requires Clear(x, m)
    ensures Clear(Double(x), Double(m))
  {}

  lemma ClearNegative(x: reg, m: reg)
    requires Clear(x, m) && Negative(m)
    ensures !Negative(x)
  {}

  lemma HighOctetXor(c: reg, b: octet)
    ensures HighOctet(Xor(c, Lifted(b))) == HighOctet(c) ^ b
  {}

  lemma XorCancel(x: reg, y: reg, z: reg)
    requires Xor(x, z) == Xor(y, z)
    ensures x == y
  {
    hide Xor;
    XorAssoc(x, z, z); XorAssoc(y, z, z);
    XorSelf(z); XorZero(x); XorZero(y);
  }

  lemma XorSwapArgs(x: reg, y: reg, z: reg)
    ensures Xor(Xor(x, y), z) == Xor(Xor(x, z), y)
  {
    hide Xor;
    XorAssoc(x, y, z); XorAssoc(x, z, y); XorComm(y, z);
  }

  // --- The shift register -------------------------------------------------

  function Step(c: reg): reg { if Negative(c) then Xor(Double(c), POLY) else Double(c) }

  function Steps(c: reg, k: nat): reg
    decreases k
  {
    if k == 0 then c else Steps(Step(c), k - 1)
  }

  function Doubles(c: reg, k: nat): reg
    decreases k
  {
    if k == 0 then c else Doubles(Double(c), k - 1)
  }

  lemma StepXor(x: reg, y: reg)
    ensures Step(Xor(x, y)) == Xor(Step(x), Step(y))
  {
    hide Xor, Negative, Double;
    var a, b := Double(x), Double(y);
    DoubleXor(x, y);
    NegativeXor(x, y);
    XorAssoc(a, b, POLY);
    XorSwapArgs(a, POLY, b);
    XorAssoc(Xor(a, POLY), b, POLY);
    XorAssoc(Xor(a, b), POLY, POLY);
    XorSelf(POLY);
    XorZero(Xor(a, b));
  }

  lemma {:induction false} StepsXor(x: reg, y: reg, k: nat)
    ensures Steps(Xor(x, y), k) == Xor(Steps(x, k), Steps(y, k))
    decreases k
  {
    hide Xor, Step;
    if k > 0 {
      StepXor(x, y);
      StepsXor(Step(x), Step(y), k - 1);
    }
  }

  lemma {:induction false} StepsAdd(c: reg, j: nat, k: nat)
    ensures Steps(Steps(c, j), k) == Steps(c, j + k)
    decreases j
  {
    hide Step;
    if j > 0 {
      StepsAdd(Step(c), j - 1, k);
    }
  }

  lemma StepInjective(x: reg, y: reg)
    requires Step(x) == Step(y)
    ensures x == y
  {
    hide Xor, Negative, Double;
    StepParity(x);
    StepParity(y);
    if Negative(x) {
      XorCancel(Double(x), Double(y), POLY);
    }
    DoubleInjective(x, y);
  }

  // The generator is odd, so the bit that was shifted out can be read off.
  predicate Odd(c: reg) { c & 1 == 1 }

  lemma DoubleEven(x: reg)
    ensures !Odd(Double(x))
  {}

  lemma OddXor(x: reg)
    ensures Odd(Xor(x, POLY)) == !Odd(x)
  {}

  lemma DoubleInjective(x: reg, y: reg)
    requires Double(x) == Double(y) && Negative(x) == Negative(y)
    ensures x == y
  {}

  lemma StepParity(x: reg)
    ensures Odd(Step(x)) == Negative(x)
  {
    hide Xor, Negative, Double, Odd;
    DoubleEven(x);
    OddXor(Double(x));
  }

  /** No two registers are brought together by turning. */
  lemma {:induction false} StepsInjective(x: reg, y: reg, k: nat)
    requires Steps(x, k) == Steps(y, k)
    ensures x == y
    decreases k
  {
    hide Step;
    if k > 0 {
      StepsInjective(Step(x), Step(y), k - 1);
      StepInjective(x, y);
    }
  }

  lemma {:induction false} StepsClear(x: reg, m: reg, k: nat)
    requires Clear(x, m) && forall i :: 0 <= i < k ==> Negative(Doubles(m, i))
    ensures Steps(x, k) == Doubles(x, k)
    decreases k
  {
    hide Clear, Negative, Double;
    if k > 0 {
      assert Negative(Doubles(m, 0));
      ClearNegative(x, m);
      ClearDouble(x, m);
      forall i | 0 <= i < k - 1 ensures Negative(Doubles(Double(m), i)) {
        assert Negative(Doubles(m, i + 1));
      }
      StepsClear(Double(x), Double(m), k - 1);
    }
  }

  lemma EightMask(i: nat)
    requires i < 8
    ensures Negative(Doubles(0xFF00, i))
  {
    if i > 0 { assert Doubles(0xFF00, i) == Doubles(0xFE00, i - 1); }
    if i > 1 { assert Doubles(0xFE00, i - 1) == Doubles(0xFC00, i - 2); }
    if i > 2 { assert Doubles(0xFC00, i - 2) == Doubles(0xF800, i - 3); }
    if i > 3 { assert Doubles(0xF800, i - 3) == Doubles(0xF000, i - 4); }
    if i > 4 { assert Doubles(0xF000, i - 4) == Doubles(0xE000, i - 5); }
    if i > 5 { assert Doubles(0xE000, i - 5) == Doubles(0xC000, i - 6); }
    if i > 6 { assert Doubles(0xC000, i - 6) == Doubles(0x8000, i - 7); }
  }

  lemma ShiftEight(x: reg)
    ensures x << 1 << 1 << 1 << 1 << 1 << 1 << 1 << 1 == x << 8
  {}

  lemma DoubleEight(x: reg)
    ensures Double(Double(Double(Double(Double(Double(Double(Double(x)))))))) == Raise(x)
  {
    ShiftEight(x);
  }

  lemma EightDoubles(x: reg)
    ensures Doubles(x, 8) == Raise(x)
  {
    hide Double, Raise;
    DoubleEight(x);
    assert Doubles(x, 8) == Double(Double(Double(Double(Double(Double(Double(Double(x))))))));
  }

  lemma EightOfRest(x: reg)
    requires Clear(x, 0xFF00)
    ensures Steps(x, 8) == Raise(x)
  {
    hide Double, Raise, Clear, Negative, Steps, Step, Doubles;
    forall i | 0 <= i < 8 ensures Negative(Doubles(0xFF00, i)) { EightMask(i); }
    StepsClear(x, 0xFF00, 8);
    EightDoubles(x);
  }

  lemma EightSteps(x: reg)
    ensures Steps(x, 8) == Xor(Raise(x), Steps(Top(x), 8))
  {
    hide Xor, Top, Rest, Raise, Step, Steps, Clear;
    TopRest(x);
    StepsXor(Top(x), Rest(x), 8);
    ClearRest(x);
    EightOfRest(Rest(x));
    RaiseRest(x);
    XorComm(Steps(Top(x), 8), Raise(x));
  }

  // --- The checksum of a buffer -------------------------------------------

  /** The register after a message: each octet enters at the top, then eight turns. */
  function Run(c: reg, s: seq<octet>): reg
    decreases |s|
  {
    if s == [] then c else Run(Steps(Xor(c, Lifted(s[0])), 8), s[1..])
  }

  lemma {:induction false} RunConcat(c: reg, s: seq<octet>, t: seq<octet>)
    ensures Run(c, s + t) == Run(Run(c, s), t)
    decreases |s|
  {
    hide Xor, Steps, Lifted;
    if s == [] {
      assert s + t == t;
    } else {
      assert (s + t)[1..] == s[1..] + t && (s + t)[0] == s[0];
      RunConcat(Steps(Xor(c, Lifted(s[0])), 8), s[1..], t);
    }
  }

  lemma {:induction false} RunInjective(c: reg, d: reg, s: seq<octet>)
    requires Run(c, s) == Run(d, s)
    ensures c == d
    decreases |s|
  {
    hide Xor, Steps, Lifted;
    if s != [] {
      var w := Lifted(s[0]);
      RunInjective(Steps(Xor(c, w), 8), Steps(Xor(d, w), 8), s[1..]);
      StepsInjective(Xor(c, w), Xor(d, w), 8);
      XorCancel(c, d, w);
    }
  }

  lemma RunOne(c: reg, b: octet)
    ensures Run(c, [b]) == Steps(Xor(c, Lifted(b)), 8)
  {
    hide Xor, Steps, Lifted;
    var d := Steps(Xor(c, Lifted(b)), 8);
    assert [b][1..] == [];
    assert Run(d, []) == d;
  }

  lemma RunTwo(c: reg, a: octet, b: octet)
    ensures Run(c, [a, b]) == Steps(Xor(Steps(Xor(c, Lifted(a)), 8), Lifted(b)), 8)
  {
    hide Xor, Steps, Lifted, Run;
    assert [a, b] == [a] + [b];
    RunConcat(c, [a], [b]);
    RunOne(c, a);
    RunOne(Run(c, [a]), b);
  }

  /** A message followed by its own checksum brings the register to zero. */
  lemma RunOverItself(c: reg)
    ensures Run(c, [HighOctet(c), LowOctet(c)]) == 0
  {
    hide Xor, Steps, Lifted, Run, Top, Rest, Raise, HighOctet, LowOctet, Clear;
    var hi := Lifted(HighOctet(c));
    RunTwo(c, HighOctet(c), LowOctet(c));
    TopLifted(c);
    TopRest(c);
    XorSwapArgs(Top(c), Rest(c), Top(c));
    XorSelf(Top(c));
    XorComm(0, Rest(c));
    XorZero(Rest(c));
    ClearRest(c);
    EightOfRest(Rest(c));
    RaiseRest(c);
    RaiseLow(c);
    XorSelf(Lifted(LowOctet(c)));
    ZeroSteps(8);
  }

  lemma {:induction false} ZeroSteps(k: nat)
    ensures Steps(0, k) == 0
    decreases k
  {
    if k > 0 {
      ZeroSteps(k - 1);
    }
  }

  /** The only two octets that bring a register to zero are its own. */
  lemma OnlyItself(c: reg, a: octet, b: octet)
    ensures Run(c, [a, b]) == 0 <==> a == HighOctet(c) && b == LowOctet(c)
  {
    RunOverItself(c);
    if Run(c, [a, b]) == 0 {
      TwoOctetsInjective(c, a, b, HighOctet(c), LowOctet(c));
    }
  }

  /** From one register, two different pairs of octets lead to different registers. */
  lemma TwoOctetsInjective(c: reg, a: octet, b: octet, p: octet, q: octet)
    requires Run(c, [a, b]) == Run(c, [p, q])
    ensures a == p && b == q
  {
    hide Xor, Steps, Lifted, Run, Raise, Top, Clear;
    RunTwo(c, a, b);
    RunTwo(c, p, q);
    var d, e := Steps(Xor(c, Lifted(a)), 8), Steps(Xor(c, Lifted(p)), 8);
    StepsInjective(Xor(d, Lifted(b)), Xor(e, Lifted(q)), 8);
    // d and e differ by the eight turns of a lone octet, whose low half would
    // have to be zero.
    StepsXor(c, Lifted(a), 8);
    StepsXor(c, Lifted(p), 8);
    var s := Steps(c, 8);
    var x, y := Steps(Lifted(a), 8), Steps(Lifted(p), 8);
    assert Xor(Xor(s, x), Lifted(b)) == Xor(Xor(s, y), Lifted(q));
    CancelFirst(s, x, Lifted(b), y, Lifted(q));
    assert Xor(x, Lifted(b)) == Xor(y, Lifted(q));
    SixteenBack(a, b);
    SixteenBack(p, q);
    StepsInjective(Pair(a, b), Pair(p, q), 8);
    PairInjective(a, b, p, q);
  }

  lemma CancelFirst(s: reg, x: reg, u: reg, y: reg, v: reg)
    requires Xor(Xor(s, x), u) == Xor(Xor(s, y), v)
    ensures Xor(x, u) == Xor(y, v)
  {
    hide Xor;
    XorAssoc(s, x, u);
    XorAssoc(s, y, v);
    XorComm(s, Xor(x, u));
    XorComm(s, Xor(y, v));
    XorCancel(Xor(x, u), Xor(y, v), s);
  }

  function Pair(a: octet, b: octet): reg { Xor(Lifted(a), Wide(b)) }

  lemma PairInjective(a: octet, b: octet, p: octet, q: octet)
    requires Pair(a, b) == Pair(p, q)
    ensures a == p && b == q
  {
  }

  lemma ClearWide(b: octet)
    ensures Clear(Wide(b), 0xFF00)
  {}

  lemma SixteenBack(a: octet, b: octet)
    ensures Steps(Pair(a, b), 8) == Xor(Steps(Lifted(a), 8), Lifted(b))
  {
    hide Xor, Steps, Wide, Raise, Clear;
    StepsXor(Lifted(a), Wide(b), 8);
    ClearWide(b);
    EightOfRest(Wide(b));
  }

  // --- The table ----------------------------------------------------------

  function Slot(b: octet): (n: nat)
    ensures n < 256
  {
    b as int
  }

  function Row(j: nat): (r: seq<reg>)
    requires j < 32
    ensures |r| == 8
  {
    match j
    case 0 => [0x0000, 0x1021, 0x2042, 0x3063, 0x4084, 0x50a5, 0x60c6, 0x70e7]
    case 1 => [0x8108, 0x9129, 0xa14a, 0xb16b, 0xc18c, 0xd1ad, 0xe1ce, 0xf1ef]
    case 2 => [0x1231, 0x0210, 0x3273, 0x2252, 0x52b5, 0x4294, 0x72f7, 0x62d6]
    case 3 => [0x9339, 0x8318, 0xb37b, 0xa35a, 0xd3bd, 0xc39c, 0xf3ff, 0xe3de]
    case 4 => [0x2462, 0x3443, 0x0420, 0x1401, 0x64e6, 0x74c7, 0x44a4, 0x5485]
    case 5 => [0xa56a, 0xb54b, 0x8528, 0x9509, 0xe5ee, 0xf5cf, 0xc5ac, 0xd58d]
    case 6 => [0x3653, 0x2672, 0x1611, 0x0630, 0x76d7, 0x66f6, 0x5695, 0x46b4]
    case 7 => [0xb75b, 0xa77a, 0x9719, 0x8738, 0xf7df, 0xe7fe, 0xd79d, 0xc7bc]
    case 8 => [0x48c4, 0x58e5, 0x6886, 0x78a7, 0x0840, 0x1861, 0x2802, 0x3823]
    case 9 => [0xc9cc, 0xd9ed, 0xe98e, 0xf9af, 0x8948, 0x9969, 0xa90a, 0xb92b]
    case 10 => [0x5af5, 0x4ad4, 0x7ab7, 0x6a96, 0x1a71, 0x0a50, 0x3a33, 0x2a12]
    case 11 => [0xdbfd, 0xcbdc, 0xfbbf, 0xeb9e, 0x9b79, 0x8b58, 0xbb3b, 0xab1a]
    case 12 => [0x6ca6, 0x7c87, 0x4ce4, 0x5cc5, 0x2c22, 0x3c03, 0x0c60, 0x1c41]
    case 13 => [0xedae, 0xfd8f, 0xcdec, 0xddcd, 0xad2a, 0xbd0b, 0x8d68, 0x9d49]
    case 14 => [0x7e97, 0x6eb6, 0x5ed5, 0x4ef4, 0x3e13, 0x2e32, 0x1e51, 0x0e70]
    case 15 => [0xff9f, 0xefbe, 0xdfdd, 0xcffc, 0xbf1b, 0xaf3a, 0x9f59, 0x8f78]
    case 16 => [0x9188, 0x81a9, 0xb1ca, 0xa1eb, 0xd10c, 0xc12d, 0xf14e, 0xe16f]
    case 17 => [0x1080, 0x00a1, 0x30c2, 0x20e3, 0x5004, 0x4025, 0x7046, 0x6067]
    case 18 => [0x83b9, 0x9398, 0xa3fb, 0xb3da, 0xc33d, 0xd31c, 0xe37f, 0xf35e]
    case 19 => [0x02b1, 0x1290, 0x22f3, 0x32d2, 0x4235, 0x5214, 0x6277, 0x7256]
    case 20 => [0xb5ea, 0xa5cb, 0x95a8, 0x8589, 0xf56e, 0xe54f, 0xd52c, 0xc50d]
    case 21 => [0x34e2, 0x24c3, 0x14a0, 0x0481, 0x7466, 0x6447, 0x5424, 0x4405]
    case 22 => [0xa7db, 0xb7fa, 0x8799, 0x97b8, 0xe75f, 0xf77e, 0xc71d, 0xd73c]
    case 23 => [0x26d3, 0x36f2, 0x0691, 0x16b0, 0x6657, 0x7676, 0x4615, 0x5634]
    case 24 => [0xd94c, 0xc96d, 0xf90e, 0xe92f, 0x99c8, 0x89e9, 0xb98a, 0xa9ab]
    case 25 => [0x5844, 0x4865, 0x7806, 0x6827, 0x18c0, 0x08e1, 0x3882, 0x28a3]
    case 26 => [0xcb7d, 0xdb5c, 0xeb3f, 0xfb1e, 0x8bf9, 0x9bd8, 0xabbb, 0xbb9a]
    case 27 => [0x4a75, 0x5a54, 0x6a37, 0x7a16, 0x0af1, 0x1ad0, 0x2ab3, 0x3a92]
    case 28 => [0xfd2e, 0xed0f, 0xdd6c, 0xcd4d, 0xbdaa, 0xad8b, 0x9de8, 0x8dc9]
    case 29 => [0x7c26, 0x6c07, 0x5c64, 0x4c45, 0x3ca2, 0x2c83, 0x1ce0, 0x0cc1]
    case 30 => [0xef1f, 0xff3e, 0xcf5d, 0xdf7c, 0xaf9b, 0xbfba, 0x8fd9, 0x9ff8]
    case _ => [0x6e17, 0x7e36, 0x4e55, 0x5e74, 0x2e93, 0x3eb2, 0x0ed1, 0x1ef0]
  }

  function Entry(n: nat): reg
    requires n < 256
  {
    Row(n / 8)[n % 8]
  }

  predicate Paired(r: seq<reg>)
    requires |r| == 8
  {
    r[1] == Xor(r[0], POLY) && r[3] == Xor(r[2], POLY) && r[5] == Xor(r[4], POLY) && r[7] == Xor(r[6], POLY)
  }

  predicate Doubled(r: seq<reg>, s: seq<reg>, t: seq<reg>)
    requires |r| == |s| == |t| == 8
  {
    Step(r[0]) == s[0] && Step(r[1]) == s[2] && Step(r[2]) == s[4] && Step(r[3]) == s[6]
    && Step(r[4]) == t[0] && Step(r[5]) == t[2] && Step(r[6]) == t[4] && Step(r[7]) == t[6]
  }

  lemma RowsPaired0(j: nat)
    requires 0 <= j < 8
    ensures Paired(Row(j))
  {
    match j
    case 0 =>
    case 1 =>
    case 2 =>
    case 3 =>
    case 4 =>
    case 5 =>
    case 6 =>
    case _ =>
  }

  lemma RowsPaired1(j: nat)
    requires 8 <= j < 16
    ensures Paired(Row(j))
  {
    match j
    case 8 =>
    case 9 =>
    case 10 =>
    case 11 =>
    case 12 =>
    case 13 =>
    case 14 =>
    case _ =>
  }

  lemma RowsPaired2(j: nat)
    requires 16 <= j < 24
    ensures Paired(Row(j))
  {
    match j
    case 16 =>
    case 17 =>
    case 18 =>
    case 19 =>
    case 20 =>
    case 21 =>
    case 22 =>
    case _ =>
  }

  lemma RowsPaired3(j: nat)
    requires 24 <= j < 32
    ensures Paired(Row(j))
  {
    match j
    case 24 =>
    case 25 =>
    case 26 =>
    case 27 =>
    case 28 =>
    case 29 =>
    case 30 =>
    case _ =>
  }

  lemma RowsDoubled0(j: nat)
    requires 0 <= j < 4
    ensures Doubled(Row(j), Row(2 * j), Row(2 * j + 1))
  {
    match j
    case 0 =>
    case 1 =>
    case 2 =>
    case _ =>
  }

  lemma RowsDoubled1(j: nat)
    requires 4 <= j < 8
    ensures Doubled(Row(j), Row(2 * j), Row(2 * j + 1))
  {
    match j
    case 4 =>
    case 5 =>
    case 6 =>
    case _ =>
  }

  lemma RowsDoubled2(j: nat)
    requires 8 <= j < 12
    ensures Doubled(Row(j), Row(2 * j), Row(2 * j + 1))
  {
    match j
    case 8 =>
    case 9 =>
    case 10 =>
    case _ =>
  }

  lemma RowsDoubled3(j: nat)
    requires 12 <= j < 16
    ensures Doubled(Row(j), Row(2 * j), Row(2 * j + 1))
  {
    match j
    case 12 =>
    case 13 =>
    case 14 =>
    case _ =>
  }

  lemma PairedAt(r: seq<reg>, i: nat)
    requires |r| == 8 && Paired(r) && i < 8 && i % 2 == 1
    ensures r[i] == Xor(r[i - 1], POLY)
  {
    hide Xor;
  }

  lemma RowsPaired(j: nat)
    requires j < 32
    ensures Paired(Row(j))
  {
    hide Row, Paired;
    if j < 8 {
      RowsPaired0(j);
    } else if j < 16 {
      RowsPaired1(j);
    } else if j < 24 {
      RowsPaired2(j);
    } else {
      RowsPaired3(j);
    }
  }

  lemma EntryOdd(n: nat)
    requires n < 256 && n % 2 == 1
    ensures Entry(n) == Xor(Entry(n - 1), POLY)
  {
    hide Row, Xor, Paired;
    var j, i := n / 8, n % 8;
    assert n == 8 * j + i && (n - 1) / 8 == j && (n - 1) % 8 == i - 1;
    RowsPaired(j);
    PairedAt(Row(j), i);
  }

  lemma DoubledAt(r: seq<reg>, s: seq<reg>, t: seq<reg>, i: nat)
    requires |r| == |s| == |t| == 8 && Doubled(r, s, t) && i < 8
    ensures Step(r[i]) == if i < 4 then s[2 * i] else t[2 * i - 8]
  {
    hide Step;
  }

  lemma EntryDouble(n: nat)
    requires n < 128
    ensures Entry(2 * n) == Step(Entry(n))
  {
    hide Row, Step, Doubled;
    var j, i := n / 8, n % 8;
    if j < 4 {
      RowsDoubled0(j);
    } else if j < 8 {
      RowsDoubled1(j);
    } else if j < 12 {
      RowsDoubled2(j);
    } else {
      RowsDoubled3(j);
    }
    DoubledAt(Row(j), Row(2 * j), Row(2 * j + 1), i);
    if i < 4 {
      assert (2 * n) / 8 == 2 * j && (2 * n) % 8 == 2 * i;
    } else {
      assert (2 * n) / 8 == 2 * j + 1 && (2 * n) % 8 == 2 * i - 8;
    }
  }

  lemma EvenOctet(b: octet)
    requires b & 1 == 0
    ensures Double(Lifted(b >> 1)) == Lifted(b) && !Negative(Lifted(b >> 1))
  {
  }

  lemma OddOctet(b: octet)
    requires b & 1 == 1
    ensures Lifted(b) == Xor(Lifted(b ^ 1), 0x0100) && (b ^ 1) & 1 == 0
  {
  }

  lemma SlotHalf(b: octet)
    ensures Slot(b >> 1) == Slot(b) / 2
  {}

  lemma SlotParity(b: octet)
    ensures Slot(b) % 2 == if b & 1 == 1 then 1 else 0
  {}

  lemma SlotOdd(b: octet)
    requires b & 1 == 1
    ensures Slot(b ^ 1) == Slot(b) - 1
  {}

  lemma SlotBack(b: octet)
    ensures Slot(b) as octet == b
  {}

  lemma ZeroSlot(b: octet)
    requires Slot(b) == 0
    ensures Lifted(b) == 0
  {
    SlotBack(b);
  }

  lemma FirstEntries()
    ensures Entry(0) == 0 && Steps(0, 8) == 0 && Steps(0x0100, 8) == POLY
  {
  }

  lemma StepsPositive(x: reg, k: nat)
    requires !Negative(x)
    ensures Steps(x, k + 1) == Steps(Double(x), k)
  {
    hide Negative, Double;
  }

  lemma StepsLast(x: reg, k: nat)
    ensures Steps(x, k + 1) == Step(Steps(x, k))
  {
    hide Step;
    StepsAdd(x, k, 1);
    var y := Steps(x, k);
    assert Steps(Step(y), 0) == Step(y);
  }

  /** Every entry of the constant table is its index turned eight times. */
  lemma {:induction false} EntryIsEightSteps(b: octet)
    ensures Entry(Slot(b)) == Steps(Lifted(b), 8)
    decreases Slot(b)
  {
    hide Entry, Step, Steps, Xor, Negative, Double, Lifted, Slot;
    var n := Slot(b);
    FirstEntries();
    SlotParity(b);
    if b & 1 == 1 {
      OddOctet(b);
      SlotOdd(b);
      EntryOdd(n);
      EntryIsEightSteps(b ^ 1);
      StepsXor(Lifted(b ^ 1), 0x0100, 8);
    } else if n == 0 {
      ZeroSlot(b);
    } else {
      EvenOctet(b);
      SlotHalf(b);
      var h := b >> 1;
      EntryDouble(n / 2);
      EntryIsEightSteps(h);
      StepsPositive(Lifted(h), 7);
      StepsLast(Lifted(b), 7);
    }
  }

  /** crc_itu_t_byte. */
  function ByteStep(crc: reg, data: octet): reg {
    Xor(Raise(crc), Entry(Slot(HighOctet(crc) ^ data)))
  }

  lemma RaiseFold(c: reg, b: octet)
    ensures Raise(Xor(c, Lifted(b))) == Raise(c)
  {
    hide Raise, Xor, Wide;
    RaiseXor(c, Lifted(b));
    RaiseLifted(b);
    XorZero(Raise(c));
  }

  /** The table step feeds one octet. */
  lemma ByteStepIsRun(crc: reg, data: octet)
    ensures ByteStep(crc, data) == Steps(Xor(crc, Lifted(data)), 8)
  {
    hide Xor, Raise, Top, Steps, Entry, Slot, HighOctet, Lifted;
    var x := Xor(crc, Lifted(data));
    EightSteps(x);
    TopLifted(x);
    HighOctetXor(crc, data);
    RaiseFold(crc, data);
    EntryIsEightSteps(HighOctet(x));
  }

  method Compute(start: reg, buffer: seq<octet>) returns (crc: reg)
    ensures crc == Run(start, buffer)
  {
    hide Xor, Run, ByteStep, Steps, Lifted;
    crc := start;
    assert Run(start, []) == start by { RunNothing(start); }
    var k := 0;
    while k < |buffer|
      invariant 0 <= k <= |buffer|
      invariant crc == Run(start, buffer[..k])
    {
      ByteStepIsRun(crc, buffer[k]);
      RunOne(crc, buffer[k]);
      RunConcat(start, buffer[..k], [buffer[k]]);
      assert buffer[..k] + [buffer[k]] == buffer[..k + 1];
      crc := ByteStep(crc, buffer[k]);
      k := k + 1;
    }
    assert buffer[..k] == buffer;
  }

  lemma RunNothing(c: reg)
    ensures Run(c, []) == c
  {
  }

  // --- The polynomial remainder -------------------------------------------

  /** The k leading bits of a register. */
  function HighBits(c: reg, k: nat): (s: Poly)
    ensures |s| == k
    decreases k
  {
    if k == 0 then [] else [Negative(c)] + HighBits(Double(c), k - 1)
  }

  function Bits(c: reg): (p: Poly)
    ensures |p| == 16
  {
    HighBits(c, 16)
  }

  function Generator(): (g: Poly)
    ensures |g| == 16
  {
    seq(16, i => 15 - i == 12 || 15 - i == 5 || 15 - i == 0)
  }

  function MessageBits(s: seq<octet>): (m: Poly)
    ensures |m| == 8 * |s|
    decreases |s|
  {
    if s == [] then [] else HighBits(Lifted(s[0]), 8) + MessageBits(s[1..])
  }

  function BitReg(b: bool): reg { if b then 0x8000 else 0 }

  function BitSerial(c: reg, bits: Poly): reg
    decreases |bits|
  {
    if bits == [] then c else BitSerial(Step(Xor(c, BitReg(bits[0]))), bits[1..])
  }

  lemma SignBit(x: reg)
    ensures BitReg(Negative(x)) == x & 0x8000
  {}

  lemma SignAndRest(x: reg)
    ensures Xor(x & 0x8000, x & 0x7FFF) == x
  {}

  lemma FirstBit(x: reg)
    ensures Xor(BitReg(Negative(x)), x & 0x7FFF) == x
  {
    hide Xor, BitReg, Negative;
    SignBit(x); SignAndRest(x);
  }

  lemma RestBits(x: reg)
    ensures !Negative(x & 0x7FFF) && Double(x & 0x7FFF) == Double(x)
  {}

  lemma StepBit(c: reg, x: reg)
    ensures Step(Xor(c, x)) == Xor(Step(Xor(c, BitReg(Negative(x)))), Double(x))
  {
    hide Xor, Negative, Double, BitReg;
    var b := BitReg(Negative(x));
    var e := x & 0x7FFF;
    FirstBit(x);
    RestBits(x);
    XorAssoc(c, b, e);
    StepXor(Xor(c, b), e);
  }

  lemma {:induction false} StepsAreSerial(c: reg, x: reg, k: nat)
    ensures Steps(Xor(c, x), k) == Xor(BitSerial(c, HighBits(x, k)), Doubles(x, k))
    decreases k
  {
    hide Xor, Negative, Double, Step, BitReg;
    if k > 0 {
      var d := Step(Xor(c, BitReg(Negative(x))));
      StepBit(c, x);
      StepsAreSerial(d, Double(x), k - 1);
      assert HighBits(x, k)[1..] == HighBits(Double(x), k - 1);
    }
  }

  lemma {:induction false} SerialConcat(c: reg, s: Poly, t: Poly)
    ensures BitSerial(c, s + t) == BitSerial(BitSerial(c, s), t)
    decreases |s|
  {
    hide Xor, Step, BitReg;
    if s == [] {
      assert s + t == t;
    } else {
      assert (s + t)[1..] == s[1..] + t && (s + t)[0] == s[0];
      SerialConcat(Step(Xor(c, BitReg(s[0]))), s[1..], t);
    }
  }

  lemma SerialNothing(c: reg)
    ensures BitSerial(c, []) == c
  {
  }

  lemma {:induction false} RunIsSerial(c: reg, s: seq<octet>)
    ensures Run(c, s) == BitSerial(c, MessageBits(s))
    decreases |s|
  {
    hide Xor, Steps, Lifted, HighBits, BitSerial, Doubles, Raise;
    if s == [] {
      assert MessageBits(s) == [];
      SerialNothing(c);
    } else {
      var w := Lifted(s[0]);
      StepsAreSerial(c, w, 8);
      EightDoubles(w);
      RaiseLifted(s[0]);
      var d := BitSerial(c, HighBits(w, 8));
      XorZero(d);
      SerialConcat(c, HighBits(w, 8), MessageBits(s[1..]));
      RunIsSerial(d, s[1..]);
    }
  }

  lemma {:induction false} HighBitsConcat(c: reg, j: nat, k: nat)
    ensures HighBits(c, j + k) == HighBits(c, j) + HighBits(Doubles(c, j), k)
    decreases j
  {
    hide Negative, Double;
    if j > 0 {
      HighBitsConcat(Double(c), j - 1, k);
    }
  }

  lemma {:induction false} HighBitsXor(x: reg, y: reg, k: nat)
    ensures forall i :: 0 <= i < k ==> HighBits(Xor(x, y), k)[i] == (HighBits(x, k)[i] != HighBits(y, k)[i])
    decreases k
  {
    hide Xor, Negative, Double;
    if k > 0 {
      DoubleXor(x, y);
      NegativeXor(x, y);
      HighBitsXor(Double(x), Double(y), k - 1);
    }
  }

  lemma RaiseTwice(x: reg)
    ensures Raise(Raise(x)) == 0
  {}

  lemma {:induction false} DoublesAdd(c: reg, j: nat, k: nat)
    ensures Doubles(Doubles(c, j), k) == Doubles(c, j + k)
    decreases j
  {
    hide Double;
    if j > 0 {
      DoublesAdd(Double(c), j - 1, k);
    }
  }

  lemma AllDoubles(x: reg)
    ensures Doubles(x, 16) == 0
  {
    hide Double, Doubles, Raise;
    DoublesAdd(x, 8, 8);
    EightDoubles(x);
    EightDoubles(Raise(x));
    RaiseTwice(x);
  }

  lemma OneBit(x: reg)
    ensures HighBits(x, 1) == [Negative(x)] && Doubles(x, 1) == Double(x) && !Negative(0)
  {
    assert HighBits(Double(x), 0) == [];
    assert Doubles(Double(x), 0) == Double(x);
  }

  lemma LastBit(x: reg)
    ensures Bits(Double(x)) == Bits(x)[1..] + [false]
  {
    hide Double, Doubles, HighBits;
    AllDoubles(x);
    HighBitsConcat(x, 1, 16);
    HighBitsConcat(x, 16, 1);
    OneBit(x);
    OneBit(0);
    assert HighBits(x, 17)[1..] == Bits(Double(x));
    assert HighBits(x, 17) == Bits(x) + [false];
  }

  lemma GeneratorOctet0()
    ensures HighBits(POLY, 8) == [false, false, false, true, false, false, false, false]
  {}

  lemma GeneratorOctet1()
    ensures HighBits(0x2100, 8) == [false, false, true, false, false, false, false, true]
  {}

  lemma GeneratorBits()
    ensures Bits(POLY) == Generator()
  {
    hide Double, HighBits, Doubles, Negative;
    GeneratorOctet0();
    GeneratorOctet1();
    EightDoubles(POLY);
    HighBitsConcat(POLY, 8, 8);
  }

  lemma BitsXor(x: reg, y: reg)
    ensures Bits(Xor(x, y)) == AddFront(Bits(x), Bits(y))
  {
    hide Xor, HighBits;
    HighBitsXor(x, y, 16);
  }

  lemma StepBits(c: reg)
    ensures Bits(Step(c)) == AddFront(if Negative(c) then Generator() else [], Bits(c)[1..] + [false])
  {
    hide Xor, Double, HighBits, Generator, Bits, AddFront;
    LastBit(c);
    if Negative(c) {
      GeneratorBits();
      XorComm(Double(c), POLY);
      BitsXor(POLY, Double(c));
    } else {
      AddNothing(Bits(Double(c)));
    }
  }

  lemma {:induction false} ZeroBits(k: nat)
    ensures HighBits(0, k) == Zeros(k)
    decreases k
  {
    if k > 0 {
      ZeroBits(k - 1);
    }
  }

  lemma FrontBit(b: bool)
    ensures Bits(BitReg(b)) == [b] + Zeros(15)
  {
    ZeroBits(15);
    assert HighBits(0x8000, 16) == [true] + HighBits(0, 15);
    assert HighBits(0, 16) == [false] + HighBits(0, 15);
  }

  lemma FrontNegative(x: reg)
    ensures Bits(x)[0] == Negative(x)
  {
  }

  lemma DivideOnce(c: reg, b: bool, m: Poly)
    ensures var d := AddFront(Bits(c), [b] + m + Zeros(16));
      var e := AddFront(Bits(Step(Xor(c, BitReg(b)))), m + Zeros(16));
      e == if d[0] then AddFront(Generator(), d[1..]) else d[1..]
  {
    hide Xor, Double, HighBits, Generator, Step, Negative, BitReg;
    var x := Xor(c, BitReg(b));
    StepBits(x);
    BitsXor(BitReg(b), c);
    XorComm(c, BitReg(b));
    FrontBit(b);
    FrontNegative(x);
    assert [b] + m + Zeros(16) == [b] + (m + Zeros(16));
    assert forall i :: 1 <= i < 16 ==> Bits(x)[i] == Bits(c)[i];
    ShiftDivides(Generator(), Bits(c), Bits(x), Bits(Step(x)), b, m + Zeros(16));
  }

  /**
   * The checksum is the remainder by x^16 + x^12 + x^5 + 1 of the message times
   * x^16, the initial register added to its front: section 2 of ITU-T V.41.
   */
  lemma {:induction false} SerialIsRemainder(c: reg, m: Poly)
    ensures Bits(BitSerial(c, m)) == Remainder(Generator(), AddFront(Bits(c), m + Zeros(16)))
    decreases |m|
  {
    hide Xor, Negative, HighBits, Generator, Step, AddFront, Bits, BitReg;
    if m == [] {
      assert m + Zeros(16) == Zeros(16);
      AddZeros(Bits(c));
    } else {
      DivideOnce(c, m[0], m[1..]);
      assert [m[0]] + m[1..] + Zeros(16) == m + Zeros(16);
      SerialIsRemainder(Step(Xor(c, BitReg(m[0]))), m[1..]);
    }
  }

  lemma RunIsRemainder(c: reg, s: seq<octet>)
    ensures Bits(Run(c, s)) == Remainder(Generator(), AddFront(Bits(c), MessageBits(s) + Zeros(16)))
  {
    hide Run, BitSerial, Bits, Generator, Remainder, AddFront, MessageBits;
    RunIsSerial(c, s);
    SerialIsRemainder(c, MessageBits(s));
  }
}
