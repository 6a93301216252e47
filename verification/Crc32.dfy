// src/bootloader/myboot/crc32.c and src/program/apue/crc32.c: CRC-32 a word at
// a time, a byte at a time and a bit at a time, and the polynomial remainder.
//
// Facts about the bits of a register are proved one at a time, on one small
// operator each; everything above them works with the operators hidden.
module Crc32 {
  import opened Polynomials

  type reg = bv32
  type octet = bv8

  // The exclusive-or pattern of the generator, reflected.
  const POLY: reg := 0xEDB88320
  const ONES: reg := 0xFFFFFFFF

  // --- Register operators -------------------------------------------------

  function Xor(a: reg, b: reg): reg { a ^ b }

  predicate Odd(c: reg) { c & 1 == 1 }

  function Half(c: reg): reg { c >> 1 }

  function Drop(c: reg): reg { c >> 8 }

  function Raise(c: reg): reg { c << 8 }

  function Top(c: reg): reg { c >> 24 }

  function Low(c: reg): reg { c & 0xFF }

  function High(c: reg): reg { c & 0xFFFFFF00 }

  function Wide(b: octet): reg { b as reg }

  function Narrow(c: reg): octet { (c & 0xFF) as octet }

  predicate Clear(c: reg, mask: reg) { c & mask == 0 }

  lemma XorComm(x: reg, y: reg)
    ensures Xor(x, y) == Xor(y, x)
  {}

  lemma XorAssoc(x: reg, y: reg, z: reg)
    ensures Xor(Xor(x, y), z) == Xor(x, Xor(y, z))
  {}

  lemma XorZero(x: reg)
    ensures Xor(x, 0) == x
  {}

  lemma XorSelf(x: reg)
    ensures Xor(x, x) == 0
  {}

  lemma HalfXor(x: reg, y: reg)
    ensures Half(Xor(x, y)) == Xor(Half(x), Half(y))
  {}

  lemma OddXor(x: reg, y: reg)
    ensures Odd(Xor(x, y)) == (Odd(x) != Odd(y))
  {}

  lemma DropXor(x: reg, y: reg)
    ensures Drop(Xor(x, y)) == Xor(Drop(x), Drop(y))
  {}

  lemma DropWide(b: octet)
    ensures Drop(Wide(b)) == 0
  {}

  lemma DropLow(x: reg)
    ensures Drop(Low(x)) == 0
  {}

  lemma DropHigh(x: reg)
    ensures Drop(High(x)) == Drop(x)
  {}

  lemma LowHigh(x: reg)
    ensures Xor(Low(x), High(x)) == x
  {}

  lemma ClearHigh(x: reg)
    ensures Clear(High(x), 0xFF)
  {}

  lemma ClearHalf(x: reg, m: reg)
    requires Clear(x, m)
    ensures Clear(Half(x), Half(m))
  {}

  lemma ClearOdd(x: reg, m: reg)
    requires Clear(x, m) && Odd(m)
    ensures !Odd(x)
  {}

  lemma WideNarrow(x: reg)
    ensures Wide(Narrow(x)) == Low(x)
  {}

  lemma XorSwapArgs(x: reg, y: reg, z: reg)
    ensures Xor(Xor(x, y), z) == Xor(Xor(x, z), y)
  {
    hide Xor;
    XorAssoc(x, y, z); XorAssoc(x, z, y); XorComm(y, z);
  }

  lemma XorCancel(x: reg, y: reg)
    ensures Xor(Xor(x, y), y) == x
  {
    hide Xor;
    XorAssoc(x, y, y); XorSelf(y); XorZero(x);
  }

  // --- The shift register -------------------------------------------------

  /** One turn of the shift register. */
  function Step(c: reg): reg { if Odd(c) then Xor(POLY, Half(c)) else Half(c) }

  function Steps(c: reg, k: nat): reg
    decreases k
  {
    if k == 0 then c else Steps(Step(c), k - 1)
  }

  function Halves(c: reg, k: nat): reg
    decreases k
  {
    if k == 0 then c else Halves(Half(c), k - 1)
  }

  lemma StepXor(x: reg, y: reg)
    ensures Step(Xor(x, y)) == Xor(Step(x), Step(y))
  {
    hide Xor, Odd, Half;
    var a, b := Half(x), Half(y);
    HalfXor(x, y); OddXor(x, y);
    XorAssoc(POLY, a, b);
    XorComm(POLY, b); XorAssoc(a, b, POLY); XorComm(POLY, Xor(a, b));
    XorSwapArgs(POLY, a, Xor(POLY, b)); XorAssoc(POLY, POLY, b); XorAssoc(POLY, Xor(POLY, b), a);
    XorSelf(POLY); XorComm(0, b); XorZero(b); XorComm(a, b);
    XorAssoc(POLY, POLY, b);
    assert Xor(POLY, Xor(POLY, b)) == b;
  }

  lemma {:induction false} StepsXor(x: reg, y: reg, k: nat)
    ensures Steps(Xor(x, y), k) == Xor(Steps(x, k), Steps(y, k))
    decreases k
  {
    hide Xor, Step;
    if k > 0 {
      StepXor(x, y);
      StepsXor(Step(x), Step(y), k - 1);
    }
  }

  lemma {:induction false} StepsAdd(c: reg, j: nat, k: nat)
    ensures Steps(Steps(c, j), k) == Steps(c, j + k)
    decreases j
  {
    hide Step;
    if j > 0 {
      StepsAdd(Step(c), j - 1, k);
    }
  }

  /** A register whose low bits are clear is only shifted by as many turns. */
  lemma {:induction false} StepsClear(x: reg, m: reg, k: nat)
    requires Clear(x, m) && forall i :: 0 <= i < k ==> Odd(Halves(m, i))
    ensures Steps(x, k) == Halves(x, k)
    decreases k
  {
    hide Clear, Odd, Half;
    if k > 0 {
      assert Odd(Halves(m, 0));
      ClearOdd(x, m);
      ClearHalf(x, m);
      forall i | 0 <= i < k - 1 ensures Odd(Halves(Half(m), i)) {
        assert Odd(Halves(m, i + 1));
      }
      StepsClear(Half(x), Half(m), k - 1);
    }
  }

  lemma EightMask(i: nat)
    requires i < 8
    ensures Odd(Halves(0xFF, i))
  {
    if i > 0 { assert Halves(0xFF, i) == Halves(0x7F, i - 1); }
    if i > 1 { assert Halves(0x7F, i - 1) == Halves(0x3F, i - 2); }
    if i > 2 { assert Halves(0x3F, i - 2) == Halves(0x1F, i - 3); }
    if i > 3 { assert Halves(0x1F, i - 3) == Halves(0x0F, i - 4); }
    if i > 4 { assert Halves(0x0F, i - 4) == Halves(0x07, i - 5); }
    if i > 5 { assert Halves(0x07, i - 5) == Halves(0x03, i - 6); }
    if i > 6 { assert Halves(0x03, i - 6) == Halves(0x01, i - 7); }
  }

  lemma ShiftEight(x: reg)
    ensures x >> 1 >> 1 >> 1 >> 1 >> 1 >> 1 >> 1 >> 1 == x >> 8
  {}

  lemma HalfEight(x: reg)
    ensures Half(Half(Half(Half(Half(Half(Half(Half(x)))))))) == Drop(x)
  {
    ShiftEight(x);
  }

  lemma EightHalves(x: reg)
    ensures Halves(x, 8) == Drop(x)
  {
    hide Half, Drop;
    HalfEight(x);
    assert Halves(x, 8) == Half(Half(Half(Half(Half(Half(Half(Half(x))))))));
  }

  /** Eight turns on a register are one table step on its low octet. */
  lemma EightSteps(x: reg)
    ensures Steps(x, 8) == Xor(Steps(Low(x), 8), Drop(x))
  {
    hide Xor, Low, High, Drop, Step, Steps, Halves, Odd, Half, Clear;
    LowHigh(x);
    StepsXor(Low(x), High(x), 8);
    forall i | 0 <= i < 8 ensures Odd(Halves(0xFF, i)) { EightMask(i); }
    ClearHigh(x);
    StepsClear(High(x), 0xFF, 8);
    EightHalves(High(x));
    DropHigh(x);
  }

  // --- The three forms of the checksum ------------------------------------

  /** Feeds bits one at a time, and so is the definition of section 8 of RFC 1952. */
  function BitSerial(c: reg, bits: seq<bool>): reg
    decreases |bits|
  {
    if bits == [] then c
    else BitSerial(Step(Xor(c, if bits[0] then 1 else 0)), bits[1..])
  }

  /** The k low bits of a register, lowest first: the order of transmission. */
  function LowBits(c: reg, k: nat): (s: seq<bool>)
    ensures |s| == k
    decreases k
  {
    if k == 0 then [] else [Odd(c)] + LowBits(Half(c), k - 1)
  }

  function MessageBits(s: seq<octet>): (m: seq<bool>)
    ensures |m| == 8 * |s|
    decreases |s|
  {
    if s == [] then [] else LowBits(Wide(s[0]), 8) + MessageBits(s[1..])
  }

  /** The register after whole octets, eight turns each. */
  function Run(c: reg, s: seq<octet>): reg
    decreases |s|
  {
    if s == [] then c else Run(Steps(Xor(c, Wide(s[0])), 8), s[1..])
  }

  function Checksum(c: reg, s: seq<octet>): reg {
    Xor(Run(Xor(c, ONES), s), ONES)
  }

  lemma ChecksumIs(c: reg, s: seq<octet>)
    ensures Checksum(c, s) == 0xFFFFFFFF ^ Run(c ^ 0xFFFFFFFF, s)
  {
    hide Run;
  }

  lemma {:induction false} RunConcat(c: reg, s: seq<octet>, t: seq<octet>)
    ensures Run(c, s + t) == Run(Run(c, s), t)
    decreases |s|
  {
    hide Xor, Steps, Wide;
    if s == [] {
      assert s + t == t;
    } else {
      assert (s + t)[1..] == s[1..] + t && (s + t)[0] == s[0];
      RunConcat(Steps(Xor(c, Wide(s[0])), 8), s[1..], t);
    }
  }

  /** Checksums of two halves chain into the checksum of the whole. */
  lemma ChecksumChains(c: reg, s: seq<octet>, t: seq<octet>)
    ensures Checksum(Checksum(c, s), t) == Checksum(c, s + t)
  {
    hide Xor, Run;
    XorCancel(Run(Xor(c, ONES), s), ONES);
    RunConcat(Xor(c, ONES), s, t);
  }

  lemma LowBit(x: reg)
    ensures Xor(if Odd(x) then 1 else 0, x & 0xFFFFFFFE) == x
  {}

  lemma EvenPart(x: reg)
    ensures !Odd(x & 0xFFFFFFFE) && Half(x & 0xFFFFFFFE) == Half(x)
  {}

  lemma StepBit(c: reg, x: reg)
    ensures Step(Xor(c, x)) == Xor(Step(Xor(c, if Odd(x) then 1 else 0)), Half(x))
  {
    hide Xor, Odd, Half;
    var b: reg := if Odd(x) then 1 else 0;
    var e := x & 0xFFFFFFFE;
    LowBit(x);
    EvenPart(x);
    XorAssoc(c, b, e);
    StepXor(Xor(c, b), e);
  }

  /** Folding k bits of x in at once and turning k times, or one at a time. */
  lemma {:induction false} StepsAreSerial(c: reg, x: reg, k: nat)
    ensures Steps(Xor(c, x), k) == Xor(BitSerial(c, LowBits(x, k)), Halves(x, k))
    decreases k
  {
    hide Xor, Odd, Half, Step;
    if k > 0 {
      var d := Step(Xor(c, if Odd(x) then 1 else 0));
      StepBit(c, x);
      StepsAreSerial(d, Half(x), k - 1);
      assert LowBits(x, k)[1..] == LowBits(Half(x), k - 1);
    }
  }

  lemma {:induction false} SerialConcat(c: reg, s: seq<bool>, t: seq<bool>)
    ensures BitSerial(c, s + t) == BitSerial(BitSerial(c, s), t)
    decreases |s|
  {
    hide Xor, Step;
    if s == [] {
      assert s + t == t;
    } else {
      assert (s + t)[1..] == s[1..] + t && (s + t)[0] == s[0];
      SerialConcat(Step(Xor(c, if s[0] then 1 else 0)), s[1..], t);
    }
  }

  /** The octet form and the bit form agree on every message. */
  lemma {:induction false} RunIsSerial(c: reg, s: seq<octet>)
    ensures Run(c, s) == BitSerial(c, MessageBits(s))
    decreases |s|
  {
    hide Xor, Steps, Wide, LowBits, BitSerial, Halves, Drop;
    if s == [] {
      assert MessageBits(s) == [];
      SerialNothing(c);
    } else {
      var w := Wide(s[0]);
      StepsAreSerial(c, w, 8);
      EightHalves(w);
      DropWide(s[0]);
      var d := BitSerial(c, LowBits(w, 8));
      XorZero(d);
      SerialConcat(c, LowBits(w, 8), MessageBits(s[1..]));
      RunIsSerial(d, s[1..]);
    }
  }

  lemma SerialNothing(c: reg)
    ensures BitSerial(c, []) == c
  {
  }

  // --- The polynomial remainder -------------------------------------------

  predicate InGenerator(power: int) {
    power == 0 || power == 1 || power == 2 || power == 4 || power == 5 || power == 7 || power == 8
    || power == 10 || power == 11 || power == 12 || power == 16 || power == 22 || power == 23 || power == 26
  }

  /** x^26 + x^23 + ... + x + 1: the generator without its leading x^32. */
  function Generator(): (g: Poly)
    ensures |g| == 32
  {
    seq(32, i => InGenerator(31 - i))
  }

  /** The remainder polynomial a register stands for: bit 0 is the power 31. */
  function Bits(c: reg): (p: Poly)
    ensures |p| == 32
  {
    LowBits(c, 32)
  }

  lemma {:induction false} LowBitsConcat(c: reg, j: nat, k: nat)
    ensures LowBits(c, j + k) == LowBits(c, j) + LowBits(Halves(c, j), k)
    decreases j
  {
    hide Odd, Half;
    if j > 0 {
      LowBitsConcat(Half(c), j - 1, k);
    }
  }

  lemma {:induction false} LowBitsXor(x: reg, y: reg, k: nat)
    ensures forall i :: 0 <= i < k ==> LowBits(Xor(x, y), k)[i] == (LowBits(x, k)[i] != LowBits(y, k)[i])
    decreases k
  {
    hide Xor, Odd, Half;
    if k > 0 {
      HalfXor(x, y);
      OddXor(x, y);
      LowBitsXor(Half(x), Half(y), k - 1);
    }
  }

  lemma DropFour(x: reg)
    ensures Drop(Drop(Drop(Drop(x)))) == 0
  {}

  lemma {:induction false} HalvesAdd(c: reg, j: nat, k: nat)
    ensures Halves(Halves(c, j), k) == Halves(c, j + k)
    decreases j
  {
    hide Half;
    if j > 0 {
      HalvesAdd(Half(c), j - 1, k);
    }
  }

  lemma AllHalves(x: reg)
    ensures Halves(x, 32) == 0
  {
    hide Half, Drop, Halves;
    HalvesAdd(x, 8, 8); HalvesAdd(x, 16, 8); HalvesAdd(x, 24, 8);
    EightHalves(x); EightHalves(Halves(x, 8)); EightHalves(Halves(x, 16)); EightHalves(Halves(x, 24));
    DropFour(x);
  }

  lemma LastBit(x: reg)
    ensures Bits(Half(x)) == Bits(x)[1..] + [false]
  {
    hide Half, Halves, LowBits;
    AllHalves(x);
    LowBitsConcat(x, 1, 32);
    LowBitsConcat(x, 32, 1);
    OneBit(x);
    OneBit(0);
    assert LowBits(x, 33)[1..] == Bits(Half(x));
    assert LowBits(x, 33) == Bits(x) + [false];
  }

  lemma OneBit(x: reg)
    ensures LowBits(x, 1) == [Odd(x)] && Halves(x, 1) == Half(x) && Odd(0) == false
  {
    assert LowBits(Half(x), 0) == [];
    assert Halves(Half(x), 0) == Half(x);
  }

  lemma GeneratorOctet0()
    ensures LowBits(POLY, 8) == [false, false, false, false, false, true, false, false]
  {}

  lemma GeneratorOctet1()
    ensures LowBits(0xEDB883, 8) == [true, true, false, false, false, false, false, true]
  {}

  lemma GeneratorOctet2()
    ensures LowBits(0xEDB8, 8) == [false, false, false, true, true, true, false, true]
  {}

  lemma GeneratorOctet3()
    ensures LowBits(0xED, 8) == [true, false, true, true, false, true, true, true]
  {}

  lemma GeneratorDrops()
    ensures Drop(POLY) == 0xEDB883 && Drop(0xEDB883) == 0xEDB8 && Drop(0xEDB8) == 0xED
  {}

  lemma GeneratorBits()
    ensures Bits(POLY) == Generator()
  {
    hide Half, LowBits, Halves, Odd, Drop;
    GeneratorOctet0(); GeneratorOctet1(); GeneratorOctet2(); GeneratorOctet3();
    GeneratorDrops();
    EightHalves(POLY); EightHalves(0xEDB883); EightHalves(0xEDB8);
    LowBitsConcat(POLY, 8, 24); LowBitsConcat(0xEDB883, 8, 16); LowBitsConcat(0xEDB8, 8, 8);
  }

  /** What a turn does to the bits: drop the front one and subtract the generator if it was set. */
  lemma StepBits(c: reg)
    ensures Bits(Step(c)) == AddFront(if Odd(c) then Generator() else [], Bits(c)[1..] + [false])
  {
    hide Xor, Half, LowBits, Generator, Bits, AddFront;
    LastBit(c);
    if Odd(c) {
      GeneratorBits();
      BitsXor(POLY, Half(c));
    } else {
      AddNothing(Bits(Half(c)));
    }
  }

  lemma BitsXor(x: reg, y: reg)
    ensures Bits(Xor(x, y)) == AddFront(Bits(x), Bits(y))
  {
    hide Xor, LowBits;
    LowBitsXor(x, y, 32);
  }

  /** Feeding one bit into the register is one round of the long division. */
  lemma DivideOnce(c: reg, b: bool, m: seq<bool>)
    ensures var d := AddFront(Bits(c), [b] + m + Zeros(32));
      var e := AddFront(Bits(Step(Xor(c, if b then 1 else 0))), m + Zeros(32));
      e == if d[0] then AddFront(Generator(), d[1..]) else d[1..]
  {
    hide Xor, Half, LowBits, Generator, Step, Odd;
    var x := Xor(c, if b then 1 else 0);
    StepBits(x);
    BitsXor(if b then 1 else 0, c);
    XorComm(c, if b then 1 else 0);
    FrontBit(b);
    FrontOdd(x);
    assert [b] + m + Zeros(32) == [b] + (m + Zeros(32));
    assert forall i :: 1 <= i < 32 ==> Bits(x)[i] == Bits(c)[i];
    ShiftDivides(Generator(), Bits(c), Bits(x), Bits(Step(x)), b, m + Zeros(32));
  }

  lemma FrontBit(b: bool)
    ensures Bits(if b then 1 else 0) == [b] + Zeros(31)
  {
    ZeroBits(31);
    assert LowBits(1, 32) == [true] + LowBits(0, 31);
    assert LowBits(0, 32) == [false] + LowBits(0, 31);
  }

  lemma {:induction false} ZeroBits(k: nat)
    ensures LowBits(0, k) == Zeros(k)
    decreases k
  {
    if k > 0 {
      ZeroBits(k - 1);
    }
  }

  lemma FrontOdd(x: reg)
    ensures Bits(x)[0] == Odd(x)
  {
  }

  /**
   * The bit-serial checksum is the remainder of the message, followed by 32
   * zeros and with the initial register added to its front, by the generator.
   */
  lemma {:induction false} SerialIsRemainder(c: reg, m: seq<bool>)
    ensures Bits(BitSerial(c, m)) == Remainder(Generator(), AddFront(Bits(c), m + Zeros(32)))
    decreases |m|
  {
    hide Xor, Odd, LowBits, Generator, Step, AddFront, Bits;
    if m == [] {
      assert m + Zeros(32) == Zeros(32);
      AddZeros(Bits(c));
    } else {
      DivideOnce(c, m[0], m[1..]);
      assert [m[0]] + m[1..] + Zeros(32) == m + Zeros(32);
      SerialIsRemainder(Step(Xor(c, if m[0] then 1 else 0)), m[1..]);
    }
  }

  /** The register after a message, as the remainder of a polynomial division. */
  lemma RunIsRemainder(c: reg, s: seq<octet>)
    ensures Bits(Run(c, s)) == Remainder(Generator(), AddFront(Bits(c), MessageBits(s) + Zeros(32)))
  {
    hide Run, BitSerial, Bits, Generator, Remainder, AddFront, MessageBits;
    RunIsSerial(c, s);
    SerialIsRemainder(c, MessageBits(s));
  }

  // --- The tables ---------------------------------------------------------

  function Slot(b: octet): (n: nat)
    ensures n < 256
  {
    b as int
  }

  lemma SlotBack(b: octet)
    ensures Slot(b) as octet == b
  {
  }

  /** What entry b of every CRC-32 table is: the octet b turned eight times. */
  ghost predicate IsTable(tab: seq<reg>) {
    |tab| == 256 && forall b: octet :: tab[Slot(b)] == Steps(Wide(b), 8)
  }

  function Row(j: nat): (r: seq<reg>)
    requires j < 32
    ensures |r| == 8
  {
    match j
    case 0 => [0x00000000, 0x77073096, 0xee0e612c, 0x990951ba,
               0x076dc419, 0x706af48f, 0xe963a535, 0x9e6495a3]
    case 1 => [0x0edb8832, 0x79dcb8a4, 0xe0d5e91e, 0x97d2d988,
               0x09b64c2b, 0x7eb17cbd, 0xe7b82d07, 0x90bf1d91]
    case 2 => [0x1db71064, 0x6ab020f2, 0xf3b97148, 0x84be41de,
               0x1adad47d, 0x6ddde4eb, 0xf4d4b551, 0x83d385c7]
    case 3 => [0x136c9856, 0x646ba8c0, 0xfd62f97a, 0x8a65c9ec,
               0x14015c4f, 0x63066cd9, 0xfa0f3d63, 0x8d080df5]
    case 4 => [0x3b6e20c8, 0x4c69105e, 0xd56041e4, 0xa2677172,
               0x3c03e4d1, 0x4b04d447, 0xd20d85fd, 0xa50ab56b]
    case 5 => [0x35b5a8fa, 0x42b2986c, 0xdbbbc9d6, 0xacbcf940,
               0x32d86ce3, 0x45df5c75, 0xdcd60dcf, 0xabd13d59]
    case 6 => [0x26d930ac, 0x51de003a, 0xc8d75180, 0xbfd06116,
               0x21b4f4b5, 0x56b3c423, 0xcfba9599, 0xb8bda50f]
    case 7 => [0x2802b89e, 0x5f058808, 0xc60cd9b2, 0xb10be924,
               0x2f6f7c87, 0x58684c11, 0xc1611dab, 0xb6662d3d]
    case 8 => [0x76dc4190, 0x01db7106, 0x98d220bc, 0xefd5102a,
               0x71b18589, 0x06b6b51f, 0x9fbfe4a5, 0xe8b8d433]
    case 9 => [0x7807c9a2, 0x0f00f934, 0x9609a88e, 0xe10e9818,
               0x7f6a0dbb, 0x086d3d2d, 0x91646c97, 0xe6635c01]
    case 10 => [0x6b6b51f4, 0x1c6c6162, 0x856530d8, 0xf262004e,
               0x6c0695ed, 0x1b01a57b, 0x8208f4c1, 0xf50fc457]
    case 11 => [0x65b0d9c6, 0x12b7e950, 0x8bbeb8ea, 0xfcb9887c,
               0x62dd1ddf, 0x15da2d49, 0x8cd37cf3, 0xfbd44c65]
    case 12 => [0x4db26158, 0x3ab551ce, 0xa3bc0074, 0xd4bb30e2,
               0x4adfa541, 0x3dd895d7, 0xa4d1c46d, 0xd3d6f4fb]
    case 13 => [0x4369e96a, 0x346ed9fc, 0xad678846, 0xda60b8d0,
               0x44042d73, 0x33031de5, 0xaa0a4c5f, 0xdd0d7cc9]
    case 14 => [0x5005713c, 0x270241aa, 0xbe0b1010, 0xc90c2086,
               0x5768b525, 0x206f85b3, 0xb966d409, 0xce61e49f]
    case 15 => [0x5edef90e, 0x29d9c998, 0xb0d09822, 0xc7d7a8b4,
               0x59b33d17, 0x2eb40d81, 0xb7bd5c3b, 0xc0ba6cad]
    case 16 => [0xedb88320, 0x9abfb3b6, 0x03b6e20c, 0x74b1d29a,
               0xead54739, 0x9dd277af, 0x04db2615, 0x73dc1683]
    case 17 => [0xe3630b12, 0x94643b84, 0x0d6d6a3e, 0x7a6a5aa8,
               0xe40ecf0b, 0x9309ff9d, 0x0a00ae27, 0x7d079eb1]
    case 18 => [0xf00f9344, 0x8708a3d2, 0x1e01f268, 0x6906c2fe,
               0xf762575d, 0x806567cb, 0x196c3671, 0x6e6b06e7]
    case 19 => [0xfed41b76, 0x89d32be0, 0x10da7a5a, 0x67dd4acc,
               0xf9b9df6f, 0x8ebeeff9, 0x17b7be43, 0x60b08ed5]
    case 20 => [0xd6d6a3e8, 0xa1d1937e, 0x38d8c2c4, 0x4fdff252,
               0xd1bb67f1, 0xa6bc5767, 0x3fb506dd, 0x48b2364b]
    case 21 => [0xd80d2bda, 0xaf0a1b4c, 0x36034af6, 0x41047a60,
               0xdf60efc3, 0xa867df55, 0x316e8eef, 0x4669be79]
    case 22 => [0xcb61b38c, 0xbc66831a, 0x256fd2a0, 0x5268e236,
               0xcc0c7795, 0xbb0b4703, 0x220216b9, 0x5505262f]
    case 23 => [0xc5ba3bbe, 0xb2bd0b28, 0x2bb45a92, 0x5cb36a04,
               0xc2d7ffa7, 0xb5d0cf31, 0x2cd99e8b, 0x5bdeae1d]
    case 24 => [0x9b64c2b0, 0xec63f226, 0x756aa39c, 0x026d930a,
               0x9c0906a9, 0xeb0e363f, 0x72076785, 0x05005713]
    case 25 => [0x95bf4a82, 0xe2b87a14, 0x7bb12bae, 0x0cb61b38,
               0x92d28e9b, 0xe5d5be0d, 0x7cdcefb7, 0x0bdbdf21]
    case 26 => [0x86d3d2d4, 0xf1d4e242, 0x68ddb3f8, 0x1fda836e,
               0x81be16cd, 0xf6b9265b, 0x6fb077e1, 0x18b74777]
    case 27 => [0x88085ae6, 0xff0f6a70, 0x66063bca, 0x11010b5c,
               0x8f659eff, 0xf862ae69, 0x616bffd3, 0x166ccf45]
    case 28 => [0xa00ae278, 0xd70dd2ee, 0x4e048354, 0x3903b3c2,
               0xa7672661, 0xd06016f7, 0x4969474d, 0x3e6e77db]
    case 29 => [0xaed16a4a, 0xd9d65adc, 0x40df0b66, 0x37d83bf0,
               0xa9bcae53, 0xdebb9ec5, 0x47b2cf7f, 0x30b5ffe9]
    case 30 => [0xbdbdf21c, 0xcabac28a, 0x53b39330, 0x24b4a3a6,
               0xbad03605, 0xcdd70693, 0x54de5729, 0x23d967bf]
    case _ => [0xb3667a2e, 0xc4614ab8, 0x5d681b02, 0x2a6f2b94,
               0xb40bbe37, 0xc30c8ea1, 0x5a05df1b, 0x2d02ef8d]
  }

  function Entry(n: nat): reg
    requires n < 256
  {
    Row(n / 8)[n % 8]
  }

  predicate Paired(r: seq<reg>)
    requires |r| == 8
  {
    r[1] == Xor(r[0], 0x77073096) && r[3] == Xor(r[2], 0x77073096)
    && r[5] == Xor(r[4], 0x77073096) && r[7] == Xor(r[6], 0x77073096)
  }

  predicate Halved(r: seq<reg>, s: seq<reg>, t: seq<reg>)
    requires |r| == |s| == |t| == 8
  {
    r[0] == Step(s[0]) && r[1] == Step(s[2]) && r[2] == Step(s[4]) && r[3] == Step(s[6])
    && r[4] == Step(t[0]) && r[5] == Step(t[2]) && r[6] == Step(t[4]) && r[7] == Step(t[6])
  }

  lemma RowsPaired0(j: nat)
    requires 0 <= j < 8
    ensures Paired(Row(j))
  {
    match j
    case 0 =>
    case 1 =>
    case 2 =>
    case 3 =>
    case 4 =>
    case 5 =>
    case 6 =>
    case _ =>
  }

  lemma RowsPaired1(j: nat)
    requires 8 <= j < 16
    ensures Paired(Row(j))
  {
    match j
    case 8 =>
    case 9 =>
    case 10 =>
    case 11 =>
    case 12 =>
    case 13 =>
    case 14 =>
    case _ =>
  }

  lemma RowsPaired2(j: nat)
    requires 16 <= j < 24
    ensures Paired(Row(j))
  {
    match j
    case 16 =>
    case 17 =>
    case 18 =>
    case 19 =>
    case 20 =>
    case 21 =>
    case 22 =>
    case _ =>
  }

  lemma RowsPaired3(j: nat)
    requires 24 <= j < 32
    ensures Paired(Row(j))
  {
    match j
    case 24 =>
    case 25 =>
    case 26 =>
    case 27 =>
    case 28 =>
    case 29 =>
    case 30 =>
    case _ =>
  }

  lemma RowsHalved0(j: nat)
    requires 0 <= j < 4
    ensures Halved(Row(j), Row(2 * j), Row(2 * j + 1))
  {
    match j
    case 0 =>
    case 1 =>
    case 2 =>
    case _ =>
  }

  lemma RowsHalved1(j: nat)
    requires 4 <= j < 8
    ensures Halved(Row(j), Row(2 * j), Row(2 * j + 1))
  {
    match j
    case 4 =>
    case 5 =>
    case 6 =>
    case _ =>
  }

  lemma RowsHalved2(j: nat)
    requires 8 <= j < 12
    ensures Halved(Row(j), Row(2 * j), Row(2 * j + 1))
  {
    match j
    case 8 =>
    case 9 =>
    case 10 =>
    case _ =>
  }

  lemma RowsHalved3(j: nat)
    requires 12 <= j < 16
    ensures Halved(Row(j), Row(2 * j), Row(2 * j + 1))
  {
    match j
    case 12 =>
    case 13 =>
    case 14 =>
    case _ =>
  }

  lemma PairedAt(r: seq<reg>, i: nat)
    requires |r| == 8 && Paired(r) && i < 8 && i % 2 == 1
    ensures r[i] == Xor(r[i - 1], 0x77073096)
  {
    hide Xor;
  }

  lemma RowsPaired(j: nat)
    requires j < 32
    ensures Paired(Row(j))
  {
    hide Row, Paired;
    if j < 8 {
      RowsPaired0(j);
    } else if j < 16 {
      RowsPaired1(j);
    } else if j < 24 {
      RowsPaired2(j);
    } else {
      RowsPaired3(j);
    }
  }

  lemma EntryOdd(n: nat)
    requires n < 256 && n % 2 == 1
    ensures Entry(n) == Xor(Entry(n - 1), 0x77073096)
  {
    hide Row, Xor, Paired;
    var j, i := n / 8, n % 8;
    assert n == 8 * j + i && (n - 1) / 8 == j && (n - 1) % 8 == i - 1;
    RowsPaired(j);
    PairedAt(Row(j), i);
  }

  lemma HalvedAt(r: seq<reg>, s: seq<reg>, t: seq<reg>, i: nat)
    requires |r| == |s| == |t| == 8 && Halved(r, s, t) && i < 8
    ensures r[i] == Step(if i < 4 then s[2 * i] else t[2 * i - 8])
  {
    hide Step;
  }

  lemma EntryHalf(n: nat)
    requires n < 128
    ensures Entry(n) == Step(Entry(2 * n))
  {
    hide Row, Step, Halved;
    var j, i := n / 8, n % 8;
    if j < 4 {
      RowsHalved0(j);
    } else if j < 8 {
      RowsHalved1(j);
    } else if j < 12 {
      RowsHalved2(j);
    } else {
      RowsHalved3(j);
    }
    HalvedAt(Row(j), Row(2 * j), Row(2 * j + 1), i);
    if i < 4 {
      assert (2 * n) / 8 == 2 * j && (2 * n) % 8 == 2 * i;
    } else {
      assert (2 * n) / 8 == 2 * j + 1 && (2 * n) % 8 == 2 * i - 8;
    }
  }

  lemma StepInjective(x: reg, y: reg)
    requires Step(x) == Step(y)
    ensures x == y
  {
  }

  lemma EvenOctet(b: octet)
    requires b & 1 == 0
    ensures !Odd(Wide(b)) && Half(Wide(b)) == Wide(b >> 1)
  {
  }

  lemma OddOctet(b: octet)
    requires b & 1 == 1
    ensures Wide(b) == Xor(Wide(b ^ 1), 1) && (b ^ 1) & 1 == 0
  {
  }

  lemma SlotHalf(b: octet)
    ensures Slot(b >> 1) == Slot(b) / 2
  {
  }

  lemma SlotParity(b: octet)
    ensures Slot(b) % 2 == if b & 1 == 1 then 1 else 0
  {
  }

  lemma SlotOdd(b: octet)
    requires b & 1 == 1
    ensures Slot(b ^ 1) == Slot(b) - 1
  {
  }

  lemma FirstEntries()
    ensures Entry(0) == 0 && Steps(0, 8) == 0 && Steps(1, 8) == 0x77073096
  {
  }

  /** The table written out in the source is the one make_crc_table computes. */
  lemma {:induction false} EntryIsEightSteps(b: octet)
    ensures Entry(Slot(b)) == Steps(Wide(b), 8)
    decreases Slot(b)
  {
    hide Entry, Step, Xor, Odd, Half, Wide, Slot;
    var n := Slot(b);
    FirstEntries();
    SlotParity(b);
    if b & 1 == 1 {
      OddOctet(b);
      SlotOdd(b);
      EntryOdd(n);
      EntryIsEightSteps(b ^ 1);
      StepsXor(Wide(b ^ 1), 1, 8);
    } else if n == 0 {
      ZeroSlot(b);
    } else {
      EvenOctet(b);
      SlotHalf(b);
      var h := b >> 1;
      EntryHalf(n / 2);
      EntryIsEightSteps(h);
      EvenStep(Wide(b));
      StepsAdd(Wide(h), 7, 1);
      var last := Steps(Wide(h), 7);
      assert Steps(last, 1) == Step(last) by { assert Steps(Step(last), 0) == Step(last); }
      StepInjective(Entry(n), last);
      assert Steps(Wide(b), 8) == Steps(Wide(h), 7);
    }
  }

  lemma EvenStep(x: reg)
    requires !Odd(x)
    ensures Step(x) == Half(x)
  {
  }

  lemma ZeroSlot(b: octet)
    requires Slot(b) == 0
    ensures Wide(b) == 0
  {
    SlotBack(b);
  }

  /** One octet by the table. */
  lemma CheckStep(c: reg, b: octet, x: octet, n: nat, next: reg)
    requires n < 256 && x as int == n && Narrow(Xor(c, Wide(b))) == x && next == Xor(Entry(n), Drop(c))
    ensures Run(c, [b]) == next
  {
    hide Xor, Entry, Narrow, Wide, Drop, Steps, Low;
    var y := Xor(c, Wide(b));
    EightSteps(y);
    WideNarrow(y);
    DropFold(c, b);
    EntryIsEightSteps(x);
    OctetRun(c, b);
  }

  lemma Check1()
    ensures Run(0xFFFFFFFF, [0x31]) == 0x7C231048
  {
    CheckStep(0xFFFFFFFF, 0x31, 0xCE, 206, 0x7C231048);
  }

  lemma Check2()
    ensures Run(0x7C231048, [0x32]) == 0xB0ACBB32
  {
    CheckStep(0x7C231048, 0x32, 0x7A, 122, 0xB0ACBB32);
  }

  lemma Check3()
    ensures Run(0xB0ACBB32, [0x33]) == 0x77B79C2D
  {
    CheckStep(0xB0ACBB32, 0x33, 0x01, 1, 0x77B79C2D);
  }

  lemma Check4()
    ensures Run(0x77B79C2D, [0x34]) == 0x641C1F5C
  {
    CheckStep(0x77B79C2D, 0x34, 0x19, 25, 0x641C1F5C);
  }

  lemma Check5()
    ensures Run(0x641C1F5C, [0x35]) == 0x340AC5E3
  {
    CheckStep(0x641C1F5C, 0x35, 0x69, 105, 0x340AC5E3);
  }

  lemma Check6()
    ensures Run(0x340AC5E3, [0x36]) == 0xF68D2C9E
  {
    CheckStep(0x340AC5E3, 0x36, 0xD5, 213, 0xF68D2C9E);
  }

  lemma Check7()
    ensures Run(0xF68D2C9E, [0x37]) == 0xAFFC9660
  {
    CheckStep(0xF68D2C9E, 0x37, 0xA9, 169, 0xAFFC9660);
  }

  lemma Check8()
    ensures Run(0xAFFC9660, [0x38]) == 0x651F2550
  {
    CheckStep(0xAFFC9660, 0x38, 0x58, 88, 0x651F2550);
  }

  lemma Check9()
    ensures Run(0x651F2550, [0x39]) == 0x340BC6D9
  {
    CheckStep(0x651F2550, 0x39, 0x69, 105, 0x340BC6D9);
  }

  lemma OctetRun(c: reg, b: octet)
    ensures Run(c, [b]) == Steps(Xor(c, Wide(b)), 8)
  {
    hide Xor, Steps;
    assert [b][1..] == [];
    RunNothing(Steps(Xor(c, Wide(b)), 8), []);
  }

  /** The check value: the checksum of the nine octets "123456789". */
  lemma CheckValue()
    ensures Checksum(0, [0x31, 0x32, 0x33, 0x34, 0x35, 0x36, 0x37, 0x38, 0x39]) == 0xCBF43926
  {
    CheckEnds();
    hide Xor, Run;
    var s: seq<octet> := [0x31, 0x32, 0x33, 0x34, 0x35, 0x36, 0x37, 0x38, 0x39];
    Check1(); Check2(); Check3(); Check4(); Check5(); Check6(); Check7(); Check8(); Check9();
    RunTo(0xFFFFFFFF, s, 1);
    RunTo(0xFFFFFFFF, s, 2);
    RunTo(0xFFFFFFFF, s, 3);
    RunTo(0xFFFFFFFF, s, 4);
    RunTo(0xFFFFFFFF, s, 5);
    RunTo(0xFFFFFFFF, s, 6);
    RunTo(0xFFFFFFFF, s, 7);
    RunTo(0xFFFFFFFF, s, 8);
    RunTo(0xFFFFFFFF, s, 9);
    RunNothing(0xFFFFFFFF, s[..0]);
    assert s[..9] == s;
  }

  lemma RunTo(c: reg, s: seq<octet>, k: nat)
    requires 0 < k <= |s|
    ensures Run(c, s[..k]) == Run(Run(c, s[..k - 1]), [s[k - 1]])
  {
    assert s[..k] == s[..k - 1] + [s[k - 1]];
    RunConcat(c, s[..k - 1], [s[k - 1]]);
  }

  lemma CheckEnds()
    ensures Xor(0, ONES) == 0xFFFFFFFF && Xor(0x340BC6D9, ONES) == 0xCBF43926
  {
  }

  // --- Octets and words ---------------------------------------------------

  // The byte order of the processor, which decides how a word is loaded and
  // which of the two definitions of DO_CRC is compiled. tole, cpu_to_le32 and
  // le32_to_cpu are defined to do nothing in either.
  const littleEndian: bool

  /** DO_CRC. */
  function DoCrc(tab: seq<reg>, crc: reg, x: reg): reg
    requires |tab| == 256
  {
    if littleEndian then Xor(tab[Slot(Narrow(Xor(crc, x)))], Drop(crc))
    else Xor(tab[Slot(Narrow(Xor(Top(crc), x)))], Raise(crc))
  }

  lemma DropFold(c: reg, b: octet)
    ensures Drop(Xor(c, Wide(b))) == Drop(c)
  {
    hide Drop, Xor, Wide;
    DropXor(c, Wide(b));
    DropWide(b);
    XorZero(Drop(c));
  }

  /** On a little-endian machine one table step is eight turns. */
  lemma DoCrcIsEightSteps(tab: seq<reg>, c: reg, b: octet)
    requires IsTable(tab) && littleEndian
    ensures DoCrc(tab, c, Wide(b)) == Steps(Xor(c, Wide(b)), 8)
  {
    hide Xor, Low, High, Drop, Raise, Top, Wide, Narrow, Steps, Slot;
    var x := Xor(c, Wide(b));
    EightSteps(x);
    WideNarrow(x);
    DropFold(c, b);
    assert tab[Slot(Narrow(x))] == Steps(Low(x), 8);
  }

  /** Four octets as a little-endian processor loads them. */
  function LittleWord(s: seq<octet>): reg
    requires |s| == 4
  {
    Join(Wide(s[0]), Wide(s[1]), Wide(s[2]), Wide(s[3]))
  }

  predicate Short(x: reg) { x >> 24 == 0 }

  predicate Fits(x: reg) { x >> 8 == 0 }

  function Join(a: reg, b: reg, c: reg, d: reg): reg { a | (b << 8) | (c << 16) | (d << 24) }

  lemma JoinNested(a: reg, b: reg, c: reg, d: reg)
    requires Fits(a) && Fits(b) && Fits(c) && Fits(d)
    ensures Join(a, b, c, d) == Xor(a, Raise(Xor(b, Raise(Xor(c, Raise(d))))))
  {
  }

  lemma ShortOne(a: reg)
    requires Fits(a)
    ensures Short(a)
  {}

  lemma ShortTwo(a: reg, b: reg)
    requires Fits(a) && Fits(b)
    ensures Short(Xor(a, Raise(b)))
  {}

  lemma ShortThree(a: reg, b: reg, c: reg)
    requires Fits(a) && Fits(b) && Fits(c)
    ensures Short(Xor(a, Raise(Xor(b, Raise(c)))))
  {
  }

  lemma WideFits(b: octet)
    ensures Fits(Wide(b))
  {}

  lemma DropRaise(x: reg)
    requires Short(x)
    ensures Drop(Raise(x)) == x
  {}

  lemma ClearRaise(x: reg)
    ensures Clear(Raise(x), 0xFF)
  {}

  function Nest(b: octet, w: reg): reg { Xor(Wide(b), Raise(w)) }

  lemma WordIsNest(s: seq<octet>)
    requires |s| == 4
    ensures LittleWord(s) == Nest(s[0], Nest(s[1], Nest(s[2], Wide(s[3]))))
    ensures Short(Wide(s[3])) && Short(Nest(s[2], Wide(s[3]))) && Short(Nest(s[1], Nest(s[2], Wide(s[3]))))
  {
    hide Wide, Fits, Join, Xor, Raise, Short;
    WideFits(s[0]); WideFits(s[1]); WideFits(s[2]); WideFits(s[3]);
    JoinNested(Wide(s[0]), Wide(s[1]), Wide(s[2]), Wide(s[3]));
    ShortOne(Wide(s[3]));
    ShortTwo(Wide(s[2]), Wide(s[3]));
    ShortThree(Wide(s[1]), Wide(s[2]), Wide(s[3]));
  }

  /** Eight turns consume the low octet of what was folded in and shift the rest down. */
  lemma EightOfNest(c: reg, b: octet, w: reg)
    requires Short(w)
    ensures Steps(Xor(c, Nest(b, w)), 8) == Xor(Steps(Xor(c, Wide(b)), 8), w)
  {
    hide Xor, Drop, Raise, Wide, Step, Steps, Halves, Odd, Half, Clear;
    XorAssoc(c, Wide(b), Raise(w));
    StepsXor(Xor(c, Wide(b)), Raise(w), 8);
    forall i | 0 <= i < 8 ensures Odd(Halves(0xFF, i)) { EightMask(i); }
    ClearRaise(w);
    StepsClear(Raise(w), 0xFF, 8);
    EightHalves(Raise(w));
    DropRaise(w);
  }

  /** Four octets at once: fold the word in, then turn thirty-two times. */
  lemma WordIsFourOctets(c: reg, s: seq<octet>)
    requires |s| == 4
    ensures Run(c, s) == Steps(Steps(Steps(Steps(Xor(c, LittleWord(s)), 8), 8), 8), 8)
  {
    hide Xor, Wide, Steps, Nest, Short, LittleWord;
    var w3 := Wide(s[3]);
    var w2 := Nest(s[2], w3);
    var w1 := Nest(s[1], w2);
    WordIsNest(s);
    var c1 := Steps(Xor(c, Wide(s[0])), 8);
    var c2 := Steps(Xor(c1, Wide(s[1])), 8);
    var c3 := Steps(Xor(c2, Wide(s[2])), 8);
    EightOfNest(c, s[0], w1);
    EightOfNest(c1, s[1], w2);
    EightOfNest(c2, s[2], w3);
    assert s[1..][1..] == s[2..] && s[2..][1..] == s[3..] && s[3..][1..] == [];
    assert Run(c, s) == Run(c1, s[1..]) == Run(c2, s[2..]) == Run(c3, s[3..]);
    assert Run(c3, s[3..]) == Steps(Xor(c3, w3), 8);
  }

  // --- crc32.c ------------------------------------------------------------

  /** A word load; the processor is only asked for aligned ones. */
  function LoadWord(s: seq<octet>, address: nat): reg
    requires |s| == 4 && address % 4 == 0
  {
    if littleEndian then LittleWord(s) else LittleWord([s[3], s[2], s[1], s[0]])
  }

  function FourSteps(tab: seq<reg>, crc: reg): reg
    requires |tab| == 256
  {
    DoCrc(tab, DoCrc(tab, DoCrc(tab, DoCrc(tab, crc, 0), 0), 0), 0)
  }

  /**
   * What the loops compute in either byte order: octets up to an aligned
   * address, whole words from there, and octets when fewer than four are left.
   */
  function Coded(tab: seq<reg>, crc: reg, buf: seq<octet>, address: nat): reg
    requires |tab| == 256
    decreases |buf|
  {
    if buf == [] then crc
    else if address % 4 != 0 || |buf| < 4 then
      Coded(tab, DoCrc(tab, crc, Wide(buf[0])), buf[1..], address + 1)
    else
      Coded(tab, FourSteps(tab, Xor(crc, LoadWord(buf[..4], address))), buf[4..], address + 4)
  }

  /** One word of the loop: fold it in, then four table steps on zero. */
  lemma WordStep(tab: seq<reg>, c: reg, s: seq<octet>)
    requires IsTable(tab) && |s| == 4 && littleEndian
    ensures FourSteps(tab, Xor(c, LittleWord(s))) == Run(c, s)
  {
    hide Xor, Wide, Steps, DoCrc, LittleWord, IsTable, Run;
    var x := Xor(c, LittleWord(s));
    WordIsFourOctets(c, s);
    TurnOnZero(tab, x);
    TurnOnZero(tab, Steps(x, 8));
    TurnOnZero(tab, Steps(Steps(x, 8), 8));
    TurnOnZero(tab, Steps(Steps(Steps(x, 8), 8), 8));
  }

  lemma TurnOnZero(tab: seq<reg>, c: reg)
    requires IsTable(tab) && littleEndian
    ensures DoCrc(tab, c, 0) == Steps(c, 8)
  {
    hide Xor, Wide, Steps, DoCrc, IsTable;
    DoCrcIsEightSteps(tab, c, 0);
    WideZero();
    XorZero(c);
  }

  lemma WideZero()
    ensures Wide(0) == 0
  {
  }

  /** On a little-endian machine the loops compute the checksum of every buffer, wherever it starts. */
  lemma {:induction false} CodedIsRun(tab: seq<reg>, c: reg, buf: seq<octet>, address: nat)
    requires |tab| == 256 && IsTable(tab) && littleEndian
    ensures Coded(tab, c, buf, address) == Run(c, buf)
    decreases |buf|
  {
    hide Xor, Wide, Steps, DoCrc, LittleWord, IsTable, FourSteps;
    if buf == [] {
    } else if address % 4 != 0 || |buf| < 4 {
      DoCrcIsEightSteps(tab, c, buf[0]);
      CodedIsRun(tab, DoCrc(tab, c, Wide(buf[0])), buf[1..], address + 1);
    } else {
      WordStep(tab, c, buf[..4]);
      RunConcat(c, buf[..4], buf[4..]);
      assert buf[..4] + buf[4..] == buf;
      CodedIsRun(tab, Run(c, buf[..4]), buf[4..], address + 4);
    }
  }

  lemma CodedOctet(tab: seq<reg>, c: reg, buf: seq<octet>, i: nat, address: nat)
    requires |tab| == 256 && i < |buf| && ((address + i) % 4 != 0 || |buf| - i < 4)
    ensures Coded(tab, c, buf[i..], address + i)
         == Coded(tab, DoCrc(tab, c, Wide(buf[i])), buf[i + 1..], address + i + 1)
  {
    hide DoCrc, Wide;
    assert buf[i..][1..] == buf[i + 1..];
  }

  lemma CodedWord(tab: seq<reg>, c: reg, buf: seq<octet>, i: nat, address: nat)
    requires |tab| == 256 && i + 4 <= |buf| && (address + i) % 4 == 0
    ensures Coded(tab, c, buf[i..], address + i)
         == Coded(tab, FourSteps(tab, Xor(c, LoadWord(buf[i..i + 4], address + i))), buf[i + 4..], address + i + 4)
  {
    hide FourSteps, Xor, LoadWord;
    assert buf[i..][..4] == buf[i..i + 4] && buf[i..][4..] == buf[i + 4..];
  }

  lemma CodedEnd(tab: seq<reg>, c: reg, buf: seq<octet>, address: nat)
    requires |tab| == 256 && buf == []
    ensures Coded(tab, c, buf, address) == c
  {
  }

  lemma OctetAlone(tab: seq<reg>, c: reg, b: octet, address: nat)
    requires |tab| == 256
    ensures Coded(tab, c, [b], address) == DoCrc(tab, c, Wide(b))
    ensures Run(c, [b]) == Steps(Xor(c, Wide(b)), 8)
  {
    hide DoCrc, Xor, Steps;
    var d, e := DoCrc(tab, c, Wide(b)), Steps(Xor(c, Wide(b)), 8);
    assert [b][1..] == [];
    assert Coded(tab, d, [], address + 1) == d;
    assert Run(e, []) == e;
  }

  // --- The big-endian branch, without words ---

  /** A table step on the top octet. */
  function TopTurn(tab: seq<reg>, c: reg, b: octet): reg
    requires |tab| == 256
  {
    Xor(tab[Slot(Narrow(Xor(Top(c), Wide(b))))], Raise(c))
  }

  /** One octet after the other, folded in at the top. */
  function TopDown(tab: seq<reg>, c: reg, buf: seq<octet>): reg
    requires |tab| == 256
    decreases |buf|
  {
    if buf == [] then c
    else TopDown(tab, TopTurn(tab, c, buf[0]), buf[1..])
  }

  lemma {:induction false} TopDownConcat(tab: seq<reg>, c: reg, s: seq<octet>, t: seq<octet>)
    requires |tab| == 256
    ensures TopDown(tab, c, s + t) == TopDown(tab, TopDown(tab, c, s), t)
    decreases |s|
  {
    hide TopTurn;
    if s == [] {
      assert s + t == t;
    } else {
      assert (s + t)[1..] == s[1..] + t && (s + t)[0] == s[0];
      TopDownConcat(tab, TopTurn(tab, c, s[0]), s[1..], t);
    }
  }

  lemma TopDownOctet(tab: seq<reg>, c: reg, b: octet)
    requires |tab| == 256 && !littleEndian
    ensures TopDown(tab, c, [b]) == DoCrc(tab, c, Wide(b))
  {
    TopTurnIs(tab, c, b);
    hide TopTurn, DoCrc, Wide;
    var d := TopTurn(tab, c, b);
    assert [b][1..] == [];
    assert TopDown(tab, d, []) == d;
  }

  lemma TopTurnIs(tab: seq<reg>, c: reg, b: octet)
    requires |tab| == 256 && !littleEndian
    ensures TopTurn(tab, c, b) == DoCrc(tab, c, Wide(b))
  {
    hide Slot, Narrow, Xor, Top, Wide, Raise;
  }

  /** An octet at the top of a word that has been folded in. */
  function Head(b: octet, w: reg): reg { ((b as reg) << 24) ^ (w >> 8) }

  lemma TopOfHead(c: reg, b: octet, w: reg)
    ensures Narrow(Xor(Top(Xor(c, Head(b, w))), 0)) == Narrow(Xor(Top(c), Wide(b)))
  {
  }

  lemma RaiseOfHead(c: reg, b: octet, w: reg)
    requires LowClear(w)
    ensures Raise(Xor(c, Head(b, w))) == Xor(Raise(c), w)
  {
  }

  /** A table step takes the octet in, and leaves the rest of the word folded in. */
  lemma StepOfHead(tab: seq<reg>, c: reg, b: octet, w: reg)
    requires |tab| == 256 && !littleEndian && LowClear(w)
    ensures DoCrc(tab, Xor(c, Head(b, w)), 0) == Xor(DoCrc(tab, c, Wide(b)), w)
  {
    hide Xor, Top, Raise, Narrow, Head, Slot, Wide, LowClear;
    TopOfHead(c, b, w);
    RaiseOfHead(c, b, w);
    var e := tab[Slot(Narrow(Xor(Top(c), Wide(b))))];
    XorAssoc(e, Raise(c), w);
  }

  predicate LowClear(w: reg) { w & 0xFF == 0 }

  lemma BigWord(s: seq<octet>)
    requires |s| == 4
    ensures LittleWord([s[3], s[2], s[1], s[0]]) == Head(s[0], Head(s[1], Head(s[2], Head(s[3], 0))))
  {
  }

  lemma HeadsClear(a: octet, b: octet, c: octet)
    ensures LowClear(0) && LowClear(Head(a, 0)) && LowClear(Head(a, Head(b, 0)))
    ensures LowClear(Head(a, Head(b, Head(c, 0))))
  {
  }

  lemma TopDownWord(tab: seq<reg>, c: reg, s: seq<octet>, address: nat)
    requires |tab| == 256 && |s| == 4 && !littleEndian && address % 4 == 0
    ensures FourSteps(tab, Xor(c, LoadWord(s, address))) == TopDown(tab, c, s)
  {
    BigWord(s);
    HeadsClear(s[3], s[3], s[3]);
    HeadsClear(s[2], s[3], s[3]);
    HeadsClear(s[1], s[2], s[3]);
    hide Xor, DoCrc, Head, Wide, TopDown, LittleWord, LowClear;
    var w3 := Head(s[3], 0);
    var w2 := Head(s[2], w3);
    var w1 := Head(s[1], w2);
    var c1 := DoCrc(tab, c, Wide(s[0]));
    var c2 := DoCrc(tab, c1, Wide(s[1]));
    var c3 := DoCrc(tab, c2, Wide(s[2]));
    var c4 := DoCrc(tab, c3, Wide(s[3]));
    StepOfHead(tab, c, s[0], w1);
    StepOfHead(tab, c1, s[1], w2);
    StepOfHead(tab, c2, s[2], w3);
    StepOfHead(tab, c3, s[3], 0);
    XorZero(c4);
    TopDownFour(tab, c, s);
  }

  lemma TopDownFour(tab: seq<reg>, c: reg, s: seq<octet>)
    requires |tab| == 256 && |s| == 4 && !littleEndian
    ensures TopDown(tab, c, s)
         == DoCrc(tab, DoCrc(tab, DoCrc(tab, DoCrc(tab, c, Wide(s[0])), Wide(s[1])), Wide(s[2])), Wide(s[3]))
  {
    hide DoCrc, Wide, TopDown;
    var c1 := DoCrc(tab, c, Wide(s[0]));
    var c2 := DoCrc(tab, c1, Wide(s[1]));
    var c3 := DoCrc(tab, c2, Wide(s[2]));
    TopDownOctet(tab, c, s[0]);
    TopDownOctet(tab, c1, s[1]);
    TopDownOctet(tab, c2, s[2]);
    TopDownOctet(tab, c3, s[3]);
    TopDownConcat(tab, c, [s[0]], [s[1], s[2], s[3]]);
    TopDownConcat(tab, c1, [s[1]], [s[2], s[3]]);
    TopDownConcat(tab, c2, [s[2]], [s[3]]);
    assert [s[0]] + [s[1], s[2], s[3]] == s && [s[1]] + [s[2], s[3]] == [s[1], s[2], s[3]];
    assert [s[2]] + [s[3]] == [s[2], s[3]];
  }

  /** On a big-endian machine words and alignment make no difference either. */
  lemma {:induction false} CodedIsTopDown(tab: seq<reg>, c: reg, buf: seq<octet>, address: nat)
    requires |tab| == 256 && !littleEndian
    ensures Coded(tab, c, buf, address) == TopDown(tab, c, buf)
    decreases |buf|
  {
    hide Xor, Wide, DoCrc, LoadWord, FourSteps;
    if buf == [] {
    } else {
      hide TopDown;
      if address % 4 != 0 || |buf| < 4 {
        TopDownOctet(tab, c, buf[0]);
        TopDownConcat(tab, c, buf[..1], buf[1..]);
        assert buf[..1] + buf[1..] == buf && buf[..1] == [buf[0]];
        CodedIsTopDown(tab, DoCrc(tab, c, Wide(buf[0])), buf[1..], address + 1);
      } else {
        TopDownWord(tab, c, buf[..4], address);
        TopDownConcat(tab, c, buf[..4], buf[4..]);
        assert buf[..4] + buf[4..] == buf;
        CodedIsTopDown(tab, FourSteps(tab, Xor(c, LoadWord(buf[..4], address))), buf[4..], address + 4);
      }
    }
  }

  lemma OnesApart()
    ensures Top(ONES) == 0xFF && Low(ONES) == 0xFF && Raise(ONES) != Drop(ONES)
    ensures Narrow(0xFF) == 0xFF && Wide(0xFF) == 0xFF
  {
  }

  /**
   * On a big-endian machine the table would have to be swapped, and is not: the
   * one octet 0 already comes out wrong.
   */
  lemma BigEndianFails(tab: seq<reg>, address: nat)
    requires IsTable(tab) && !littleEndian
    ensures Coded(tab, ONES, [0], address) != Run(ONES, [0])
  {
    OnesApart();
    hide Xor, Drop, Raise, Top, Low, Narrow, Wide, Steps, Slot;
    OctetAlone(tab, ONES, 0, address);
    WideZero();
    XorZero(ONES);
    XorZero(Top(ONES));
    EightSteps(ONES);
    var e := Steps(0xFF, 8);
    assert tab[Slot(0xFF)] == e;
    if Xor(e, Raise(ONES)) == Xor(e, Drop(ONES)) {
      XorComm(e, Raise(ONES));
      XorComm(e, Drop(ONES));
      XorCancel(Raise(ONES), e);
      XorCancel(Drop(ONES), e);
    }
  }

  /** The code computes the checksum of every buffer if and only if the machine is little-endian. */
  lemma ByteOrderDecides(tab: seq<reg>)
    requires |tab| == 256 && IsTable(tab)
    ensures littleEndian <==> forall c: reg, buf: seq<octet>, address: nat :: Coded(tab, c, buf, address) == Run(c, buf)
  {
    hide Coded, Run, IsTable;
    if littleEndian {
      forall c: reg, buf: seq<octet>, address: nat ensures Coded(tab, c, buf, address) == Run(c, buf) {
        CodedIsRun(tab, c, buf, address);
      }
    } else {
      BigEndianFails(tab, 0);
    }
  }

  /** crc_table and the flag that says whether it is still to be filled. */
  class Engine {
    var table: array<reg>
    var empty: bool

    ghost predicate Valid()
      reads this, table
    {
      table.Length == 256 && (!empty ==> IsTable(table[..]))
    }

    /** The table as written out in the source. */
    constructor Literal()
      ensures Valid() && !empty && fresh(table)
    {
      table := new reg[256](n requires 0 <= n < 256 => Entry(n));
      empty := false;
      new;
      hide Entry, Steps, Wide, Slot;
      forall b: octet ensures table[..][Slot(b)] == Steps(Wide(b), 8) {
        EntryIsEightSteps(b);
      }
    }

    /** The table left for the first call to fill. */
    constructor Dynamic()
      ensures Valid() && empty && fresh(table)
    {
      table := new reg[256];
      empty := true;
    }

    method MakeTable()
      requires Valid()
      modifies this`empty, table
      ensures Valid() && !empty
    {
      hide Xor, Odd, Half, Slot, Wide;
      var n := 0;
      while n < 256
        invariant 0 <= n <= 256
        invariant forall m :: 0 <= m < n ==> table[m] == Steps(Wide(m as octet), 8)
      {
        var c := Wide(n as octet);
        var k := 0;
        while k < 8
          invariant 0 <= k <= 8
          invariant Steps(c, 8 - k) == Steps(Wide(n as octet), 8)
        {
          assert Steps(c, 8 - k) == Steps(Step(c), 7 - k);
          c := if Odd(c) then Xor(POLY, Half(c)) else Half(c);
          k := k + 1;
        }
        table[n] := c;
        n := n + 1;
      }
      empty := false;
      forall b: octet ensures table[..][Slot(b)] == Steps(Wide(b), 8) {
        SlotBack(b);
      }
    }

    /** The octets up to a word boundary. */
    method ToBoundary(crc: reg, buf: seq<octet>, address: nat) returns (state: reg, i: nat)
      requires Valid() && !empty
      ensures i <= |buf| && (i == |buf| || (address + i) % 4 == 0)
      ensures Coded(table[..], state, buf[i..], address + i) == Coded(table[..], crc, buf[0..], address)
    {
      hide Xor, DoCrc, IsTable, Wide, Coded;
      var tab := table[..];
      state, i := crc, 0;
      if address % 4 != 0 && |buf| != 0 {
        var more := true;
        while more
          invariant 0 <= i <= |buf| && (more ==> i < |buf| && (address + i) % 4 != 0)
          invariant Coded(tab, state, buf[i..], address + i) == Coded(tab, crc, buf[0..], address)
          invariant !more ==> i == |buf| || (address + i) % 4 == 0
          decreases |buf| - i, more
        {
          CodedOctet(tab, state, buf, i, address);
          state := DoCrc(tab, state, Wide(buf[i]));
          i := i + 1;
          more := i != |buf| && (address + i) % 4 != 0;
        }
      }
    }

    /** The whole words behind it. */
    method Words(crc: reg, buf: seq<octet>, address: nat, from: nat) returns (state: reg, i: nat)
      requires Valid() && !empty && from <= |buf| && (from == |buf| || (address + from) % 4 == 0)
      ensures from <= i <= |buf| < i + 4
      ensures Coded(table[..], state, buf[i..], address + i) == Coded(table[..], crc, buf[from..], address + from)
    {
      hide Xor, DoCrc, IsTable, LoadWord, Coded;
      var tab := table[..];
      state, i := crc, from;
      var words, rest := (|buf| - i) / 4, (|buf| - i) % 4;
      while words != 0
        invariant 0 <= words && from <= i && i + 4 * words + rest == |buf|
        invariant words != 0 ==> (address + i) % 4 == 0
        invariant Coded(tab, state, buf[i..], address + i) == Coded(tab, crc, buf[from..], address + from)
        decreases words
      {
        CodedWord(tab, state, buf, i, address);
        state := Xor(state, LoadWord(buf[i..i + 4], address + i));
        state := DoCrc(tab, state, 0);
        state := DoCrc(tab, state, 0);
        state := DoCrc(tab, state, 0);
        state := DoCrc(tab, state, 0);
        i, words := i + 4, words - 1;
      }
    }

    /**
     * The loops over buf, which starts at the given address: single octets up
     * to the first aligned one, whole words, then the octets left over.
     */
    method NoComplement(crc: reg, buf: seq<octet>, address: nat) returns (r: reg)
      requires Valid()
      modifies this`empty, table
      ensures Valid() && !empty
      ensures IsTable(table[..])
      ensures r == if littleEndian then Run(crc, buf) else TopDown(table[..], crc, buf)
    {
      hide Xor, Run, DoCrc, IsTable, LittleWord, LoadWord, Wide, Coded, TopDown;
      if empty {
        MakeTable();
      }
      var tab := table[..];
      if littleEndian {
        CodedIsRun(tab, crc, buf, address);
      } else {
        CodedIsTopDown(tab, crc, buf, address);
      }
      assert buf[0..] == buf;
      var state, i := ToBoundary(crc, buf, address);
      state, i := Words(state, buf, address, i);
      var rest := |buf| - i;
      while rest != 0
        invariant !empty && Valid() && tab == table[..]
        invariant 0 <= rest < 4 && i + rest == |buf|
        invariant Coded(tab, state, buf[i..], address + i) == Coded(tab, crc, buf, address)
        decreases rest
      {
        CodedOctet(tab, state, buf, i, address);
        state := DoCrc(tab, state, Wide(buf[i]));
        i, rest := i + 1, rest - 1;
      }
      CodedEnd(tab, state, buf[i..], address + i);
      r := state;
    }

    method Crc32(crc: reg, buf: seq<octet>, address: nat) returns (r: reg)
      requires Valid()
      modifies this`empty, table
      ensures Valid() && !empty
      ensures IsTable(table[..])
      ensures r == 0xFFFFFFFF ^ if littleEndian then Run(crc ^ 0xFFFFFFFF, buf)
                                else TopDown(table[..], crc ^ 0xFFFFFFFF, buf)
    {
      hide Run, TopDown, IsTable;
      r := NoComplement(Xor(crc, ONES), buf, address);
      r := Xor(r, ONES);
    }
  }

  lemma RunNothing(c: reg, s: seq<octet>)
    requires s == []
    ensures Run(c, s) == c
  {
  }

  // --- apue/crc32.c -------------------------------------------------------

  /** The static table of rc_crc32, without byte order and filled on first use. */
  class RcEngine {
    var table: array<reg>
    var ready: bool

    ghost predicate Valid()
      reads this, table
    {
      table.Length == 256
      && (ready ==> forall b: octet :: table[Slot(b)] == Steps(Wide(b), 8))
    }

    constructor ()
      ensures Valid() && fresh(table)
    {
      table := new reg[256];
      ready := false;
    }

    method FillTable()
      requires Valid()
      modifies this`ready, table
      ensures Valid() && ready
    {
      hide Xor, Odd, Half, Slot, Wide;
      var i := 0;
      while i < 256
        invariant 0 <= i <= 256
        invariant forall m :: 0 <= m < i ==> table[m] == Steps(Wide(m as octet), 8)
      {
        var rem := Wide(i as octet);
        var j := 0;
        while j < 8
          invariant 0 <= j <= 8
          modifies {}
          invariant Steps(rem, 8 - j) == Steps(Wide(i as octet), 8)
        {
          assert Steps(rem, 8 - j) == Steps(Step(rem), 7 - j);
          if Odd(rem) {
            XorComm(POLY, Half(rem));
            rem := Half(rem);
            rem := Xor(rem, POLY);
          } else {
            rem := Half(rem);
          }
          j := j + 1;
        }
        assert rem == Steps(Wide(i as octet), 8);
        table[i] := rem;
        i := i + 1;
      }
      ready := true;
      forall b: octet ensures table[Slot(b)] == Steps(Wide(b), 8) {
        SlotBack(b);
      }
    }

    /** Returns the same checksum as crc32, for every start value and buffer. */
    method RcCrc32(start: reg, buf: seq<octet>) returns (r: reg)
      requires Valid()
      modifies this`ready, table
      ensures Valid() && ready
      ensures r == Checksum(start, buf) == 0xFFFFFFFF ^ Run(start ^ 0xFFFFFFFF, buf)
    {
      ChecksumIs(start, buf);
      hide Xor, Run, Slot, Narrow, Wide, Low, Drop, Steps;
      if !ready {
        FillTable();
      }
      ghost var first := Xor(start, ONES);
      var crc := Not(start);
      NotIsXor(start);
      assert Run(first, buf[..0]) == first by { RunNothing(first, buf[..0]); }
      var p := 0;
      while p < |buf|
        invariant 0 <= p <= |buf|
        invariant Valid() && ready
        invariant crc == Run(first, buf[..p])
      {
        RunOctet(first, buf, p);
        RcStep(crc, buf[p]);
        crc := Xor(Drop(crc), table[Slot(Narrow(crc) ^ buf[p])]);
        p := p + 1;
      }
      assert buf[..p] == buf;
      NotIsXor(crc);
      r := Not(crc);
    }
  }

  function Not(c: reg): reg { !c }

  lemma NotIsXor(c: reg)
    ensures Not(c) == Xor(c, ONES)
  {
  }

  lemma RunOctet(c: reg, s: seq<octet>, i: nat)
    requires i < |s|
    ensures Run(c, s[..i + 1]) == Steps(Xor(Run(c, s[..i]), Wide(s[i])), 8)
  {
    hide Xor, Wide, Steps;
    assert s[..i + 1] == s[..i] + [s[i]];
    RunConcat(c, s[..i], [s[i]]);
  }

  lemma RcStep(c: reg, b: octet)
    ensures Steps(Xor(c, Wide(b)), 8) == Xor(Drop(c), Steps(Wide(Narrow(c) ^ b), 8))
  {
    hide Xor, Wide, Narrow, Low, Drop, Steps;
    var x := Xor(c, Wide(b));
    EightSteps(x);
    DropFold(c, b);
    NarrowXor(c, b);
    XorComm(Steps(Low(x), 8), Drop(c));
  }

  lemma NarrowXor(c: reg, b: octet)
    ensures Wide(Narrow(c) ^ b) == Low(Xor(c, Wide(b)))
  {
  }
}
