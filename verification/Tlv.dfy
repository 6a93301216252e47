// src/program/tlv/tlv_pack.c: packets of tag, length, value and checksum.
module Tlv {
  import opened CrcItuT

  const MAGIC: reg := 0xEC60
  const HEAD: nat := 4
  const MIN: nat := 6

  // --- Big-endian numbers -------------------------------------------------

  function Down(v: reg): reg { v >> 8 }

  function ShiftOut(v: reg, i: nat): reg
    decreases i
  {
    if i == 0 then v else ShiftOut(Down(v), i - 1)
  }

  function UshortBytes(v: reg): (s: seq<octet>)
    ensures |s| == 2
  {
    [HighOctet(v), LowOctet(v)]
  }

  function BigEndian(s: seq<octet>): reg
    decreases |s|
  {
    if s == [] then 0 else Xor(Raise(BigEndian(s[..|s| - 1])), Wide(s[|s| - 1]))
  }

  function Add(v: reg, b: octet): reg { v + Wide(b) }

  lemma AddRaised(v: reg, b: octet)
    ensures Add(Raise(v), b) == Xor(Raise(v), Wide(b))
  {}

  lemma RaiseZero()
    ensures Raise(0) == 0
  {}

  lemma DownLow(v: reg)
    ensures LowOctet(Down(v)) == HighOctet(v)
  {}

  lemma PairHalves(v: reg)
    ensures Pair(HighOctet(v), LowOctet(v)) == v
  {}

  lemma HalvesPair(a: octet, b: octet)
    ensures HighOctet(Pair(a, b)) == a && LowOctet(Pair(a, b)) == b
  {}

  lemma BigEndianPair(s: seq<octet>)
    requires |s| == 2
    ensures BigEndian(s) == Pair(s[0], s[1])
  {
    hide Xor, Raise, Wide;
    assert s[..1][..0] == [];
    assert BigEndian(s[..0]) == 0;
    RaiseZero();
    XorComm(0, Wide(s[0]));
    XorZero(Wide(s[0]));
    assert BigEndian(s[..1]) == Wide(s[0]);
  }

  /** Writing a number and reading it back, and reading octets and writing them back. */
  lemma UshortRoundTrip(v: reg, s: seq<octet>)
    requires |s| == 2
    ensures BigEndian(UshortBytes(v)) == v
    ensures UshortBytes(BigEndian(s)) == s
  {
    hide BigEndian, HighOctet, LowOctet, Pair;
    BigEndianPair(UshortBytes(v));
    PairHalves(v);
    BigEndianPair(s);
    HalvesPair(s[0], s[1]);
  }

  method UshortToBytes(bytes: array<octet>, at: nat, val: reg) returns (written: nat)
    requires at + 2 <= bytes.Length
    modifies bytes
    ensures written == 2
    ensures bytes[at..at + 2] == UshortBytes(val)
    ensures bytes[..at] == old(bytes[..at]) && bytes[at + 2..] == old(bytes[at + 2..])
  {
    hide LowOctet, HighOctet, Down;
    var size, i := 2, 0;
    ghost var before := bytes[..];
    DownLow(val);
    assert ShiftOut(val, 1) == Down(val) by { assert ShiftOut(Down(val), 0) == Down(val); }
    while size != 0
      invariant 0 <= size <= 2 && i == 2 - size
      invariant bytes[..at] == before[..at] && bytes[at + 2..] == before[at + 2..]
      invariant i > 0 ==> bytes[at + 1] == LowOctet(val)
      invariant i > 1 ==> bytes[at] == HighOctet(val)
    {
      size := size - 1;
      bytes[at + size] := LowOctet(ShiftOut(val, i));
      i := i + 1;
    }
    written := 2;
  }

  method BytesToUshort(bytes: array<octet>, at: nat, len: int) returns (val: reg)
    requires 0 <= len <= 2 ==> at + len <= bytes.Length
    ensures val == if 0 <= len <= 2 then BigEndian(bytes[at..at + len]) else 0
  {
    hide Raise, Wide, Xor, Add;
    if len < 0 || len > 2 {
      return 0;
    }
    val := 0;
    RaiseZero();
    var i := 0;
    while i < len
      invariant 0 <= i <= len
      invariant i < len ==> val == Raise(BigEndian(bytes[at..at + i]))
      invariant i == len ==> val == BigEndian(bytes[at..at + i])
    {
      AddRaised(BigEndian(bytes[at..at + i]), bytes[at + i]);
      assert bytes[at..at + i + 1][..i] == bytes[at..at + i];
      val := Add(val, bytes[at + i]);
      if i < len - 1 {
        val := Raise(val);
      }
      i := i + 1;
    }
  }

  // --- Packets ------------------------------------------------------------

  /** The number a length field stands for. */
  function Size(len: reg): (n: nat)
    ensures n < 0x10000
  {
    len as int
  }

  function Head(tag: reg, len: reg): (s: seq<octet>)
    ensures |s| == HEAD
  {
    UshortBytes(tag) + UshortBytes(len)
  }

  function Packet(tag: reg, len: reg, value: seq<octet>): (s: seq<octet>)
    requires |value| == Size(len)
    ensures |s| == MIN + |value|
  {
    var body := Head(tag, len) + value;
    body + UshortBytes(Run(MAGIC, body))
  }

  function TagField(s: seq<octet>): reg
    requires |s| >= HEAD
  {
    BigEndian(s[0..2])
  }

  function LengthField(s: seq<octet>): reg
    requires |s| >= HEAD
  {
    BigEndian(s[2..4])
  }

  /** The memory at s holds all the octets its own length field speaks of. */
  predicate Complete(s: seq<octet>) {
    |s| >= HEAD && |s| >= MIN + Size(LengthField(s))
  }

  function Body(s: seq<octet>): seq<octet>
    requires Complete(s)
  {
    s[..HEAD + Size(LengthField(s))]
  }

  function ValueField(s: seq<octet>): seq<octet>
    requires Complete(s)
  {
    s[HEAD..HEAD + Size(LengthField(s))]
  }

  /** The test tlv_unpack makes. */
  predicate Accepted(s: seq<octet>)
    requires Complete(s)
  {
    var n := Size(LengthField(s));
    BigEndian(s[HEAD + n..MIN + n]) == Run(MAGIC, Body(s))
  }

  /** The layout: tag and length, high octet first, the value, and the checksum of all that. */
  lemma PacketLayout(tag: reg, len: reg, value: seq<octet>)
    requires |value| == len as int
    ensures var p, n := Packet(tag, len, value), |value|;
      && |p| == n + 6 && p[4..4 + n] == value
      && p[0] == (tag >> 8) as octet && p[1] == (tag & 0xFF) as octet
      && p[2] == (len >> 8) as octet && p[3] == (len & 0xFF) as octet
      && var sum := Run(0xEC60, p[..4 + n]);
         p[4 + n] == (sum >> 8) as octet && p[5 + n] == (sum & 0xFF) as octet
  {
    hide Run;
    var p, n := Packet(tag, len, value), |value|;
    assert p[..4 + n] == Head(tag, len) + value;
  }

  method EncodeTl(obuf: array<octet>, tag: reg, len: reg) returns (oft: nat)
    requires obuf.Length >= HEAD
    modifies obuf
    ensures oft == HEAD
    ensures obuf[..HEAD] == Head(tag, len) && obuf[HEAD..] == old(obuf[HEAD..])
  {
    hide LowOctet, HighOctet;
    oft := 0;
    var w := UshortToBytes(obuf, oft, tag);
    oft := oft + 2;
    ghost var first := obuf[..];
    w := UshortToBytes(obuf, oft, len);
    oft := oft + 2;
    assert obuf[..4] == obuf[..2] + obuf[2..4];
    assert obuf[..2] == first[..2] == first[0..2];
    assert obuf[4..] == first[4..];
    assert first[4..] == first[2..][2..];
  }

  /**
   * Writes the packet of tag and value and returns its length, or leaves the
   * buffer alone and returns zero if there is no buffer or it is too small.
   * Without a value the length is taken to be zero.
   */
  method Pack(obuf: array?<octet>, obufSize: int, tag: reg, len: reg, val: array?<octet>) returns (oft: int)
    requires obuf != null ==> obufSize <= obuf.Length
    requires val != null ==> Size(len) <= val.Length && val != obuf
    modifies obuf
    ensures var taken: reg := if val == null then 0 else len;
      var value := if val == null then [] else val[..Size(len)];
      var n := |value|;
      if obuf == null || obufSize < MIN + n then
        oft == 0 && (obuf != null ==> obuf[..] == old(obuf[..]))
      else
        n == Size(taken) && oft == MIN + n
        && obuf[..MIN + n] == Packet(tag, taken, value)
        && obuf[MIN + n..] == old(obuf[MIN + n..])
  {
    hide LowOctet, HighOctet, Run, Size;
    oft := 0;
    ZeroSize();
    if obuf == null {
      return 0;
    }
    var used: reg := if val == null then 0 else len;
    var n := Size(used);
    if obufSize < MIN + n {
      return 0;
    }
    ghost var value := if val == null then [] else val[..n];
    oft := EncodeTl(obuf, tag, used);
    ghost var headed := obuf[..];
    forall k | 0 <= k < n {
      obuf[HEAD + k] := val[k];
    }
    oft := oft + n;
    ghost var body := Head(tag, used) + value;
    assert |value| == n && Packet(tag, used, value) == body + UshortBytes(Run(MAGIC, body));
    assert obuf[..HEAD] == headed[..HEAD];
    assert obuf[..HEAD + n] == body;
    var crc := Compute(MAGIC, obuf[..oft]);
    ghost var bodied := obuf[..];
    var w := UshortToBytes(obuf, HEAD + n, crc);
    oft := oft + w;
    assert obuf[..MIN + n] == obuf[..HEAD + n] + obuf[HEAD + n..HEAD + n + 2];
    assert obuf[..HEAD + n] == body;
    assert obuf[..MIN + n] == Packet(tag, used, value);
    assert obuf[MIN + n..] == bodied[MIN + n..] == headed[MIN + n..];
    assert headed[MIN + n..] == headed[HEAD..][n + 2..];
    assert headed[HEAD..] == old(obuf[HEAD..]);
    assert val != null ==> val[..n] == value;
  }

  lemma ZeroSize()
    ensures Size(0) == 0
  {}

  method DecodeTl(ibuf: array<octet>) returns (oft: nat, tag: reg, len: reg)
    requires ibuf.Length >= HEAD
    ensures oft == HEAD && tag == TagField(ibuf[..]) && len == LengthField(ibuf[..])
  {
    hide BigEndian;
    oft := 0;
    tag := BytesToUshort(ibuf, oft, 2);
    oft := oft + 2;
    assert ibuf[0..2] == ibuf[..][0..2];
    len := BytesToUshort(ibuf, oft, 2);
    oft := oft + 2;
    assert ibuf[2..4] == ibuf[..][2..4];
  }

  /**
   * Decodes a packet: -1 without buffers or with too short a message, -2 for a
   * wrong checksum, else 0 and the value copied out.
   */
  method Unpack(msg: array?<octet>, msgLen: int, val: array?<octet>) returns (status: int, tag: reg, len: reg)
    requires msg != null && msgLen >= MIN ==> Complete(msg[..])
    requires msg != null && val != null && msgLen >= MIN ==>
      val.Length >= Size(LengthField(msg[..])) && val != msg
    modifies val
    ensures msg != null && val != null && msgLen >= MIN ==>
      tag == TagField(old(msg[..])) && len == LengthField(old(msg[..]))
    ensures status == if msg == null || val == null || msgLen < MIN then -1
                      else if Accepted(old(msg[..])) then 0 else -2
    ensures status == 0 ==>
      var n := |ValueField(old(msg[..]))|;
      val[..n] == ValueField(old(msg[..])) && val[n..] == old(val[n..])
    ensures status != 0 && val != null ==> val[..] == old(val[..])
  {
    hide BigEndian, Run, Size;
    tag, len := 0, 0;
    if msg == null || val == null || msgLen < MIN {
      return -1, tag, len;
    }
    var oft;
    oft, tag, len := DecodeTl(msg);
    var n := Size(len);
    ghost var s := msg[..];
    var crc := BytesToUshort(msg, oft + n, 2);
    var sum := Compute(MAGIC, msg[..HEAD + n]);
    assert msg[..HEAD + n] == Body(s);
    assert msg[HEAD + n..MIN + n] == s[HEAD + n..MIN + n];
    if crc != sum {
      return -2, tag, len;
    }
    forall k | 0 <= k < n {
      val[k] := msg[oft + k];
    }
    assert val[..n] == ValueField(s);
    status := 0;
  }

  // --- What the two do together -------------------------------------------

  lemma PairSlices(s: seq<octet>, i: nat)
    requires i + 2 <= |s|
    ensures s[i..i + 2] == [s[i], s[i + 1]]
  {
  }

  /** Unpacking a packet gives back its tag, length and value, whatever follows it. */
  lemma UnpackOfPack(tag: reg, len: reg, value: seq<octet>, rest: seq<octet>)
    requires |value| == Size(len)
    ensures var s := Packet(tag, len, value) + rest;
      Complete(s) && Accepted(s)
      && TagField(s) == tag && LengthField(s) == len && ValueField(s) == value
  {
    hide BigEndian, Run, Size, UshortBytes;
    var s := Packet(tag, len, value) + rest;
    var body := Head(tag, len) + value;
    var n := |value|;
    assert s[0..2] == UshortBytes(tag);
    assert s[2..4] == UshortBytes(len);
    UshortRoundTrip(tag, [0, 0]);
    UshortRoundTrip(len, [0, 0]);
    assert s[..HEAD + n] == body;
    assert s[HEAD + n..MIN + n] == UshortBytes(Run(MAGIC, body));
    UshortRoundTrip(Run(MAGIC, body), [0, 0]);
  }

  /** tlv_unpack accepts exactly what tlv_pack writes. */
  lemma AcceptedArePackets(s: seq<octet>)
    requires Complete(s)
    ensures var n := Size(LengthField(s));
      Accepted(s) <==> s[..MIN + n] == Packet(TagField(s), LengthField(s), ValueField(s))
  {
    hide BigEndian, Run, Size, UshortBytes;
    var n := Size(LengthField(s));
    var crc := s[HEAD + n..MIN + n];
    UshortRoundTrip(0, s[0..2]);
    UshortRoundTrip(0, s[2..4]);
    UshortRoundTrip(Run(MAGIC, Body(s)), crc);
    assert s[..4] == s[0..2] + s[2..4];
    assert Body(s) == Head(TagField(s), LengthField(s)) + ValueField(s);
    assert s[..MIN + n] == Body(s) + crc;
    var p := Packet(TagField(s), LengthField(s), ValueField(s));
    assert p[HEAD + n..] == UshortBytes(Run(MAGIC, Body(s)));
    assert s[..MIN + n][HEAD + n..] == crc;
  }

  /** A packet is accepted exactly when the checksum over all of it is zero. */
  lemma AcceptedIffZero(s: seq<octet>)
    requires Complete(s)
    ensures Accepted(s) <==> Run(MAGIC, s[..MIN + Size(LengthField(s))]) == 0
  {
    hide BigEndian, Run, Size, UshortBytes, HighOctet, LowOctet, Pair;
    var n := Size(LengthField(s));
    var c := Run(MAGIC, Body(s));
    var crc := s[HEAD + n..MIN + n];
    PairSlices(s, HEAD + n);
    assert s[..MIN + n] == Body(s) + crc;
    RunConcat(MAGIC, Body(s), crc);
    OnlyItself(c, crc[0], crc[1]);
    BigEndianPair(crc);
    PairHalves(c);
    HalvesPair(crc[0], crc[1]);
  }

  predicate DiffersOnlyAt(s: seq<octet>, t: seq<octet>, p: nat) {
    |s| == |t| && p + 2 <= |s| && s[..p] == t[..p] && s[p + 2..] == t[p + 2..]
  }

  /**
   * Damage to two neighbouring octets of the tag, or of the value and checksum,
   * never goes unnoticed.
   */
  lemma BurstRejected(s: seq<octet>, t: seq<octet>, p: nat)
    requires Complete(s) && Accepted(s)
    requires DiffersOnlyAt(s, t, p) && s[p..p + 2] != t[p..p + 2]
    requires p == 0 || HEAD <= p <= HEAD + Size(LengthField(s))
    ensures Complete(t) && !Accepted(t)
  {
    hide BigEndian, Run, Size;
    var m := MIN + Size(LengthField(s));
    SameLength(s, t, p);
    AcceptedIffZero(s);
    AcceptedIffZero(t);
    PairSlices(s, p);
    PairSlices(t, p);
    var c := Run(MAGIC, s[..p]);
    SplitAt(s, p, m);
    SplitAt(t, p, m);
    assert s[p + 2..m] == s[p + 2..][..m - p - 2] == t[p + 2..m];
    if Accepted(t) {
      RunInjective(Run(c, [s[p], s[p + 1]]), Run(c, [t[p], t[p + 1]]), s[p + 2..m]);
      TwoOctetsInjective(c, s[p], s[p + 1], t[p], t[p + 1]);
    }
  }

  lemma SameLength(s: seq<octet>, t: seq<octet>, p: nat)
    requires DiffersOnlyAt(s, t, p) && |s| >= HEAD
    requires p == 0 || HEAD <= p
    ensures LengthField(t) == LengthField(s)
  {
    hide BigEndian;
    if p == 0 {
      assert s[2..4] == s[2..][..2];
      assert t[2..4] == t[2..][..2];
    } else {
      assert s[2..4] == s[..p][2..4];
      assert t[2..4] == t[..p][2..4];
    }
  }

  lemma SplitAt(s: seq<octet>, p: nat, m: nat)
    requires p + 2 <= m <= |s|
    ensures Run(MAGIC, s[..m]) == Run(Run(Run(MAGIC, s[..p]), [s[p], s[p + 1]]), s[p + 2..m])
  {
    hide Run;
    PairSlices(s, p);
    assert s[..p + 2] == s[..p] + s[p..p + 2];
    assert s[..m] == s[..p + 2] + s[p + 2..m];
    RunConcat(MAGIC, s[..p], s[p..p + 2]);
    RunConcat(MAGIC, s[..p + 2], s[p + 2..m]);
  }
}
