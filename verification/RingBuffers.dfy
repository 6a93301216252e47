// src/program/cp_library/cp_ringbuf.c: a ring buffer whose two pointers may rest
// at the end of the buffer and are reconciled by masking their difference.
module RingBuffers {
  import opened Arith
  import opened Bits

  type byte = x: int | 0 <= x < 256

  // --- The mask -----------------------------------------------------------

  /** x & m on two's complement integers, for a mask m that is not negative. */
  function And(x: int, m: nat): (r: nat)
    decreases m
  {
    if m == 0 then 0 else (x % 2) * (m % 2) + 2 * And(x / 2, m / 2)
  }

  ghost predicate PowerOfTwo(n: nat) { exists k: nat :: n == Pow2(k) }

  lemma HalfPower(k: nat)
    requires k > 0
    ensures (Pow2(k) - 1) % 2 == 1 && (Pow2(k) - 1) / 2 == Pow2(k - 1) - 1
  {
    hide Pow2;
    Pow2Step(k - 1);
  }

  lemma HalfMod(x: int, n: nat)
    requires n > 0
    ensures x % (2 * n) == x % 2 + 2 * ((x / 2) % n)
  {
    var h := x / 2;
    DivMod(h, n);
    Associate(2, h / n, n);
    Associate(h / n, 2, n);
    DivModUnique(x, h / n, x % 2 + 2 * (h % n), 2 * n);
  }

  /** Masking with 2^k - 1 is the remainder by 2^k, for negative numbers too. */
  lemma {:induction false} MaskIsMod(x: int, k: nat)
    ensures And(x, Pow2(k) - 1) == x % Pow2(k)
    decreases k
  {
    if k > 0 {
      HalfPower(k);
      MaskIsMod(x / 2, k - 1);
      HalfMod(x, Pow2(k - 1));
    }
  }

  lemma {:induction false} MaskHides(m: nat) returns (x: nat)
    requires !PowerOfTwo(m + 1)
    ensures 0 < x <= m && And(x, m) == 0
    decreases m
  {
    Pow2Step(0);
    if m == 0 {
      assert false;
    } else if m % 2 == 0 {
      x := 1;
      assert And(0, m / 2) == 0 by { AndZero(m / 2); }
    } else {
      assert !PowerOfTwo(m / 2 + 1) by {
        forall k: nat ensures m / 2 + 1 != Pow2(k) {
          Pow2Step(k);
        }
      }
      var y := MaskHides(m / 2);
      x := 2 * y;
    }
  }

  lemma {:induction false} AndZero(m: nat)
    ensures And(0, m) == 0
    decreases m
  {
    if m > 0 {
      AndZero(m / 2);
    }
  }

  /** The mask does the remainder's work exactly for the sizes that are powers of two. */
  lemma MaskNeedsPowerOfTwo(size: nat)
    requires size > 0
    ensures PowerOfTwo(size) <==> forall x: int :: And(x, size - 1) == x % size
  {
    hide And, Pow2;
    if PowerOfTwo(size) {
      forall x: int ensures And(x, size - 1) == x % size {
        MaskAtSize(x, size);
      }
    } else {
      var x := MaskHides(size - 1);
      DivModUnique(x, 0, x, size);
    }
  }

  lemma MaskAtSize(x: int, size: nat)
    requires size > 0 && PowerOfTwo(size)
    ensures And(x, size - 1) == x % size
  {
    hide And, Pow2;
    var k: nat :| size == Pow2(k);
    MaskIsMod(x, k);
  }

  // --- The buffer ---------------------------------------------------------

  /** The distance from rd to wr around the ring. */
  function Distance(rd: nat, wr: nat, size: nat): (d: nat)
    requires 0 < size && rd <= size && wr <= size
    ensures d < size
  {
    if wr - rd == size then 0 else if wr >= rd then wr - rd
    else if rd - wr == size then 0 else wr - rd + size
  }

  lemma DistanceIsMask(rd: nat, wr: nat, size: nat)
    requires 0 < size && rd <= size && wr <= size && PowerOfTwo(size)
    ensures And(wr - rd, size - 1) == Distance(rd, wr, size)
  {
    hide And, PowerOfTwo;
    var x: int := wr - rd;
    MaskAtSize(x, size);
    var q: int := if x == size then 1 else if x >= 0 then 0 else -1;
    DivModUnique(x, q, Distance(rd, wr, size), size);
  }

  function Place(rd: nat, i: nat, size: nat): (p: nat)
    requires rd <= size && i < size
    ensures p < size
  {
    if rd + i < size then rd + i else rd + i - size
  }

  lemma PlaceIsMod(rd: nat, i: nat, size: nat)
    requires rd <= size && i < size
    ensures (rd + i) % size == Place(rd, i, size)
  {
    DivModUnique(rd + i, if rd + i < size then 0 else 1, Place(rd, i, size), size);
  }

  /** What a ring holds between the two pointers. */
  function View(b: seq<byte>, rd: nat, wr: nat): (s: seq<byte>)
    requires 0 < |b| && rd <= |b| && wr <= |b|
    ensures |s| == Distance(rd, wr, |b|)
  {
    seq(Distance(rd, wr, |b|), i requires 0 <= i < Distance(rd, wr, |b|) => b[Place(rd, i, |b|)])
  }

  /** wr after storing n more bytes: it may come to rest at size, but not beyond. */
  function Advance(p: nat, n: nat, size: nat): (q: nat)
    requires p <= size && n < size
    ensures q <= size
  {
    if p + n <= size then p + n else p + n - size
  }

  lemma PlacesMeet(rd: nat, wr: nat, k: nat, size: nat)
    requires 0 < size && rd <= size && wr <= size && Distance(rd, wr, size) + k < size
    ensures Place(rd, Distance(rd, wr, size) + k, size) == Place(wr, k, size)
    ensures Distance(rd, Advance(wr, k, size), size) == Distance(rd, wr, size) + k
  {
  }

  lemma PlacesDiffer(rd: nat, j: nat, k: nat, size: nat)
    requires rd <= size && j < k < size
    ensures Place(rd, j, size) != Place(rd, k, size)
  {
  }

  /** Storing behind the contents appends to them. */
  lemma ViewAppend(b: seq<byte>, c: seq<byte>, rd: nat, wr: nat, data: seq<byte>)
    requires 0 < |b| == |c| && rd <= |b| && wr <= |b|
    requires Distance(rd, wr, |b|) + |data| < |b|
    requires forall k :: 0 <= k < |data| ==> c[Place(wr, k, |b|)] == data[k]
    requires forall p :: 0 <= p < |b| && (forall k :: 0 <= k < |data| ==> p != Place(wr, k, |b|)) ==> c[p] == b[p]
    ensures View(c, rd, Advance(wr, |data|, |b|)) == View(b, rd, wr) + data
  {
    hide Place, Distance, Advance;
    var n, d := |b|, Distance(rd, wr, |b|);
    PlacesMeet(rd, wr, |data|, n);
    var s, t := View(c, rd, Advance(wr, |data|, n)), View(b, rd, wr) + data;
    forall k | 0 <= k < |s| ensures s[k] == t[k] {
      if k < d {
        var p := Place(rd, k, n);
        forall j | 0 <= j < |data| ensures p != Place(wr, j, n) {
          PlacesMeet(rd, wr, j, n);
          PlacesDiffer(rd, k, d + j, n);
        }
      } else {
        PlacesMeet(rd, wr, k - d, n);
      }
    }
  }

  /** Moving the read pointer on drops from the front. */
  lemma ViewDrop(b: seq<byte>, rd: nat, wr: nat, k: nat)
    requires 0 < |b| && rd <= |b| && wr <= |b| && k <= Distance(rd, wr, |b|)
    ensures View(b, Advance(rd, k, |b|), wr) == View(b, rd, wr)[k..]
  {
    var s := View(b, rd, wr)[k..];
    var t := View(b, Advance(rd, k, |b|), wr);
    assert |s| == |t|;
    forall i | 0 <= i < |s| ensures s[i] == t[i] {
      assert s[i] == View(b, rd, wr)[k + i];
    }
  }

  /** memcpy into part of an array. */
  method CopyIn(dst: array<byte>, at: nat, src: seq<byte>)
    requires at + |src| <= dst.Length
    modifies dst
    ensures dst[..] == old(dst[..])[..at] + src + old(dst[..])[at + |src|..]
  {
    forall k | 0 <= k < |src| {
      dst[at + k] := src[k];
    }
  }

  /** The ring after data has been stored at p. */
  function Stored(b: seq<byte>, p: nat, data: seq<byte>): (c: seq<byte>)
    requires p <= |b| && |data| < |b|
    ensures |c| == |b|
  {
    if p + |data| <= |b| then b[..p] + data + b[p + |data|..]
    else data[|b| - p..] + b[p + |data| - |b|..p] + data[..|b| - p]
  }

  lemma StoredAt(b: seq<byte>, p: nat, data: seq<byte>, k: nat)
    requires p <= |b| && k < |data| < |b|
    ensures Stored(b, p, data)[Place(p, k, |b|)] == data[k]
  {}

  lemma StoredElsewhere(b: seq<byte>, p: nat, data: seq<byte>, x: nat)
    requires p <= |b| && |data| < |b| && x < |b|
    requires forall k :: 0 <= k < |data| ==> x != Place(p, k, |b|)
    ensures Stored(b, p, data)[x] == b[x]
  {
    var k := if x >= p then x - p else x + |b| - p;
    assert x == Place(p, k, |b|);
    assert k >= |data|;
  }

  lemma StoredIsRing(b: seq<byte>, p: nat, data: seq<byte>)
    requires p <= |b| && |data| < |b|
    ensures var c := Stored(b, p, data);
      && (forall k :: 0 <= k < |data| ==> c[Place(p, k, |b|)] == data[k])
      && (forall x :: 0 <= x < |b| && (forall k :: 0 <= k < |data| ==> x != Place(p, k, |b|)) ==> c[x] == b[x])
  {
    hide Stored, Place;
    forall k | 0 <= k < |data| ensures Stored(b, p, data)[Place(p, k, |b|)] == data[k] {
      StoredAt(b, p, data, k);
    }
    forall x | 0 <= x < |b| && (forall k :: 0 <= k < |data| ==> x != Place(p, k, |b|))
      ensures Stored(b, p, data)[x] == b[x]
    {
      StoredElsewhere(b, p, data, x);
    }
  }

  /** Two copies, the second from the beginning of the ring. */
  lemma StoredInTwo(b: seq<byte>, p: nat, data: seq<byte>, b1: seq<byte>, b2: seq<byte>)
    requires p <= |b| && |data| < |b| < p + |data|
    requires b1 == b[..p] + data[..|b| - p] + b[|b|..]
    requires b2 == b1[..0] + data[|b| - p..] + b1[p + |data| - |b|..]
    ensures b2 == Stored(b, p, data)
  {
    assert b1[p + |data| - |b|..] == b[p + |data| - |b|..p] + data[..|b| - p];
  }

  /** Copies data into the ring at p, in two pieces when it passes the end. */
  method Store(buffer: array<byte>, p: nat, data: seq<byte>) returns (q: nat)
    requires p <= buffer.Length && |data| < buffer.Length
    modifies buffer
    ensures q == Advance(p, |data|, buffer.Length)
    ensures buffer[..] == Stored(old(buffer[..]), p, data)
  {
    var i, from, len := p, 0, |data|;
    var size := buffer.Length;
    ghost var b := buffer[..];
    if i + len > size {
      CopyIn(buffer, i, data[..size - i]);
      from := size - i;
      len := len - (size - i);
      i := 0;
    }
    ghost var b1 := buffer[..];
    assert data[from..from + len] == data[from..];
    CopyIn(buffer, i, data[from..from + len]);
    q := i + len;
    if p + |data| > size {
      StoredInTwo(b, p, data, b1, buffer[..]);
    }
  }

  /** The n bytes of the ring from p on. */
  function Fetched(b: seq<byte>, p: nat, n: nat): (d: seq<byte>)
    requires p <= |b| && n < |b|
    ensures |d| == n
    ensures forall k :: 0 <= k < n ==> d[k] == b[Place(p, k, |b|)]
  {
    if p + n <= |b| then b[p..p + n] else b[p..] + b[..p + n - |b|]
  }

  /** Two copies, the second from the beginning of the ring. */
  lemma FetchedInTwo(b: seq<byte>, p: nat, n: nat, f: seq<byte>, f1: seq<byte>, f2: seq<byte>)
    requires p <= |b| && n < |b| < p + n && n <= |f|
    requires f1 == f[..0] + b[p..|b|] + f[|b| - p..]
    requires f2 == f1[..|b| - p] + b[0..p + n - |b|] + f1[n..]
    ensures f2 == Fetched(b, p, n) + f[n..]
  {
    assert f1[..|b| - p] == b[p..] && f1[n..] == f[n..];
  }

  lemma FetchedAtOnce(b: seq<byte>, p: nat, n: nat, f: seq<byte>, f1: seq<byte>)
    requires p + n <= |b| && n < |b| && n <= |f| && f1 == f[..0] + b[p..p + n] + f[n..]
    ensures f1 == Fetched(b, p, n) + f[n..]
  {}

  /** Copies n bytes of the ring at p out, in two pieces when they pass the end. */
  method Fetch(buffer: array<byte>, p: nat, buf: array<byte>, n: nat) returns (q: nat)
    requires p <= buffer.Length && n < buffer.Length && n <= buf.Length && buf != buffer
    modifies buf
    ensures q == Advance(p, n, buffer.Length)
    ensures buf[..] == Fetched(buffer[..], p, n) + old(buf[..])[n..]
  {
    var i, at, left := p, 0, n;
    var size := buffer.Length;
    ghost var b, f := buffer[..], buf[..];
    if i + left > size {
      CopyIn(buf, 0, buffer[i..size]);
      at := size - i;
      left := left - (size - i);
      i := 0;
    }
    ghost var f1 := buf[..];
    CopyIn(buf, at, buffer[i..i + left]);
    q := i + left;
    assert buffer[i..i + left] == b[i..i + left];
    hide Fetched, Place;
    if p + n > size {
      FetchedInTwo(b, p, n, f, f1, buf[..]);
    } else {
      FetchedAtOnce(b, p, n, f, buf[..]);
    }
  }

  class RingBuffer {
    var buffer: array<byte>
    var wr: nat
    var rd: nat
    var size: nat

    ghost predicate Valid()
      reads this
    {
      buffer.Length == size && PowerOfTwo(size) && size > 0 && rd <= size && wr <= size
    }

    /** The bytes written and not yet read, oldest first. */
    ghost function Contents(): (s: seq<byte>)
      requires Valid()
      reads this, buffer
      ensures |s| < size
    {
      View(buffer[..], rd, wr)
    }

    constructor (buff: array<byte>)
      requires PowerOfTwo(buff.Length) && buff.Length > 0
      ensures Valid() && buffer == buff && Contents() == []
    {
      rd := 0;
      wr := 0;
      buffer := buff;
      size := buff.Length;
    }

    method DataSize() returns (n: nat)
      requires Valid()
      ensures n == |Contents()|
    {
      DistanceIsMask(rd, wr, size);
      n := And(wr - rd, size - 1);
    }

    method FreeSize() returns (n: nat)
      requires Valid()
      ensures n == size - 1 - |Contents()|
    {
      var d := DataSize();
      n := size - 1 - d;
    }

    /** Appends the longest prefix of the input that fits. */
    method Write(buf: seq<byte>) returns (total: nat)
      requires Valid()
      modifies this`wr, buffer
      ensures Valid()
      ensures var free := size - 1 - old(|Contents()|);
        total == if |buf| < free then |buf| else free
      ensures Contents() == old(Contents()) + buf[..total]
    {
      hide PowerOfTwo, Distance, View, Place, Advance, Stored;
      var w := wr;
      ghost var b := buffer[..];
      total := FreeSize();
      var len := |buf|;
      if len > total {
        len := total;
      } else {
        total := len;
      }
      wr := Store(buffer, w, buf[..len]);
      StoredIsRing(b, w, buf[..total]);
      ViewAppend(b, buffer[..], rd, w, buf[..total]);
    }

    /** Takes as many bytes as are wanted and there, from the front. */
    method Read(buf: array<byte>, max: nat) returns (total: nat)
      requires Valid() && buf != buffer && max <= buf.Length
      modifies this`rd, buf
      ensures Valid()
      ensures total == if max < old(|Contents()|) then max else old(|Contents()|)
      ensures buf[..total] == old(Contents())[..total] && buf[total..] == old(buf[total..])
      ensures Contents() == old(Contents())[total..]
    {
      hide PowerOfTwo, Distance, Place, Advance;
      var r := rd;
      ghost var b, c := buffer[..], Contents();
      total := DataSize();
      var left := max;
      if left > total {
        left := total;
      } else {
        total := left;
      }
      rd := Fetch(buffer, r, buf, left);
      assert buf[..total] == Fetched(b, r, total);
      assert forall k :: 0 <= k < total ==> buf[..total][k] == c[k];
      hide View;
      ViewDrop(b, r, wr, total);
    }

    method Peek(index: nat) returns (b: byte)
      requires Valid() && index < |Contents()|
      ensures b == Contents()[index]
    {
      PlaceIsMod(rd, index, size);
      assert Contents()[index] == buffer[Place(rd, index, size)];
      b := buffer[(rd + index) % size];
    }

    method Clear()
      requires Valid()
      modifies this`rd, this`wr, buffer
      ensures Valid() && Contents() == []
    {
      forall k | 0 <= k < size {
        buffer[k] := 0;
      }
      rd := 0;
      wr := 0;
    }
  }
}
