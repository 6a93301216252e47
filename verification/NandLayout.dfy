/**
 * Which page of the chip holds which bytes of a transfer
 * (src/bootloader/myboot/k9f2g08.c, lines 477-602).
 */
module NandLayout {
  import opened Arith
  import opened Nand

  /**
   * A transfer from page p on uses page q: the mark of q's block is clear, or q is in
   * the block p is in the middle of, whose mark is not looked at.
   */
  predicate Used(pages: chip, p: nat, q: nat)
    requires q < PAGES
  {
    p <= q && ((q / 64 == p / 64 && p % 64 != 0) || pages[q / 64 * 64][0x800] == 0xFF)
  }

  /** The pages before q that are used. */
  function Before(pages: chip, p: nat, q: nat): set<nat>
    requires q <= PAGES
  {
    set r: nat | p <= r < q && Used(pages, p, r)
  }

  /** No page is used before the one the transfer goes to, and that one is. */
  lemma {:induction false} PlaceIsFirst(pages: chip, p: nat)
    ensures var a := Place(pages, p);
      && (forall r: nat :: p <= r < a && r < PAGES ==> !Used(pages, p, r))
      && (a < PAGES ==> Used(pages, p, a)) && (a > p ==> p % 64 == 0 && a % 64 == 0)
    decreases PAGES - p
  {
    if Skips(pages, p) {
      PlaceIsFirst(pages, p + PER_BLOCK);
      forall r: nat | p <= r < Place(pages, p) && r < PAGES
        ensures !Used(pages, p, r)
      {
        if r < p + PER_BLOCK {
          assert r / 64 * 64 == p;
        } else {
          assert !Used(pages, p + PER_BLOCK, r);
        }
      }
    } else if p < PAGES && p % 64 == 0 {
      assert p / 64 * 64 == p;
    }
  }

  /** Behind the page used first the same pages are used as for a transfer from there on. */
  lemma UsedNext(pages: chip, p: nat, q: nat)
    requires Place(pages, p) < q < PAGES
    ensures Used(pages, p, q) <==> Used(pages, Place(pages, p) + 1, q)
  {
    var a := Place(pages, p);
    PlaceIsFirst(pages, p);
    hide Place;
    if q / 64 == a / 64 && (a + 1) % 64 != 0 {
      if a % 64 == 0 {
        assert a / 64 * 64 == a;
      }
    }
  }

  lemma OneMore(s: set<nat>, t: set<nat>, a: nat)
    requires a !in t && s == {a} + t
    ensures |s| == 1 + |t|
  {
  }

  lemma BeforeNext(pages: chip, p: nat, q: nat)
    requires q <= PAGES
    ensures var a := Place(pages, p);
      |Before(pages, p, q)| == if a < q then 1 + |Before(pages, a + 1, q)| else 0
  {
    var a := Place(pages, p);
    PlaceIsFirst(pages, p);
    if a < q {
      forall r: nat | r < q
        ensures p <= r && Used(pages, p, r) <==> r == a || (a < r && Used(pages, a + 1, r))
      {
        if r > a {
          UsedNext(pages, p, r);
        }
      }
      BeforeIs(pages, p, a, q);
      OneMore(Before(pages, p, q), Before(pages, a + 1, q), a);
    } else {
      hide Used, Place;
      assert Before(pages, p, q) == {};
    }
  }

  lemma BeforeIs(pages: chip, p: nat, a: nat, q: nat)
    requires a < q <= PAGES
    requires forall r: nat :: r < q ==> (p <= r && Used(pages, p, r) <==> r == a || (a < r && Used(pages, a + 1, r)))
    ensures Before(pages, p, q) == {a} + Before(pages, a + 1, q) && a !in Before(pages, a + 1, q)
  {
    hide Used;
    var s, t := Before(pages, p, q), Before(pages, a + 1, q);
    forall r: nat
      ensures r in s <==> r == a || r in t
    {
      if r < q {
        assert p <= r && Used(pages, p, r) <==> r == a || (a < r && Used(pages, a + 1, r));
      }
    }
  }

  /** There is room for n bytes exactly when the pages used hold them. */
  lemma {:induction false} RoomIs(pages: chip, p: nat, n: nat)
    ensures Room(pages, p, n) <==> n <= |Before(pages, p, PAGES)| * 0x800
    decreases n
  {
    BeforeNext(pages, p, PAGES);
    hide Place, Before;
    if n > PAGE && Place(pages, p) < PAGES {
      RoomIs(pages, Place(pages, p) + 1, n - PAGE);
    }
  }

  /** Chunk number i of n bytes ends here. */
  function End(i: nat, n: nat): nat { if (i + 1) * 0x800 <= n then (i + 1) * 0x800 else n }

  /** Chunk i of some octets. */
  function Piece(d: seq<octet>, i: nat): seq<octet>
    requires i * 0x800 < |d|
  {
    d[i * 0x800..End(i, |d|)]
  }

  lemma PieceNext(head: seq<octet>, rest: seq<octet>, i: nat)
    requires |head| == 0x800 && i * 0x800 < |rest|
    ensures Piece(head + rest, i + 1) == Piece(rest, i)
  {
    assert (head + rest)[(i + 1) * 0x800..End(i + 1, |head + rest|)] == rest[i * 0x800..End(i, |rest|)];
  }

  lemma FirstPiece(d: seq<octet>)
    requires |d| > 0
    ensures Piece(d, 0) == d[..Chunk(|d|)]
  {
  }

  lemma {:induction false} ReadPiece(pages: chip, p: nat, n: nat, q: nat)
    requires Room(pages, p, n) && q < PAGES && Used(pages, p, q) && |Before(pages, p, q)| * 0x800 < n
    ensures Piece(ReadSpec(pages, p, n), |Before(pages, p, q)|) <= pages[q]
    decreases n
  {
    BeforeNext(pages, p, q);
    var a := Place(pages, p);
    PlaceIsFirst(pages, p);
    if a < q {
      UsedNext(pages, p, q);
      hide Place, Used, Before, Piece;
      ReadPiece(pages, a + 1, n - PAGE, q);
      PieceNext(pages[a][..PAGE], ReadSpec(pages, a + 1, n - PAGE), |Before(pages, a + 1, q)|);
    } else {
      FirstPiece(ReadSpec(pages, p, n));
    }
  }

  /** What is read: chunk i comes from the page before which i pages are used. */
  lemma ReadComesFrom(pages: chip, p: nat, n: nat, q: nat)
    requires Room(pages, p, n) && q < PAGES && Used(pages, p, q) && |Before(pages, p, q)| * 0x800 < n
    ensures var i := |Before(pages, p, q)|;
      ReadSpec(pages, p, n)[i * 0x800..End(i, n)] == pages[q][..End(i, n) - i * 0x800]
  {
    hide Place, Used, Before, ReadSpec, Room;
    ReadPiece(pages, p, n, q);
  }

  lemma UsedKept(x: chip, y: chip, p: nat, q: nat)
    requires SameMarks(x, y) && q <= PAGES
    ensures Before(x, p, q) == Before(y, p, q)
    ensures q < PAGES ==> (Used(x, p, q) <==> Used(y, p, q))
  {
    forall r: nat | r < PAGES
      ensures Used(x, p, r) <==> Used(y, p, r)
    {
      assert BadMark(x, r / 64 * 64) <==> BadMark(y, r / 64 * 64);
    }
  }

  lemma WriteRest(pages: chip, p: nat, d: seq<octet>) returns (next: chip)
    requires |d| > 0 && Room(pages, p, |d|)
    ensures Place(pages, p) < PAGES && next == WithChunk(pages, Place(pages, p), d) && SameMarks(pages, next)
    ensures |d| <= PAGE ==> WriteSpec(pages, p, d) == next
    ensures |d| > PAGE ==>
      Room(next, Place(pages, p) + 1, |d| - PAGE)
      && WriteSpec(pages, p, d) == WriteSpec(next, Place(pages, p) + 1, d[PAGE..])
      && forall k :: 0 <= k <= Place(pages, p) ==> WriteSpec(pages, p, d)[k] == next[k]
  {
    hide BadMark, Programmed;
    var a := Place(pages, p);
    next := WithChunk(pages, a, d);
    ChunkKeepsMarks(pages, a, d);
    if |d| > PAGE {
      RoomKept(pages, next, a + 1, |d| - PAGE);
      WriteFrame(next, a + 1, d[PAGE..]);
    }
  }

  lemma ChunkAt(pages: chip, a: nat, d: seq<octet>)
    requires a < PAGES && |d| > 0
    ensures forall q :: 0 <= q < PAGES ==>
      WithChunk(pages, a, d)[q] == if q == a then Programmed(pages[a], 0, Piece(d, 0)) else pages[q]
  {
    hide Programmed;
  }

  /** The page used first, and those before it. */
  lemma WriteAtFront(pages: chip, p: nat, d: seq<octet>, q: nat)
    requires Room(pages, p, |d|) && |d| > 0 && q <= Place(pages, p) < PAGES
    ensures |Before(pages, p, q)| == 0
    ensures WriteSpec(pages, p, d)[q] ==
      if Used(pages, p, q) then Programmed(pages[q], 0, Piece(d, 0)) else pages[q]
  {
    var a := Place(pages, p);
    PlaceIsFirst(pages, p);
    BeforeNext(pages, p, q);
    hide Place, Before, Programmed, Piece;
    assert Used(pages, p, q) <==> q == a;
    var next := WriteRest(pages, p, d);
    ChunkAt(pages, a, d);
    hide Used, WriteSpec, WithChunk, Room;
  }

  /** The pages behind it. */
  lemma WriteBehind(pages: chip, p: nat, d: seq<octet>, q: nat) returns (next: chip)
    requires Room(pages, p, |d|) && |d| > 0 && Place(pages, p) < q < PAGES
    ensures var a := Place(pages, p);
      && |Before(pages, p, q)| == 1 + |Before(next, a + 1, q)|
      && (Used(pages, p, q) <==> Used(next, a + 1, q)) && next[q] == pages[q]
      && (|d| <= PAGE ==> WriteSpec(pages, p, d)[q] == pages[q])
      && (|d| > PAGE ==> Room(next, a + 1, |d| - PAGE) && WriteSpec(pages, p, d) == WriteSpec(next, a + 1, d[PAGE..]))
  {
    var a := Place(pages, p);
    BeforeNext(pages, p, q);
    UsedNext(pages, p, q);
    hide Place, Before, Used, Programmed, Piece;
    next := WriteRest(pages, p, d);
    ChunkAt(pages, a, d);
    UsedKept(pages, next, a + 1, q);
    hide WriteSpec, WithChunk, Room;
  }

  lemma {:induction false} WritePiece(pages: chip, p: nat, d: seq<octet>, q: nat)
    requires Room(pages, p, |d|) && q < PAGES
    ensures var i := |Before(pages, p, q)|;
      WriteSpec(pages, p, d)[q] ==
        if Used(pages, p, q) && i * 0x800 < |d| then Programmed(pages[q], 0, Piece(d, i)) else pages[q]
    decreases |d|
  {
    hide Place, Before, Used, Programmed, Piece, WriteSpec, Room;
    if |d| == 0 {
      WriteNothing(pages, p, d);
    } else if q <= Place(pages, p) {
      PlaceInside(pages, p, |d|);
      WriteAtFront(pages, p, d, q);
    } else {
      var next := WriteBehind(pages, p, d, q);
      if |d| > PAGE {
        var a := Place(pages, p);
        WritePiece(next, a + 1, d[PAGE..], q);
        var i := |Before(next, a + 1, q)|;
        if (i + 1) * 0x800 < |d| {
          PieceNext(d[..PAGE], d[PAGE..], i);
          assert d[..PAGE] + d[PAGE..] == d;
        }
      }
    }
  }

  lemma PlaceInside(pages: chip, p: nat, n: nat)
    requires Room(pages, p, n) && n > 0
    ensures Place(pages, p) < PAGES
  {
    hide Place;
  }

  /** What is written: chunk i is programmed into the page before which i pages are used, and no other page changes. */
  lemma WriteGoesTo(pages: chip, p: nat, d: seq<octet>, q: nat)
    requires Room(pages, p, |d|) && q < PAGES
    ensures var i := |Before(pages, p, q)|;
      WriteSpec(pages, p, d)[q] ==
        if Used(pages, p, q) && i * 0x800 < |d| then Programmed(pages[q], 0, d[i * 0x800..End(i, |d|)]) else pages[q]
  {
    hide Place, Used, Before, WriteSpec, Room, Programmed;
    WritePiece(pages, p, d, q);
  }

  /** The blocks an erasure can use, counted. */
  lemma {:induction false} GoodBlocksCount(worn: set<nat>, from: nat, end: nat)
    ensures GoodBlocks(worn, from, end) == |set b: nat | from <= b < end && b !in worn|
    decreases end
  {
    var all := set b: nat | from <= b < end && b !in worn;
    if end > from {
      GoodBlocksCount(worn, from, end - 1);
      var less := set b: nat | from <= b < end - 1 && b !in worn;
      assert all == less + if end - 1 in worn then {} else {end - 1};
    } else {
      assert all == {};
    }
  }
}
