/**
 * NAND flash with bad-block skipping (src/bootloader/myboot/k9f2g08.c, lines
 * 112-411 and 469-602, and the caller in bootstrap.c, lines 102-121).
 *
 * The chip is a sequence of pages. Programming can only clear bits; erasing a
 * block sets all its bits, unless the block is worn, which the chip reports.
 */
module Nand {
  import opened Arith

  const PAGE := 0x800
  const SPARE := 64
  const BLOCK := 0x20000
  const BLOCKS := 2048
  const PER_BLOCK := 64    // pages in a block
  const PAGES := 0x20000   // pages on the chip

  type octet = bv8
  type page = s: seq<octet> | |s| == PAGE + SPARE witness seq(PAGE + SPARE, k => 0xFF)
  type chip = s: seq<page> | |s| == PAGES witness seq(PAGES, k => Blank())

  function Blank(): (r: page)
    ensures forall k :: 0 <= k < |r| ==> r[k] == 0xFF
  {
    seq(PAGE + SPARE, k => 0xFF)
  }

  // ---- what the chip does ----

  /** Cells s after d has been programmed from offset on. */
  function Programmed(s: page, offset: nat, d: seq<octet>): (r: page)
    requires offset + |d| <= PAGE + SPARE
    ensures forall k :: 0 <= k < |r| ==> r[k] == if offset <= k < offset + |d| then s[k] & d[k - offset] else s[k]
  {
    seq(PAGE + SPARE, k requires 0 <= k < PAGE + SPARE =>
      if offset <= k < offset + |d| then s[k] & d[k - offset] else s[k])
  }

  /** All pages after block b has been erased. */
  function ErasedPages(pages: chip, b: nat): (r: chip)
    ensures forall p :: 0 <= p < PAGES ==> r[p] == if p / PER_BLOCK == b then Blank() else pages[p]
  {
    seq(PAGES, p requires 0 <= p < PAGES => if p / PER_BLOCK == b then Blank() else pages[p])
  }

  /** The mark of the block whose first page is p. */
  predicate BadMark(pages: chip, p: nat)
    requires p < PAGES
  {
    pages[p][PAGE] != 0xFF
  }

  function Marked(pages: chip, b: nat): chip
    requires b < BLOCKS
  {
    pages[b * PER_BLOCK := Programmed(pages[b * PER_BLOCK], PAGE, [0xEE])]
  }

  lemma MarkedIsBad(pages: chip, b: nat)
    requires b < BLOCKS
    ensures BadMark(Marked(pages, b), b * PER_BLOCK)
  {
    var cell := pages[b * PER_BLOCK][PAGE];
    assert cell & 0xEE != 0xFF;
  }

  class Flash {
    var pages: chip
    const worn: set<nat>  // blocks that cannot be erased

    constructor (pages: chip, worn: set<nat>)
      ensures this.pages == pages && this.worn == worn
    {
      this.pages, this.worn := pages, worn;
    }

    /** nand_read_page: at most the rest of the page, into data from position at. */
    method ReadPage(page_num: nat, offset: nat, data: array<octet>, at: nat, size: nat) returns (bytes: nat)
      requires page_num < PAGES && offset <= PAGE + SPARE
      requires at + (if PAGE + SPARE - offset >= size then size else PAGE + SPARE - offset) <= data.Length
      modifies data
      ensures bytes == if PAGE + SPARE - offset >= size then size else PAGE + SPARE - offset
      ensures data[..at + bytes] == old(data[..at]) + pages[page_num][offset..offset + bytes]
      ensures data[at + bytes..] == old(data[at + bytes..])
    {
      bytes := if PAGE + SPARE - offset >= size then size else PAGE + SPARE - offset;
      ghost var head, rest, src := data[..at], data[at + bytes..], pages[page_num][offset..];
      var i := 0;
      assert data[..at] == head + src[..0];
      while i < bytes
        invariant 0 <= i <= bytes && data[..at + i] == head + src[..i] && data[at + bytes..] == rest
      {
        ghost var now := data[..at + i];
        assert src[i] == pages[page_num][offset + i];
        data[at + i] := pages[page_num][offset + i];
        assert data[..at + i] == now && data[at + i] == src[i];
        assert data[..at + i + 1] == data[..at + i] + [src[i]];
        i := i + 1;
      }
      assert src[..bytes] == pages[page_num][offset..offset + bytes];
    }

    /** nand_write_page: at most the rest of the page. */
    method WritePage(page_num: nat, offset: nat, data: seq<octet>, size: nat) returns (bytes: nat)
      requires page_num < PAGES && offset <= PAGE + SPARE && size <= |data|
      modifies this
      ensures bytes == if PAGE + SPARE - offset > size then size else PAGE + SPARE - offset
      ensures pages == old(pages)[page_num := Programmed(old(pages)[page_num], offset, data[..bytes])]
    {
      bytes := if PAGE + SPARE - offset > size then size else PAGE + SPARE - offset;
      pages := pages[page_num := Programmed(pages[page_num], offset, data[..bytes])];
    }

    /** is_bad_block: the first spare byte of the block's first page is not FF. */
    method IsBadBlock(addr: nat) returns (bad: bool)
      requires addr / BLOCK < BLOCKS
      ensures bad <==> pages[addr / 0x20000 * 64][0x800] != 0xFF
    {
      var block_start := addr / BLOCK * BLOCK;
      var page_num := block_start / PAGE;
      FirstPage(addr / BLOCK);
      var data := new octet[1];
      var n := ReadPage(page_num, PAGE, data, 0, 1);
      assert data[0] == data[..1][0];
      bad := data[0] != 0xFF;
    }

    /** mark_bad_block: program EE over the mark. */
    method MarkBadBlock(addr: nat)
      requires addr / BLOCK < BLOCKS
      modifies this
      ensures pages == Marked(old(pages), addr / BLOCK)
      ensures forall p, k :: 0 <= p < PAGES && 0 <= k < PAGE + SPARE ==>
        pages[p][k] == if p == addr / 0x20000 * 64 && k == 0x800 then old(pages)[p][k] & 0xEE else old(pages)[p][k]
    {
      var block_start := addr / BLOCK * BLOCK;
      var page_num := block_start / PAGE;
      FirstPage(addr / BLOCK);
      var data: seq<octet> := [0xEE];
      assert data[..1] == data;
      var n := WritePage(page_num, PAGE, data, 1);
    }

    /** nand_erase_block: a block that does not erase is marked bad. */
    method EraseBlock(block_num: nat) returns (ret: int)
      requires block_num < BLOCKS
      modifies this
      ensures ret == if block_num in worn then -1 else 0
      ensures pages == if block_num in worn then Marked(old(pages), block_num) else ErasedPages(old(pages), block_num)
      ensures forall p, k :: 0 <= p < PAGES && 0 <= k < PAGE + SPARE ==>
        pages[p][k] == if block_num in worn then
                         if p == block_num * 64 && k == 0x800 then old(pages)[p][k] & 0xEE else old(pages)[p][k]
                       else if p / 64 == block_num then 0xFF else old(pages)[p][k]
    {
      FirstPage(block_num);
      if block_num in worn {
        MarkBadBlock(block_num * BLOCK);
        return -1;
      }
      pages := ErasedPages(pages, block_num);
      return 0;
    }

    /**
     * nand_erase. Skipping, it erases exactly size / BLOCK good blocks from
     * start on and marks every worn block it meets; all others stay as they
     * were. Not skipping, it would retry a worn block for ever.
     */
    method Erase(start_addr: nat, size0: nat, skip_bad: bool) returns (ret: int, ghost end: nat)
      requires start_addr <= BLOCKS * BLOCK && GoodBlocks(worn, start_addr / BLOCK, BLOCKS) >= size0 / BLOCK
      requires skip_bad || forall b :: start_addr / BLOCK <= b < (start_addr + size0) / BLOCK ==> b !in worn
      modifies this
      ensures ret == if start_addr % BLOCK != 0 || size0 % BLOCK != 0 then -1 else 0
      ensures ret != 0 ==> pages == old(pages)
      ensures ret == 0 ==>
        start_addr / BLOCK <= end <= BLOCKS && GoodBlocks(worn, start_addr / BLOCK, end) == size0 / BLOCK
      ensures ret == 0 ==> Swept(old(pages), pages, worn, start_addr / BLOCK, end)
      ensures ret == 0 ==>
        && (forall b :: start_addr / BLOCK <= b < end ==> (pages[b * 64][0x800] != 0xFF <==> b in worn))
        && (forall p :: 0 <= p < PAGES ==>
              pages[p] == if !(start_addr / BLOCK <= p / 64 < end) then old(pages)[p]
                          else if p / 64 !in worn then Blank()
                          else if p % 64 != 0 then old(pages)[p]
                          else pages[p])
    {
      hide Swept, Marked, ErasedPages;
      end := 0;
      if start_addr % BLOCK != 0 || size0 % BLOCK != 0 {
        return -1, end;
      }
      var addr, size, failed := start_addr, size0, 0;
      ghost var sb, n := start_addr / BLOCK, size0 / BLOCK;
      end := sb;
      SweptNothing(pages, worn, sb);
      while addr < start_addr + size
        invariant addr == end * BLOCK && sb <= end <= BLOCKS && GoodBlocks(worn, sb, end) <= n
        invariant start_addr + size == addr + (n - GoodBlocks(worn, sb, end)) * BLOCK
        invariant !skip_bad ==> size == size0 && failed == 0
        invariant Swept(old(pages), pages, worn, sb, end)
        decreases BLOCKS - end
      {
        assert end < BLOCKS;
        FirstPage(end);
        var block_num := addr / BLOCK;
        ghost var before := pages;
        var r := EraseBlock(block_num);
        SweepOne(old(pages), before, pages, worn, sb, end);
        if r < 0 {
          if skip_bad {
            addr := addr + BLOCK;
            size := size + BLOCK;
          } else {
            failed := failed + 1;
          }
        } else {
          addr := addr + BLOCK;
        }
        end := end + 1;
      }
      SweptSays(old(pages), pages, worn, sb, end);
      ret := if !skip_bad && failed != 0 then failed else 0;
    }

    /** Lines 500 and 568: at the start of a block, whether it is marked. */
    method StartsBadBlock(addr: nat, ghost p: nat) returns (skip: bool)
      requires addr == p * PAGE && p < PAGES
      ensures skip <==> Skips(pages, p)
    {
      PageOf(p);
      skip := false;
      if addr % BLOCK == 0 {
        skip := IsBadBlock(addr);
      }
    }

    /** nand_write: page by page from start on, past the blocks marked bad. */
    method Write(start_addr: nat, size: nat, buf: array<octet>) returns (ret: int)
      requires size <= buf.Length
      requires start_addr % PAGE == 0 ==> Room(pages, start_addr / PAGE, size)
      modifies this
      ensures ret == if start_addr % PAGE != 0 then -1
                     else if size > 0 && size % 0x800 == 0 then 0x800 else size % 0x800
      ensures pages == if start_addr % PAGE != 0 then old(pages)
                       else WriteSpec(old(pages), start_addr / PAGE, buf[..size])
    {
      hide Room, WriteSpec, Place, Skips, Progress, Chunk, LastChunk, BadMark;
      var left: nat, addr: nat, bytes: nat, at: nat := size, start_addr, 0, 0;
      if addr % PAGE != 0 {
        return -1;
      }
      ghost var p: nat, pages0 := start_addr / PAGE, pages;
      ProgressEnds(size, 0);
      LastChunkIs(size);
      assert buf[0..size] == buf[..size];
      while left > 0
        invariant at + left == size && Progress(at, left, size, bytes) && (left > 0 ==> addr == p * PAGE)
        invariant Room(pages, p, left)
        invariant WriteSpec(pages, p, buf[at..size]) == WriteSpec(pages0, start_addr / PAGE, buf[..size])
        decreases left, PAGES - p
      {
        PlaceOrSkip(pages, p, left);
        var skip := StartsBadBlock(addr, p);
        if skip {
          SkipWrite(pages, p, buf[at..size]);
          addr, p := addr + BLOCK, p + PER_BLOCK;
          continue;
        }
        ProgressStep(at, left, size, bytes);
        bytes := WriteChunk(addr, p, buf, at, left, size);
        addr := addr + bytes;
        at := at + bytes;
        left := left - bytes;
        p := p + 1;
      }
      WriteNothing(pages, p, buf[at..size]);
      ProgressEnds(size, bytes);
      return bytes;
    }

    /** Lines 576-594. */
    method WriteChunk(addr: nat, ghost p: nat, buf: array<octet>, at: nat, left: nat, size: nat) returns (bytes: nat)
      requires at + left == size <= buf.Length && left > 0 && left % PAGE == size % PAGE
      requires addr == p * PAGE && Room(pages, p, left) && Place(pages, p) == p
      modifies this
      ensures bytes == Chunk(left) && Room(pages, p + 1, left - bytes)
      ensures WriteSpec(pages, p + 1, buf[at + bytes..size]) == WriteSpec(old(pages), p, buf[at..size])
    {
      hide Room, WriteSpec, Place, Programmed;
      PageOf(p);
      var page_num, page_offset := addr / PAGE, addr % PAGE;
      ghost var d := buf[at..size];
      WriteStep(pages, p, d);
      if left >= PAGE {
        bytes := WritePage(page_num, page_offset, buf[at..at + PAGE], PAGE);
      } else {
        SmallMod(left);
        bytes := WritePage(page_num, page_offset, buf[at..at + size % PAGE], size % PAGE);
      }
      assert buf[at..at + bytes][..bytes] == d[..bytes];
      assert buf[at + bytes..size] == d[bytes..];
    }

    /** nand_read, with the same skipping. */
    method Read(start_addr: nat, size: nat, buf: array<octet>) returns (ret: int)
      requires size <= buf.Length
      requires start_addr % PAGE == 0 ==> Room(pages, start_addr / PAGE, size)
      modifies buf
      ensures ret == if start_addr % PAGE != 0 then -1
                     else if size > 0 && size % 0x800 == 0 then 0x800 else size % 0x800
      ensures start_addr % PAGE == 0 ==> buf[..size] == ReadSpec(pages, start_addr / PAGE, size)
      ensures buf[size..] == old(buf[size..])
    {
      hide Room, ReadSpec, Place, Skips, Progress, Chunk, LastChunk, BadMark;
      var left: nat, addr: nat, bytes: nat, at: nat := size, start_addr, 0, 0;
      if addr % PAGE != 0 {
        return -1;
      }
      ghost var p: nat := start_addr / PAGE;
      ghost var all := ReadSpec(pages, p, size);
      ProgressEnds(size, 0);
      LastChunkIs(size);
      assert buf[..0] + all == all;
      while left > 0
        invariant at + left == size && Progress(at, left, size, bytes) && (left > 0 ==> addr == p * PAGE)
        invariant Room(pages, p, left)
        invariant buf[..at] + ReadSpec(pages, p, left) == all
        invariant buf[size..] == old(buf[size..])
        decreases left, PAGES - p
      {
        PlaceOrSkip(pages, p, left);
        var skip := StartsBadBlock(addr, p);
        if skip {
          SkipRead(pages, p, left);
          addr, p := addr + BLOCK, p + PER_BLOCK;
          continue;
        }
        ProgressStep(at, left, size, bytes);
        bytes := ReadChunk(addr, p, buf, at, left, size);
        addr := addr + bytes;
        at := at + bytes;
        left := left - bytes;
        p := p + 1;
      }
      ProgressEnds(size, bytes);
      return bytes;
    }

    /** Lines 508-526. */
    method ReadChunk(addr: nat, ghost p: nat, buf: array<octet>, at: nat, left: nat, size: nat) returns (bytes: nat)
      requires at + left == size <= buf.Length && left > 0 && left % PAGE == size % PAGE
      requires addr == p * PAGE && Room(pages, p, left) && Place(pages, p) == p
      modifies buf
      ensures bytes == Chunk(left) && Room(pages, p + 1, left - bytes)
      ensures buf[..at + bytes] + ReadSpec(pages, p + 1, left - bytes) == old(buf[..at]) + ReadSpec(pages, p, left)
      ensures buf[size..] == old(buf[size..])
    {
      hide Room, ReadSpec, Place;
      PageOf(p);
      var page_num, page_offset := addr / PAGE, addr % PAGE;
      ghost var head := buf[..at];
      ReadStep(pages, p, left);
      if left >= PAGE {
        bytes := ReadPage(page_num, page_offset, buf, at, PAGE);
      } else {
        SmallMod(left);
        bytes := ReadPage(page_num, page_offset, buf, at, size % PAGE);
      }
      assert buf[size..] == buf[at + bytes..][size - at - bytes..];
    }
  }

  lemma FirstPage(b: nat)
    ensures b * BLOCK / PAGE == b * PER_BLOCK && b * BLOCK / BLOCK == b
  {
    DivModUnique(b * BLOCK, b * PER_BLOCK, 0, PAGE);
    DivModUnique(b * BLOCK, b, 0, BLOCK);
  }

  lemma PageOf(p: nat)
    ensures p * PAGE / PAGE == p && p * PAGE % PAGE == 0 && p * PAGE / BLOCK == p / PER_BLOCK
    ensures p * PAGE % BLOCK == 0 <==> p % PER_BLOCK == 0
    ensures p % PER_BLOCK == 0 ==> p / PER_BLOCK * PER_BLOCK == p
  {
    DivModUnique(p * PAGE, p, 0, PAGE);
    DivMod(p, PER_BLOCK);
    DivModUnique(p * PAGE, p / PER_BLOCK, p % PER_BLOCK * PAGE, BLOCK);
  }

  lemma SmallMod(n: nat)
    requires n < PAGE
    ensures n % PAGE == n
  {}

  // ---- reading and writing as functions of the pages ----

  function Chunk(n: nat): nat {
    if n >= PAGE then PAGE else n
  }

  /** Both loops return the size of the last transfer, not of the whole. */
  function LastChunk(size: nat): nat {
    if size == 0 then 0 else if size % PAGE == 0 then PAGE else size % PAGE
  }

  lemma LastChunkIs(size: nat)
    ensures LastChunk(size) == if size > 0 && size % 0x800 == 0 then 0x800 else size % 0x800
  {
  }

  /** Where a transfer stands: all chunks but the last are whole pages. */
  predicate Progress(at: nat, left: nat, size: nat, bytes: nat) {
    && bytes == (if at == 0 then 0 else if left == 0 then LastChunk(size) else PAGE)
    && (left > 0 ==> left % PAGE == size % PAGE)
  }

  lemma ProgressEnds(size: nat, bytes: nat)
    ensures Progress(0, size, size, 0)
    ensures Progress(size, 0, size, bytes) ==> bytes == LastChunk(size)
  {}

  lemma ProgressStep(at: nat, left: nat, size: nat, bytes: nat)
    requires at + left == size && left > 0 && Progress(at, left, size, bytes)
    ensures Chunk(left) <= left
    ensures Progress(at + Chunk(left), left - Chunk(left), size, Chunk(left))
    ensures left - Chunk(left) > 0 ==> Chunk(left) == PAGE
    ensures left % PAGE == size % PAGE
  {
    if left >= PAGE {
      DivMod(left - PAGE, PAGE);
      DivModUnique(left, (left - PAGE) / PAGE + 1, (left - PAGE) % PAGE, PAGE);
      if left == PAGE {
        DivModUnique(0, 0, 0, PAGE);
      }
    } else {
      SmallMod(left);
    }
  }

  /** Page p begins a block marked bad. */
  predicate Skips(pages: chip, p: nat) {
    p < PAGES && p % PER_BLOCK == 0 && BadMark(pages, p)
  }

  /** The next page at or after p that is not in a bad block. */
  function Place(pages: chip, p: nat): (a: nat)
    ensures a >= p && (a == p <==> !Skips(pages, p))
    decreases PAGES - p
  {
    if Skips(pages, p) then Place(pages, p + PER_BLOCK) else p
  }

  /** n bytes fit from page p on before the chip ends. */
  predicate Room(pages: chip, p: nat, n: nat)
    decreases n
  {
    n == 0 || (Place(pages, p) < PAGES && (n > PAGE ==> Room(pages, Place(pages, p) + 1, n - PAGE)))
  }

  /** The pages once page p holds d's first chunk. */
  function WithChunk(pages: chip, p: nat, d: seq<octet>): chip
    requires p < PAGES
  {
    pages[p := Programmed(pages[p], 0, d[..Chunk(|d|)])]
  }

  function WriteSpec(pages: chip, p: nat, d: seq<octet>): chip
    requires Room(pages, p, |d|)
    decreases |d|
  {
    if |d| == 0 then pages else
      var a := Place(pages, p);
      var next := WithChunk(pages, a, d);
      if |d| <= PAGE then next else
        ChunkKeepsMarks(pages, a, d);
        RoomKept(pages, next, a + 1, |d| - PAGE);
        WriteSpec(next, a + 1, d[PAGE..])
  }

  function ReadSpec(pages: chip, p: nat, n: nat): (r: seq<octet>)
    requires Room(pages, p, n)
    ensures |r| == n
    decreases n
  {
    if n == 0 then [] else
      var a := Place(pages, p);
      if n <= PAGE then pages[a][..n] else pages[a][..PAGE] + ReadSpec(pages, a + 1, n - PAGE)
  }

  ghost predicate SameMarks(x: chip, y: chip) {
    forall p :: 0 <= p < PAGES ==> (BadMark(x, p) <==> BadMark(y, p))
  }

  /** Programming the main area of a page leaves every mark alone. */
  lemma ChunkKeepsMarks(pages: chip, p: nat, d: seq<octet>)
    requires p < PAGES
    ensures SameMarks(pages, WithChunk(pages, p, d))
  {}

  lemma {:induction false} PlaceKept(x: chip, y: chip, p: nat)
    requires SameMarks(x, y)
    ensures Place(x, p) == Place(y, p)
    decreases PAGES - p
  {
    hide BadMark;
    if Skips(x, p) {
      PlaceKept(x, y, p + PER_BLOCK);
    }
  }

  lemma {:induction false} RoomKept(x: chip, y: chip, p: nat, n: nat)
    requires SameMarks(x, y)
    ensures Room(x, p, n) <==> Room(y, p, n)
    decreases n
  {
    hide BadMark, Place;
    if n > 0 {
      PlaceKept(x, y, p);
      if n > PAGE {
        RoomKept(x, y, Place(x, p) + 1, n - PAGE);
      }
    }
  }

  /** At page p a transfer either skips a whole block or uses p itself. */
  lemma PlaceOrSkip(pages: chip, p: nat, n: nat)
    requires n > 0 && Room(pages, p, n)
    ensures p < PAGES && (Skips(pages, p) || Place(pages, p) == p)
  {
    hide BadMark;
  }

  lemma WriteNothing(pages: chip, p: nat, d: seq<octet>)
    requires |d| == 0
    ensures Room(pages, p, 0) && WriteSpec(pages, p, d) == pages
  {}

  lemma SkipRead(pages: chip, p: nat, n: nat)
    requires Skips(pages, p) && n > 0 && Room(pages, p, n)
    ensures Room(pages, p + PER_BLOCK, n) && ReadSpec(pages, p, n) == ReadSpec(pages, p + PER_BLOCK, n)
  {
    hide BadMark;
    assert Place(pages, p) == Place(pages, p + PER_BLOCK);
  }

  lemma SkipWrite(pages: chip, p: nat, d: seq<octet>)
    requires Skips(pages, p) && |d| > 0 && Room(pages, p, |d|)
    ensures Room(pages, p + PER_BLOCK, |d|) && WriteSpec(pages, p, d) == WriteSpec(pages, p + PER_BLOCK, d)
  {
    hide BadMark;
    assert Place(pages, p) == Place(pages, p + PER_BLOCK);
  }

  /** One page of the write loop. */
  lemma WriteStep(pages: chip, p: nat, d: seq<octet>)
    requires |d| > 0 && Room(pages, p, |d|) && Place(pages, p) == p
    ensures p < PAGES
    ensures var next, c := WithChunk(pages, p, d), Chunk(|d|);
            Room(next, p + 1, |d| - c) && WriteSpec(pages, p, d) == WriteSpec(next, p + 1, d[c..])
  {
    hide BadMark, Programmed;
    ChunkKeepsMarks(pages, p, d);
    if |d| > PAGE {
      RoomKept(pages, WithChunk(pages, p, d), p + 1, |d| - PAGE);
    } else {
      WriteNothing(WithChunk(pages, p, d), p + 1, d[Chunk(|d|)..]);
    }
  }

  lemma ReadStep(pages: chip, p: nat, n: nat)
    requires n > 0 && Room(pages, p, n) && Place(pages, p) == p
    ensures p < PAGES && Room(pages, p + 1, n - Chunk(n))
    ensures ReadSpec(pages, p, n) == pages[p][0..Chunk(n)] + ReadSpec(pages, p + 1, n - Chunk(n))
  {
    hide BadMark;
  }

  // ---- what is written can be read back ----

  /** The n bytes a transfer would touch from page p on are erased. */
  predicate Clean(pages: chip, p: nat, n: nat)
    requires Room(pages, p, n)
    decreases n
  {
    n == 0 || (var a := Place(pages, p);
               && (forall k :: 0 <= k < Chunk(n) ==> pages[a][k] == 0xFF)
               && (n > PAGE ==> Clean(pages, a + 1, n - PAGE)))
  }

  /** Writing from page p on leaves the marks and every page before p alone. */
  lemma {:induction false} WriteFrame(pages: chip, p: nat, d: seq<octet>)
    requires Room(pages, p, |d|)
    ensures SameMarks(pages, WriteSpec(pages, p, d))
    ensures forall k :: 0 <= k < PAGES && k < p ==> WriteSpec(pages, p, d)[k] == pages[k]
    decreases |d|
  {
    hide BadMark, Programmed;
    if |d| > 0 {
      var a := Place(pages, p);
      var next := WithChunk(pages, a, d);
      ChunkKeepsMarks(pages, a, d);
      if |d| > PAGE {
        RoomKept(pages, next, a + 1, |d| - PAGE);
        WriteFrame(next, a + 1, d[PAGE..]);
      }
    }
  }

  /** Chips that agree from page p on are equally clean there. */
  lemma {:induction false} CleanKept(x: chip, y: chip, p: nat, n: nat)
    requires SameMarks(x, y) && Room(x, p, n) && Room(y, p, n) && Clean(x, p, n)
    requires forall k :: p <= k < PAGES ==> x[k] == y[k]
    ensures Clean(y, p, n)
    decreases n
  {
    hide BadMark;
    if n > 0 {
      PlaceKept(x, y, p);
      if n > PAGE {
        CleanKept(x, y, Place(x, p) + 1, n - PAGE);
      }
    }
  }

  /** Programming clean cells stores the data exactly. */
  lemma ProgramClean(s: page, d: seq<octet>)
    requires |d| <= PAGE && forall k :: 0 <= k < |d| ==> s[k] == 0xFF
    ensures Programmed(s, 0, d)[..|d|] == d
  {
    var r := Programmed(s, 0, d);
    forall k | 0 <= k < |d|
      ensures r[k] == d[k]
    {
      assert 0xFF & d[k] == d[k];
    }
  }

  /** The write of the first page, and of the rest. */
  lemma WriteUnfold(pages: chip, p: nat, d: seq<octet>) returns (next: chip)
    requires |d| > 0 && Room(pages, p, |d|) && Clean(pages, p, |d|)
    ensures var a, c, after := Place(pages, p), Chunk(|d|), WriteSpec(pages, p, d);
            && SameMarks(pages, after) && Place(after, p) == a < PAGES
            && after[a][..c] == d[..c]
            && (|d| > PAGE ==> Room(next, a + 1, |d| - PAGE) && Clean(next, a + 1, |d| - PAGE)
                               && after == WriteSpec(next, a + 1, d[PAGE..]))
  {
    hide BadMark, Programmed;
    var a := Place(pages, p);
    next := WithChunk(pages, a, d);
    ChunkKeepsMarks(pages, a, d);
    ProgramClean(pages[a], d[..Chunk(|d|)]);
    WriteFrame(pages, p, d);
    PlaceKept(pages, WriteSpec(pages, p, d), p);
    if |d| > PAGE {
      RoomKept(pages, next, a + 1, |d| - PAGE);
      CleanKept(pages, next, a + 1, |d| - PAGE);
      WriteFrame(next, a + 1, d[PAGE..]);
    }
  }

  /** Writing to clean pages and reading from the same place gives the data back. */
  lemma {:induction false} ReadAfterWrite(pages: chip, p: nat, d: seq<octet>)
    requires Room(pages, p, |d|) && Clean(pages, p, |d|)
    ensures Room(WriteSpec(pages, p, d), p, |d|) && ReadSpec(WriteSpec(pages, p, d), p, |d|) == d
    decreases |d|
  {
    hide BadMark, Clean, Place, WriteSpec, Room;
    if |d| > 0 {
      var next := WriteUnfold(pages, p, d);
      var after := WriteSpec(pages, p, d);
      RoomKept(pages, after, p, |d|);
      if |d| > PAGE {
        ReadAfterWrite(next, Place(pages, p) + 1, d[PAGE..]);
        assert d == d[..PAGE] + d[PAGE..];
      } else {
        assert d[..|d|] == d;
      }
    } else {
      WriteNothing(pages, p, d);
      WriteNothing(WriteSpec(pages, p, d), p, d);
    }
  }

  // ---- bad blocks ----

  /** How many blocks in [from, end) can be erased. */
  function GoodBlocks(worn: set<nat>, from: nat, end: nat): nat
    decreases end
  {
    if end <= from then 0 else GoodBlocks(worn, from, end - 1) + if end - 1 in worn then 0 else 1
  }

  /** Blocks [from, end) have been gone over by nand_erase, nothing else has. */
  ghost predicate Swept(was: chip, now: chip, worn: set<nat>, from: nat, end: nat) {
    && (forall b :: from <= b < end && b < BLOCKS ==> (BadMark(now, b * PER_BLOCK) <==> b in worn))
    && (forall p :: 0 <= p < PAGES && from <= p / PER_BLOCK < end && p / PER_BLOCK !in worn ==> now[p] == Blank())
    && (forall p :: 0 <= p < PAGES && !(from <= p / PER_BLOCK < end) ==> now[p] == was[p])
    && (forall p :: 0 <= p < PAGES && p / PER_BLOCK in worn && p % PER_BLOCK != 0 ==> now[p] == was[p])
  }

  lemma SweptSays(was: chip, now: chip, worn: set<nat>, from: nat, end: nat)
    requires Swept(was, now, worn, from, end) && end <= BLOCKS
    ensures forall b :: from <= b < end ==> (now[b * 64][0x800] != 0xFF <==> b in worn)
    ensures forall p :: 0 <= p < PAGES ==>
      now[p] == if !(from <= p / 64 < end) then was[p] else if p / 64 !in worn then Blank()
                else if p % 64 != 0 then was[p] else now[p]
  {
  }

  lemma SweptNothing(was: chip, worn: set<nat>, from: nat)
    ensures Swept(was, was, worn, from, from)
  {}

  lemma SweepOne(was: chip, before: chip, after: chip, worn: set<nat>, from: nat, b: nat)
    requires Swept(was, before, worn, from, b) && from <= b < BLOCKS
    requires after == if b in worn then Marked(before, b) else ErasedPages(before, b)
    ensures Swept(was, after, worn, from, b + 1)
  {
    if b in worn {
      MarkedIsBad(before, b);
    }
    forall c | from <= c < b + 1
      ensures BadMark(after, c * PER_BLOCK) <==> c in worn
    {
      DivModUnique(c * PER_BLOCK, c, 0, PER_BLOCK);
      DivModUnique(b * PER_BLOCK, b, 0, PER_BLOCK);
    }
    DivModUnique(b * PER_BLOCK, b, 0, PER_BLOCK);
  }

  // ---- capacity ----

  /** Bytes a transfer starting at page p finds before block end. */
  function Capacity(pages: chip, p: nat, end: nat): nat
    decreases end * PER_BLOCK - p
  {
    if p >= end * PER_BLOCK then 0
    else if Skips(pages, p) then Capacity(pages, p + PER_BLOCK, end)
    else PAGE + Capacity(pages, p + 1, end)
  }

  lemma PageInBlock(b: nat, k: nat)
    requires k < PER_BLOCK
    ensures (b * PER_BLOCK + k) / PER_BLOCK == b && (b * PER_BLOCK + k) % PER_BLOCK == k
  {
    DivModUnique(b * PER_BLOCK + k, b, k, PER_BLOCK);
  }

  /** The rest of a block is all available. */
  lemma {:induction false} CapacityInBlock(pages: chip, b: nat, k: nat, end: nat)
    requires b < end && 1 <= k <= PER_BLOCK
    ensures Capacity(pages, b * PER_BLOCK + k, end)
         == (PER_BLOCK - k) * PAGE + Capacity(pages, (b + 1) * PER_BLOCK, end)
    decreases PER_BLOCK - k
  {
    hide BadMark;
    if k < PER_BLOCK {
      PageInBlock(b, k);
      CapacityInBlock(pages, b, k + 1, end);
    }
  }

  /** The capacity between two block boundaries is a block for each good one. */
  lemma {:induction false} CapacityIsGoodBlocks(pages: chip, worn: set<nat>, from: nat, end: nat)
    requires from <= end <= BLOCKS
    requires forall b :: from <= b < end ==> (BadMark(pages, b * PER_BLOCK) <==> b in worn)
    ensures Capacity(pages, from * PER_BLOCK, end) == GoodBlocks(worn, from, end) * BLOCK
    decreases end - from
  {
    hide BadMark;
    if from < end {
      CapacityIsGoodBlocks(pages, worn, from + 1, end);
      GoodBlocksFirst(worn, from, end);
      PageInBlock(from, 0);
      if from !in worn {
        CapacityInBlock(pages, from, 1, end);
      }
    }
  }

  lemma {:induction false} GoodBlocksFirst(worn: set<nat>, from: nat, end: nat)
    requires from < end
    ensures GoodBlocks(worn, from, end) == GoodBlocks(worn, from + 1, end) + if from in worn then 0 else 1
    decreases end
  {
    if from + 1 < end {
      GoodBlocksFirst(worn, from, end - 1);
    }
  }

  lemma CleanPast(pages: chip, p: nat, n: nat)
    requires Skips(pages, p) && n > 0 && Room(pages, p + PER_BLOCK, n) && Clean(pages, p + PER_BLOCK, n)
    ensures Room(pages, p, n) && Clean(pages, p, n)
  {
    hide BadMark;
    assert Place(pages, p) == Place(pages, p + PER_BLOCK);
  }

  lemma CleanHere(pages: chip, p: nat, n: nat)
    requires p < PAGES && n > 0 && !Skips(pages, p) && pages[p] == Blank()
    requires n > PAGE ==> Room(pages, p + 1, n - PAGE) && Clean(pages, p + 1, n - PAGE)
    ensures Room(pages, p, n) && Clean(pages, p, n)
  {
    hide BadMark;
    assert Place(pages, p) == p;
  }

  /** A swept stretch is clean as far as its capacity goes. */
  lemma {:induction false} SweptIsClean(was: chip, pages: chip, worn: set<nat>, from: nat, end: nat,
                                        b: nat, k: nat, n: nat)
    requires Swept(was, pages, worn, from, end) && end <= BLOCKS && from <= b && k < PER_BLOCK
    requires b < end && k > 0 ==> b !in worn
    requires n <= Capacity(pages, b * PER_BLOCK + k, end)
    ensures Room(pages, b * PER_BLOCK + k, n) && Clean(pages, b * PER_BLOCK + k, n)
    decreases end * PER_BLOCK - b * PER_BLOCK - k
  {
    hide BadMark, Room, Clean;
    var p := b * PER_BLOCK + k;
    if n > 0 {
      PageInBlock(b, k);
      if Skips(pages, p) {
        SweptIsClean(was, pages, worn, from, end, b + 1, 0, n);
        CleanPast(pages, p, n);
      } else {
        if n > PAGE {
          if k + 1 == PER_BLOCK {
            SweptIsClean(was, pages, worn, from, end, b + 1, 0, n - PAGE);
          } else {
            SweptIsClean(was, pages, worn, from, end, b, k + 1, n - PAGE);
          }
        }
        CleanHere(pages, p, n);
      }
    } else {
      CleanNothing(pages, p);
    }
  }

  lemma CleanNothing(pages: chip, p: nat)
    ensures Room(pages, p, 0) && Clean(pages, p, 0)
  {}

  lemma SweptHasRoom(was: chip, pages: chip, worn: set<nat>, sb: nat, end: nat, size: nat)
    requires sb <= end <= BLOCKS && Swept(was, pages, worn, sb, end) && GoodBlocks(worn, sb, end) == size / BLOCK + 1
    ensures Room(pages, sb * PER_BLOCK, size) && Clean(pages, sb * PER_BLOCK, size)
  {
    hide Room, Clean, Capacity, GoodBlocks, BadMark;
    DivMod(size, BLOCK);
    CapacityIsGoodBlocks(pages, worn, sb, end);
    SweptIsClean(was, pages, worn, sb, end, sb, 0, size);
  }

  /**
   * Erase, write and read back as the boot loader does: for every file size
   * and every set of worn blocks the same bytes come back, given a block
   * aligned start and enough good blocks.
   */
  method StoreAndLoad(nand: Flash, start: nat, file: array<octet>, size: nat, out: array<octet>)
    requires file != out && size <= file.Length && size <= out.Length
    requires start % BLOCK == 0 && start <= BLOCKS * BLOCK
    requires GoodBlocks(nand.worn, start / BLOCK, BLOCKS) >= size / BLOCK + 1
    modifies nand, out
    ensures out[..size] == file[..size]
  {
    hide Room, Clean, ReadSpec, WriteSpec, Capacity, GoodBlocks, Swept;
    var erase_size := (size / BLOCK + 1) * BLOCK;
    FirstPage(size / BLOCK + 1);
    FirstPage(start / BLOCK);
    PageOf(start / BLOCK * PER_BLOCK);
    ghost var was := nand.pages;
    var r, end := nand.Erase(start, erase_size, true);
    SweptHasRoom(was, nand.pages, nand.worn, start / BLOCK, end, size);
    ReadAfterWrite(nand.pages, start / PAGE, file[..size]);
    r := nand.Write(start, size, file);
    r := nand.Read(start, size, out);
  }
}
