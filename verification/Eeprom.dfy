/** Chunked access to an EEPROM whose address counter wraps (common/cmd_eeprom.c). */
module Eeprom {
  import opened Arithmetic
  import opened Octets
  import opened CText

  /** CONFIG_SYS_EEPROM_PAGE_WRITE_BITS (8 if it is not set) and I2C_RXTX_LEN. */
  datatype Config = Config(pageBits: nat, rxtx: nat) {
    predicate Valid() {
      rxtx > 0
    }

    function Page(): (r: nat)
      ensures r > 0
    {
      Pow2(pageBits)
    }
  }

  const BLOCK: nat := 0x100

  /** Room behind blk_off, which is the offset in its 256-byte block. */
  function WriteLen(c: Config, offset: nat, end: nat): (len: nat)
    requires c.Valid() && offset < end
    ensures 0 < len <= Min(c.rxtx, end - offset)
  {
    Min(end - offset, Min(c.Page() - offset % BLOCK % c.Page(), c.rxtx))
  }

  function ReadLen(c: Config, offset: nat, end: nat): (len: nat)
    requires c.Valid() && offset < end
    ensures 0 < len <= Min(c.rxtx, end - offset) && offset % BLOCK + len <= BLOCK
  {
    Min(end - offset, Min(BLOCK - offset % BLOCK, c.rxtx))
  }

  // ---------------------------------------------------------------- chunks

  predicate InOnePage(page: nat, offset: nat, len: nat)
    requires page > 0
  {
    offset % page + len <= page
  }

  lemma PageDividesBlock(c: Config, offset: nat)
    requires c.pageBits <= 8
    ensures offset % BLOCK % c.Page() == offset % c.Page()
  {
    SmallPages(c.pageBits);
    var pages, blocks := [1, 2, 4, 8, 16, 32, 64, 128, 256], [256, 128, 64, 32, 16, 8, 4, 2, 1];
    assert pages[c.pageBits] * blocks[c.pageBits] == BLOCK;
    NestedDivision(offset, c.Page(), blocks[c.pageBits]);
  }

  lemma {:induction false} SmallPages(n: nat)
    requires n <= 8
    ensures Pow2(n) == [1, 2, 4, 8, 16, 32, 64, 128, 256][n]
  {
    if n > 0 {
      SmallPages(n - 1);
    }
  }

  /** The last offset of a page is the last of a block, if pages are larger. */
  lemma {:induction false} LargePage(n: nat)
    requires n > 8
    ensures Pow2(n) >= 512 && (Pow2(n) - 1) % BLOCK == BLOCK - 1
  {
    if n == 9 {
      assert Pow2(9) == 2 * Pow2(8) && Pow2(8) == 4 * Pow2(6) && Pow2(6) == 4 * Pow2(4) && Pow2(4) == 16;
    } else {
      LargePage(n - 1);
    }
  }

  /** No write crosses a page of the device, whatever the range, exactly if pages
      are no larger than a block or bytes are written one by one. */
  lemma WritesStayInPage(c: Config)
    requires c.Valid()
    ensures (forall offset: nat, end: nat :: offset < end ==> InOnePage(c.Page(), offset, WriteLen(c, offset, end)))
      <==> c.pageBits <= 8 || c.rxtx == 1
  {
    if c.pageBits <= 8 || c.rxtx == 1 {
      forall offset: nat, end: nat | offset < end ensures InOnePage(c.Page(), offset, WriteLen(c, offset, end)) {
        ChunkStaysInPage(c, offset, end);
      }
    } else {
      LargePageIsCrossed(c);
    }
  }

  lemma LargePageIsCrossed(c: Config)
    requires c.rxtx > 1 && c.pageBits > 8
    ensures WriteLen(c, c.Page() - 1, c.Page() + 1) == 2 && !InOnePage(c.Page(), c.Page() - 1, 2)
  {
    hide Pow2;
    LargePage(c.pageBits);
    BelowModulus(c.Page() - 1, c.Page());
    BelowModulus(BLOCK - 1, c.Page());
  }

  lemma ChunkStaysInPage(c: Config, offset: nat, end: nat)
    requires c.Valid() && offset < end && (c.pageBits <= 8 || c.rxtx == 1)
    ensures InOnePage(c.Page(), offset, WriteLen(c, offset, end))
  {
    if c.pageBits <= 8 {
      PageDividesBlock(c, offset);
    }
  }

  /** The spans that a range is written or read in: where each starts and how long it is. */
  datatype Span = Span(offset: nat, len: nat)

  datatype Access = Write | Read

  function Len(c: Config, a: Access, offset: nat, end: nat): (len: nat)
    requires c.Valid() && offset < end
    ensures 0 < len <= Min(c.rxtx, end - offset)
  {
    if a == Write then WriteLen(c, offset, end) else ReadLen(c, offset, end)
  }

  function Chunks(c: Config, a: Access, offset: nat, end: nat): seq<Span>
    requires c.Valid()
    decreases end - offset
  {
    if offset >= end then [] else
      var len := Len(c, a, offset, end);
      [Span(offset, len)] + Chunks(c, a, offset + len, end)
  }

  /** Every chunk is within the transfer limit and in one page (read: block), and
      together they tile the range. */
  predicate Tile(c: Config, page: nat, offset: nat, end: nat, spans: seq<Span>)
    requires page > 0
    decreases |spans|
  {
    if spans == [] then offset == end
    else
      && spans[0].offset == offset && 0 < spans[0].len <= c.rxtx
      && InOnePage(page, offset, spans[0].len) && Tile(c, page, offset + spans[0].len, end, spans[1..])
  }

  lemma {:induction false} ChunksTile(c: Config, a: Access, offset: nat, end: nat)
    requires c.Valid() && offset <= end && (a == Read || c.pageBits <= 8 || c.rxtx == 1)
    ensures Tile(c, if a == Write then c.Page() else BLOCK, offset, end, Chunks(c, a, offset, end))
    decreases end - offset
  {
    if offset < end {
      var len := Len(c, a, offset, end);
      if a == Write {
        ChunkStaysInPage(c, offset, end);
      }
      ChunksTile(c, a, offset + len, end);
      assert Chunks(c, a, offset, end)[1..] == Chunks(c, a, offset + len, end);
    }
  }

  // ---------------------------------------------------------------- device

  /** The cell of the i-th byte of a transfer: the low address bits wrap. */
  function Cell(page: nat, offset: nat, i: nat): nat
    requires page > 0
  {
    offset - offset % page + (offset % page + i) % page
  }

  lemma CellInPage(page: nat, offset: nat, i: nat)
    requires page > 0 && offset % page + i < page
    ensures Cell(page, offset, i) == offset + i
  {}

  /** Cells after a write transfer. */
  function Stored(page: nat, cells: seq<byte>, offset: nat, bs: seq<byte>): (r: seq<byte>)
    requires page > 0
    ensures |r| == |cells|
  {
    if bs == [] then cells else
      var n := |bs| - 1;
      Put(Stored(page, cells, offset, bs[..n]), Cell(page, offset, n), bs[n])
  }

  function Put(cells: seq<byte>, i: nat, b: byte): (r: seq<byte>)
    ensures |r| == |cells|
  {
    if i < |cells| then cells[i := b] else cells
  }

  /** A linear write. */
  function Linear(cells: seq<byte>, offset: nat, bs: seq<byte>): (r: seq<byte>)
    requires offset + |bs| <= |cells|
    ensures |r| == |cells|
    ensures r[offset..offset + |bs|] == bs
  {
    cells[..offset] + bs + cells[offset + |bs|..]
  }

  lemma LinearUpdate(cells: seq<byte>, offset: nat, bs: seq<byte>, b: byte)
    requires offset + |bs| < |cells|
    ensures Linear(cells, offset, bs + [b]) == Linear(cells, offset, bs)[offset + |bs| := b]
  {}

  lemma {:induction false} StoredIsLinear(page: nat, cells: seq<byte>, offset: nat, bs: seq<byte>)
    requires page > 0 && InOnePage(page, offset, |bs|) && offset + |bs| <= |cells|
    ensures Stored(page, cells, offset, bs) == Linear(cells, offset, bs)
  {
    hide Linear, Cell;
    if bs == [] {
      LinearNothing(cells, offset);
    } else {
      var n := |bs| - 1;
      StoredIsLinear(page, cells, offset, bs[..n]);
      CellInPage(page, offset, n);
      LinearUpdate(cells, offset, bs[..n], bs[n]);
      assert bs[..n] + [bs[n]] == bs;
    }
  }

  lemma LinearNothing(cells: seq<byte>, offset: nat)
    requires offset <= |cells|
    ensures Linear(cells, offset, []) == cells
  {}

  lemma LinearMore(cells: seq<byte>, offset: nat, a: seq<byte>, b: seq<byte>)
    requires offset + |a| + |b| <= |cells|
    ensures Linear(Linear(cells, offset, a), offset + |a|, b) == Linear(cells, offset, a + b)
  {}

  /** An EEPROM on the bus. The n-th transfer is acknowledged for its first
      accepts(n) bytes, and not at all behind the last cell. */
  class Chip {
    const cells: array<byte>
    const page: nat
    const accepts: nat -> nat
    var transfers: nat
    ghost var spans: seq<Span>
    ghost var acks: seq<bool>

    constructor (cells: array<byte>, page: nat, accepts: nat -> nat)
      requires page > 0 && cells.Length % page == 0 && cells.Length % BLOCK == 0
      ensures Valid() && this.cells == cells && this.page == page && spans == [] && acks == []
    {
      this.cells, this.page, this.accepts, transfers, spans, acks := cells, page, accepts, 0, [], [];
    }

    predicate Valid() {
      page > 0 && cells.Length % page == 0 && cells.Length % BLOCK == 0
    }

    method I2cWrite(offset: nat, bs: seq<byte>) returns (code: nat, ghost n: nat)
      requires Valid() && bs != []
      modifies this, cells
      ensures n <= |bs| && (offset >= cells.Length ==> n == 0)
      ensures cells[..] == Stored(page, old(cells[..]), offset, bs[..n])
      ensures code == if n == |bs| then 0 else 1
      ensures spans == old(spans) + [Span(offset, |bs|)] && acks == old(acks) + [code == 0]
    {
      var m := if offset < cells.Length then Min(accepts(transfers), |bs|) else 0;
      for i := 0 to m
        invariant cells[..] == Stored(page, old(cells[..]), offset, bs[..i])
        invariant spans == old(spans) && acks == old(acks)
      {
        assert bs[..i + 1][..i] == bs[..i];
        if Cell(page, offset, i) < cells.Length {
          cells[Cell(page, offset, i)] := bs[i];
        }
      }
      n := m;
      code := if m == |bs| then 0 else 1;
      transfers, spans, acks := transfers + 1, spans + [Span(offset, |bs|)], acks + [code == 0];
    }

    method I2cRead(offset: nat, buffer: array<byte>, pos: nat, len: nat) returns (code: nat)
      requires Valid() && len > 0 && pos + len <= buffer.Length && buffer != cells
      modifies this, buffer
      ensures code <= 1 && (code == 0 ==> offset < cells.Length)
      ensures forall k :: 0 <= k < buffer.Length && !(pos <= k < pos + len) ==> buffer[k] == old(buffer[k])
      ensures code == 0 ==> forall k :: 0 <= k < len && Cell(BLOCK, offset, k) < cells.Length ==>
        buffer[pos + k] == cells[Cell(BLOCK, offset, k)]
      ensures spans == old(spans) + [Span(offset, len)] && acks == old(acks) + [code == 0]
    {
      hide Cell;
      var m := if offset < cells.Length then Min(accepts(transfers), len) else 0;
      for i := 0 to m
        invariant unchanged(this)
        invariant forall k :: 0 <= k < buffer.Length && !(pos <= k < pos + i) ==> buffer[k] == old(buffer[k])
        invariant forall k :: 0 <= k < i && Cell(BLOCK, offset, k) < cells.Length ==>
          buffer[pos + k] == cells[Cell(BLOCK, offset, k)]
      {
        if Cell(BLOCK, offset, i) < cells.Length {
          buffer[pos + i] := cells[Cell(BLOCK, offset, i)];
        }
      }
      code := if m == len then 0 else 1;
      transfers, spans, acks := transfers + 1, spans + [Span(offset, len)], acks + [code == 0];
    }
  }

  /** A page that starts on the device ends on it. */
  lemma PageFits(page: nat, length: nat, offset: nat, len: nat)
    requires page > 0 && length % page == 0 && offset < length && InOnePage(page, offset, len)
    ensures offset + len <= length
  {
    var pages, q := length / page, offset / page;
    Quotient(length, page);
    Quotient(offset, page);
    Multiple(page, pages - q);
    Distribute(page, pages, q);
  }

  // --------------------------------------------------------------- commands

  /** after is before, except that cells of the range may hold their new byte. */
  ghost predicate Kept(before: seq<byte>, after: seq<byte>, offset: nat, bs: seq<byte>) {
    && |after| == |before|
    && forall i :: 0 <= i < |after| ==>
      after[i] == before[i] || (offset <= i < offset + |bs| && after[i] == bs[i - offset])
  }

  ghost predicate AllTrue(acks: seq<bool>) {
    forall i :: 0 <= i < |acks| ==> acks[i]
  }

  /** What the device holds after the first pos bytes: all of them, if no transfer failed. */
  ghost predicate Progress(before: seq<byte>, cells: seq<byte>, offset: nat, bs: seq<byte>, rcode: nat) {
    && Kept(before, cells, offset, bs)
    && (rcode == 0 && bs != [] ==> offset + |bs| <= |before| && cells == Linear(before, offset, bs))
    && (bs == [] ==> cells == before)
  }

  lemma ProgressMore(page: nat, before: seq<byte>, cells: seq<byte>, offset: nat, bs: seq<byte>, more: seq<byte>,
                     n: nat, rcode: nat)
    requires Progress(before, cells, offset, bs, rcode) && more != [] && n <= |more|
    requires page > 0 && |before| % page == 0 && InOnePage(page, offset + |bs|, |more|)
    requires offset + |bs| >= |before| ==> n == 0
    ensures Progress(before, Stored(page, cells, offset + |bs|, more[..n]), offset, bs + more,
              if n == |more| then rcode else 1)
  {
    hide Stored;
    var o := offset + |bs|;
    if o < |before| {
      PageFits(page, |before|, o, |more|);
      StoredIsLinear(page, cells, o, more[..n]);
      KeptMore(before, cells, offset, bs, more, n);
      if n == |more| {
        assert more[..n] == more;
        if rcode == 0 {
          LinearBoth(before, cells, offset, bs, more);
        }
      }
    } else {
      assert Stored(page, cells, o, more[..n]) == cells by {
        StoredNothing(page, cells, o);
      }
    }
  }

  lemma StoredNothing(page: nat, cells: seq<byte>, offset: nat)
    requires page > 0
    ensures Stored(page, cells, offset, []) == cells
  {}

  lemma KeptMore(before: seq<byte>, cells: seq<byte>, offset: nat, bs: seq<byte>, more: seq<byte>, n: nat)
    requires Kept(before, cells, offset, bs) && n <= |more| && offset + |bs| + n <= |before|
    ensures Kept(before, Linear(cells, offset + |bs|, more[..n]), offset, bs + more)
  {}

  lemma LinearBoth(before: seq<byte>, cells: seq<byte>, offset: nat, bs: seq<byte>, more: seq<byte>)
    requires offset + |bs| + |more| <= |before| == |cells|
    requires if bs == [] then cells == before else cells == Linear(before, offset, bs)
    ensures Linear(cells, offset + |bs|, more) == Linear(before, offset, bs + more)
  {
    LinearNothing(before, offset);
    LinearMore(before, offset, bs, more);
  }

  /** What the bus has seen of a command since acks0 and of its chunks, all but the
      rest from offset on; rcode is 0 as long as everything was acknowledged. */
  ghost predicate Logged(dev: Chip, acks0: seq<bool>, all: seq<Span>, rest: seq<Span>, rcode: nat)
    reads dev
  {
    && dev.spans + rest == all && acks0 <= dev.acks
    && rcode == if AllTrue(dev.acks[|acks0|..]) then 0 else 1
  }

  lemma LoggedFirst(dev: Chip, all: seq<Span>)
    ensures Logged(dev, dev.acks, dev.spans + all, all, 0)
  {}

  /** One more transfer. */
  lemma LoggedMore(dev: Chip, c: Config, a: Access, spans: seq<Span>, acks: seq<bool>, code: nat, offset: nat,
                   end: nat, acks0: seq<bool>, all: seq<Span>, rcode: nat)
    requires c.Valid() && offset < end
    requires spans + Chunks(c, a, offset, end) == all && acks0 <= acks
    requires rcode == if AllTrue(acks[|acks0|..]) then 0 else 1
    requires dev.spans == spans + [Span(offset, Len(c, a, offset, end))] && dev.acks == acks + [code == 0]
    ensures var rest := Chunks(c, a, offset + Len(c, a, offset, end), end);
            Logged(dev, acks0, all, rest, if code == 0 then rcode else 1)
  {
    hide AllTrue, Len, Chunks;
    ChunksFirst(c, a, offset, end);
    Regrouped(spans, [Span(offset, Len(c, a, offset, end))], Chunks(c, a, offset + Len(c, a, offset, end), end));
    AckMore(acks0, acks, code == 0);
  }

  lemma ChunksFirst(c: Config, a: Access, offset: nat, end: nat)
    requires c.Valid() && offset < end
    ensures var len := Len(c, a, offset, end);
            Chunks(c, a, offset, end) == [Span(offset, len)] + Chunks(c, a, offset + len, end)
  {}

  lemma Regrouped(a: seq<Span>, b: seq<Span>, c: seq<Span>)
    ensures a + (b + c) == a + b + c
  {}

  lemma LoggedAll(dev: Chip, c: Config, a: Access, offset: nat, end: nat, acks0: seq<bool>, all: seq<Span>, rcode: nat)
    requires c.Valid() && offset >= end && Logged(dev, acks0, all, Chunks(c, a, offset, end), rcode)
    ensures dev.spans == all && acks0 <= dev.acks && rcode == if AllTrue(dev.acks[|acks0|..]) then 0 else 1
  {}

  lemma AckMore(first: seq<bool>, acks: seq<bool>, ack: bool)
    requires first <= acks
    ensures first <= acks + [ack] && (AllTrue((acks + [ack])[|first|..]) <==> AllTrue(acks[|first|..]) && ack)
  {
    assert (acks + [ack])[|first|..] == acks[|first|..] + [ack];
    assert (acks[|first|..] + [ack])[|acks| - |first|] == ack;
    assert forall i :: 0 <= i < |acks| - |first| ==> (acks[|first|..] + [ack])[i] == acks[|first|..][i];
  }

  /** No chunk of the range crosses a page of the device. */
  ghost predicate NoneCrosses(c: Config, offset: nat, end: nat)
    requires c.Valid()
  {
    forall span <- Chunks(c, Write, offset, end) :: InOnePage(c.Page(), span.offset, span.len)
  }

  lemma NextNoneCrosses(c: Config, offset: nat, end: nat)
    requires c.Valid() && offset < end
    ensures var len := WriteLen(c, offset, end);
            NoneCrosses(c, offset, end) <==> InOnePage(c.Page(), offset, len) && NoneCrosses(c, offset + len, end)
  {
    hide Chunks, InOnePage, WriteLen;
    ChunksFirst(c, Write, offset, end);
    var len := WriteLen(c, offset, end);
    var first, rest := Span(offset, len), Chunks(c, Write, offset + len, end);
    assert first in [first] + rest;
    assert forall span :: span in [first] + rest <==> span == first || span in rest;
  }

  /** None does in any range if pages are no larger than a block or bytes are written one
      by one; with larger pages it depends on the range. */
  lemma {:induction false} SmallPagesNeverCross(c: Config, offset: nat, end: nat)
    requires c.Valid() && (c.pageBits <= 8 || c.rxtx == 1)
    ensures NoneCrosses(c, offset, end)
    decreases end - offset
  {
    if offset < end {
      ChunkStaysInPage(c, offset, end);
      SmallPagesNeverCross(c, offset + WriteLen(c, offset, end), end);
      NextNoneCrosses(c, offset, end);
    }
  }

  /** eeprom_write. Unless offset + cnt wraps (then nothing happens at all) the range
      is written chunk by chunk. If none of these crosses a page, the device is as after
      one linear write when no transfer fails; when one does, the others are still
      written. */
  method EepromWrite(dev: Chip, c: Config, offset0: u32, buffer: seq<byte>) returns (rcode: nat)
    requires dev.Valid() && c.Valid() && c.Page() == dev.page && |buffer| < TWO32
    modifies dev, dev.cells
    ensures dev.spans == old(dev.spans) + Chunks(c, Write, offset0, U32(offset0 + |buffer|))
    ensures old(dev.acks) <= dev.acks
    ensures rcode == if AllTrue(dev.acks[|old(dev.acks)|..]) then 0 else 1
    ensures offset0 + |buffer| >= TWO32 ==> rcode == 0 && dev.cells[..] == old(dev.cells[..])
    ensures offset0 + |buffer| < TWO32 && NoneCrosses(c, offset0, offset0 + |buffer|) ==>
      Progress(old(dev.cells[..]), dev.cells[..], offset0, buffer, rcode)
  {
    hide Chunks, Progress, Logged, AllTrue, NoneCrosses;
    var end := U32(offset0 + |buffer|);
    rcode := 0;
    ghost var all := dev.spans + Chunks(c, Write, offset0, end);
    LoggedFirst(dev, Chunks(c, Write, offset0, end));
    ProgressNone(dev.cells[..], offset0);
    assert buffer[..0] == [];
    if offset0 + |buffer| >= TWO32 {
      assert offset0 >= end;
      LoggedAll(dev, c, Write, offset0, end, old(dev.acks), all, rcode);
      return;
    }
    ghost var fits := NoneCrosses(c, offset0, end);
    var offset, pos := offset0, 0;
    while offset < end
      invariant pos == offset - offset0 && 0 <= pos <= |buffer| && end == offset0 + |buffer|
      invariant fits ==> NoneCrosses(c, offset, end)
      invariant Logged(dev, old(dev.acks), all, Chunks(c, Write, offset, end), rcode)
      invariant fits ==> Progress(old(dev.cells[..]), dev.cells[..], offset0, buffer[..pos], rcode)
      decreases end - offset
    {
      NextNoneCrosses(c, offset, end);
      rcode := WriteChunk(dev, c, offset, end, buffer, pos, rcode, old(dev.cells[..]), old(dev.acks), all, fits);
      var len := WriteLen(c, offset, end);
      pos := pos + len;
      offset := offset + len;
    }
    LoggedAll(dev, c, Write, offset, end, old(dev.acks), all, rcode);
    assert buffer[..|buffer|] == buffer;
  }

  lemma ProgressNone(cells: seq<byte>, offset: nat)
    ensures Progress(cells, cells, offset, [], 0)
  {}

  /** The body of the loop of eeprom_write. */
  method WriteChunk(dev: Chip, c: Config, offset: nat, end: nat, buffer: seq<byte>, pos: nat, rcode0: nat,
                    ghost before: seq<byte>, ghost acks0: seq<bool>, ghost all: seq<Span>, ghost fits: bool)
    returns (rcode: nat)
    requires dev.Valid() && c.Valid() && c.Page() == dev.page
    requires pos <= offset < end && end - offset == |buffer| - pos
    requires Logged(dev, acks0, all, Chunks(c, Write, offset, end), rcode0)
    requires fits ==> InOnePage(c.Page(), offset, WriteLen(c, offset, end))
    requires fits ==> Progress(before, dev.cells[..], offset - pos, buffer[..pos], rcode0)
    modifies dev, dev.cells
    ensures var next := WriteLen(c, offset, end);
            && Logged(dev, acks0, all, Chunks(c, Write, offset + next, end), rcode)
            && (fits ==> Progress(before, dev.cells[..], offset - pos, buffer[..pos + next], rcode))
  {
    hide Chunks, Progress, AllTrue, Stored, WriteLen, InOnePage;
    var len := WriteLen(c, offset, end);
    ghost var cells, spans, acks := dev.cells[..], dev.spans, dev.acks;
    var code;
    ghost var n;
    code, n := dev.I2cWrite(offset, buffer[pos..pos + len]);
    rcode := if code == 0 then rcode0 else 1;
    LoggedMore(dev, c, Write, spans, acks, code, offset, end, acks0, all, rcode0);
    if fits {
      SameLength(before, cells, offset - pos, buffer[..pos], rcode0);
      ProgressMore(dev.page, before, cells, offset - pos, buffer[..pos], buffer[pos..pos + len], n, rcode0);
      assert buffer[..pos] + buffer[pos..pos + len] == buffer[..pos + len];
    }
  }

  lemma SameLength(before: seq<byte>, cells: seq<byte>, offset: nat, bs: seq<byte>, rcode: nat)
    requires Progress(before, cells, offset, bs, rcode)
    ensures |cells| == |before|
  {}

  /** eeprom_read: the range, if no transfer fails and offset + cnt does not wrap. */
  method EepromRead(dev: Chip, c: Config, offset0: u32, buffer: array<byte>) returns (rcode: nat)
    requires dev.Valid() && c.Valid() && buffer.Length < TWO32 && buffer != dev.cells
    modifies dev, buffer
    ensures dev.spans == old(dev.spans) + Chunks(c, Read, offset0, U32(offset0 + buffer.Length))
    ensures old(dev.acks) <= dev.acks
    ensures rcode == if AllTrue(dev.acks[|old(dev.acks)|..]) then 0 else 1
    ensures offset0 + buffer.Length >= TWO32 ==> rcode == 0 && buffer[..] == old(buffer[..])
    ensures offset0 + buffer.Length < TWO32 && rcode == 0 ==>
      buffer.Length == 0 || SameAs(dev, offset0, buffer, buffer.Length)
  {
    hide Chunks, Logged, AllTrue, SameAs;
    var end := U32(offset0 + buffer.Length);
    rcode := 0;
    ghost var all := dev.spans + Chunks(c, Read, offset0, end);
    LoggedFirst(dev, Chunks(c, Read, offset0, end));
    if offset0 + buffer.Length >= TWO32 {
      assert offset0 >= end;
      LoggedAll(dev, c, Read, offset0, end, old(dev.acks), all, rcode);
      return;
    }
    var offset, pos := offset0, 0;
    while offset < end
      invariant pos == offset - offset0 && 0 <= pos <= buffer.Length && end == offset0 + buffer.Length
      invariant Logged(dev, old(dev.acks), all, Chunks(c, Read, offset, end), rcode)
      invariant rcode == 0 && pos > 0 ==> SameAs(dev, offset0, buffer, pos)
      decreases end - offset
    {
      rcode := ReadChunk(dev, c, offset, end, buffer, pos, rcode, old(dev.acks), all);
      var len := ReadLen(c, offset, end);
      pos := pos + len;
      offset := offset + len;
    }
    LoggedAll(dev, c, Read, offset, end, old(dev.acks), all, rcode);
  }

  /** The first n bytes of the buffer are those of the device from offset on. */
  ghost predicate SameAs(dev: Chip, offset: nat, buffer: array<byte>, n: nat)
    reads buffer, dev.cells
  {
    && n <= buffer.Length && offset + n <= dev.cells.Length
    && buffer[..n] == dev.cells[offset..offset + n]
  }

  /** The body of the loop of eeprom_read. */
  method ReadChunk(dev: Chip, c: Config, offset: nat, end: nat, buffer: array<byte>, pos: nat, rcode0: nat,
                   ghost acks0: seq<bool>, ghost all: seq<Span>) returns (rcode: nat)
    requires dev.Valid() && c.Valid() && buffer != dev.cells
    requires pos <= offset < end && end - offset == buffer.Length - pos
    requires Logged(dev, acks0, all, Chunks(c, Read, offset, end), rcode0)
    requires rcode0 == 0 && pos > 0 ==> SameAs(dev, offset - pos, buffer, pos)
    modifies dev, buffer
    ensures var next := ReadLen(c, offset, end);
            && Logged(dev, acks0, all, Chunks(c, Read, offset + next, end), rcode)
            && (rcode == 0 ==> SameAs(dev, offset - pos, buffer, pos + next))
  {
    hide Chunks, AllTrue, ReadLen;
    var len := ReadLen(c, offset, end);
    ghost var spans, acks, got := dev.spans, dev.acks, buffer[..pos];
    var code := dev.I2cRead(offset, buffer, pos, len);
    rcode := if code == 0 then rcode0 else 1;
    LoggedMore(dev, c, Read, spans, acks, code, offset, end, acks0, all, rcode0);
    if rcode == 0 {
      PageFits(BLOCK, dev.cells.Length, offset, len);
      forall j | 0 <= j < pos + len ensures buffer[j] == dev.cells[offset - pos + j] {
        if j < pos {
          assert buffer[j] == got[j] == dev.cells[offset - pos..offset][j];
        } else {
          CellInPage(BLOCK, offset, j - pos);
          assert buffer[pos + (j - pos)] == dev.cells[Cell(BLOCK, offset, j - pos)];
        }
      }
      assert buffer[..pos + len] == dev.cells[offset - pos..offset + len];
    }
  }

  /** After a write that succeeded the range reads back, and nothing else changed. */
  lemma WrittenReadsBack(before: seq<byte>, cells: seq<byte>, offset: nat, bs: seq<byte>)
    requires bs != [] && Progress(before, cells, offset, bs, 0)
    ensures offset + |bs| <= |cells| == |before| && cells[offset..offset + |bs|] == bs
    ensures cells[..offset] == before[..offset] && cells[offset + |bs|..] == before[offset + |bs|..]
  {}

  /** Why larger pages need single bytes: two bytes for the end of any page and the
      start of the next are written in one chunk, and the second one lands at the
      start of the same page. */
  lemma CrossingWriteWraps(c: Config, m: nat, cells: seq<byte>, x: byte, y: byte)
    requires c.rxtx > 1 && c.pageBits > 8 && (m + 1) * c.Page() < |cells|
    ensures var p := c.Page();
            var o := m * p + (p - 1);
            && 0 <= m * p < o < |cells| && Chunks(c, Write, o, o + 2) == [Span(o, 2)]
            && Stored(p, cells, o, [x, y]) == cells[o := x][m * p := y]
  {
    hide Pow2, Stored, Chunks;
    LargePage(c.pageBits);
    var p := c.Page();
    PageEnd(p, m);
    EndOfBlock(p, m);
    TwoBytes(p, cells, m * p + (p - 1), m * p, x, y);
    OneChunk(c, m * p + (p - 1));
  }

  lemma PageEnd(p: nat, m: nat)
    requires p >= 2
    ensures m * p >= 0 && (m + 1) * p == m * p + (p - 1) + 1 && (m * p + (p - 1)) % p == p - 1
  {
    NonNegative(m, p);
    Divide(m * p + (p - 1), p, m, p - 1);
  }

  lemma EndOfBlock(p: nat, m: nat)
    requires p > 0 && (p - 1) % BLOCK == BLOCK - 1
    ensures (m * p + (p - 1)) % BLOCK == BLOCK - 1
  {
    var k := (p - 1) / BLOCK;
    assert p == BLOCK * (k + 1);
    assert m * p == BLOCK * (m * (k + 1));
    Divide(m * p + (p - 1), BLOCK, m * (k + 1) + k, BLOCK - 1);
  }

  lemma OneChunk(c: Config, o: nat)
    requires c.rxtx > 1 && c.Page() >= 2 * BLOCK && o % BLOCK == BLOCK - 1
    ensures Chunks(c, Write, o, o + 2) == [Span(o, 2)]
  {
    hide Pow2;
    BelowModulus(BLOCK - 1, c.Page());
    assert WriteLen(c, o, o + 2) == 2;
    assert Chunks(c, Write, o + 2, o + 2) == [];
  }

  lemma TwoBytes(p: nat, cells: seq<byte>, o: nat, start: nat, x: byte, y: byte)
    requires 2 <= p && o % p == p - 1 && start == o - (p - 1) && o < |cells|
    ensures Stored(p, cells, o, [x, y]) == cells[o := x][start := y]
  {
    hide Cell;
    LastCells(p, o);
    assert [x, y][..1] == [x] && [x][..0] == [];
    StoredNothing(p, cells, o);
    assert Stored(p, cells, o, [x]) == Put(cells, o, x);
  }

  lemma LastCells(p: nat, o: nat)
    requires 2 <= p && o % p == p - 1
    ensures Cell(p, o, 0) == o && Cell(p, o, 1) == o - (p - 1)
  {
    assert p % p == 0 && (p - 1) % p == p - 1;
  }
}
