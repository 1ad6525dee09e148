/** Reading blocks from a floppy disk (common/cmd_fdc.c): block numbers become
    track, head and sector, and a shared retry budget bounds the errors tolerated. */
module Fdc {
  import opened Arithmetic
  import opened Octets

  const FDC_RW_RETRIES: nat := 3
  const FDC_CAL_RETRIES: nat := 3

  /** The transfer error that is one too many for a call. */
  const FATAL_ERROR: nat := (FDC_RW_RETRIES + 2) * (FDC_CAL_RETRIES + 2)

  /** Sectors per track and heads, within the command's byte-wide fields. */
  datatype Geo = Geo(sect: nat, head: nat, sectSize: nat)

  predicate GoodGeo(g: Geo) {
    0 < g.sect < 256 && 0 < g.head <= 256 && 0 < g.sectSize
  }

  /** What is stored at (track, head, sector); sectors count from 1. */
  type Disc = (byte, byte, byte) -> seq<byte>

  ghost predicate GoodDisc(d: Disc, g: Geo) {
    forall t, h, s :: |d(t, h, s)| == g.sectSize
  }

  // --------------------------------------------------------------- addressing

  /** The fields fdc_issue_cmd puts into a command for block b. */
  datatype Chs = Chs(track: byte, head: byte, sector: byte)

  function Position(g: Geo, b: nat): Chs
    requires GoodGeo(g)
  {
    MulPositive(g.sect, g.head);
    var track := b / (g.sect * g.head);
    var rest := b % (g.sect * g.head);
    Chs(track % 256, (rest / g.sect) % 256, (rest % g.sect + 1) % 256)
  }

  lemma PositionBySides(g: Geo, b: nat)
    requires GoodGeo(g)
    ensures Position(g, b) == Chs(((b / g.sect) / g.head) % 256, ((b / g.sect) % g.head) % 256, b % g.sect + 1)
  {
    NestedDivision(b, g.sect, g.head);
  }

  /** Block numbers that a command can tell apart: the track field has eight bits. */
  function Capacity(g: Geo): (n: nat)
    requires GoodGeo(g)
    ensures n > 0
  {
    MulPositive(g.head, 256);
    MulPositive(g.sect, g.head * 256);
    g.sect * (g.head * 256)
  }

  /** The fields by the block number's remainder. */
  lemma PositionOfRemainder(g: Geo, b: nat)
    requires GoodGeo(g)
    ensures var p, c := Position(g, b), b % Capacity(g);
            p.track == (c / g.sect) / g.head && p.head == (c / g.sect) % g.head && p.sector == c % g.sect + 1
  {
    hide Position;
    PositionBySides(g, b);
    RemainderParts(b, g.sect, g.head);
    BelowModulus((b / g.sect) % g.head, 256);
  }

  lemma RemainderParts(b: nat, s: nat, h: nat)
    requires s > 0 && h > 0
    ensures s * (h * 256) > 0
    ensures var c := b % (s * (h * 256));
            (c / s) / h == ((b / s) / h) % 256 && (c / s) % h == (b / s) % h && c % s == b % s
  {
    NestedDivision(b, s, h * 256);
    NestedDivision(b / s, h, 256);
  }

  /** A block's fields give its number back, up to the capacity. */
  lemma PositionReadsBack(g: Geo, b: nat)
    requires GoodGeo(g)
    ensures var p := Position(g, b);
            (p.track * g.head + p.head) * g.sect + (p.sector - 1) == b % Capacity(g)
  {
    hide Position, Capacity;
    PositionOfRemainder(g, b);
    var c := b % Capacity(g);
    var side := c / g.sect;
    assert c == g.sect * side + c % g.sect && side == g.head * (side / g.head) + side % g.head;
  }

  /** Two blocks are read from the same place exactly if their numbers differ by a
      multiple of the capacity; below it no two are. */
  lemma SamePosition(g: Geo, a: nat, b: nat)
    requires GoodGeo(g)
    ensures Position(g, a) == Position(g, b) <==> a % Capacity(g) == b % Capacity(g)
  {
    hide Position, Capacity;
    PositionReadsBack(g, a);
    PositionReadsBack(g, b);
    PositionOfRemainder(g, a);
    PositionOfRemainder(g, b);
  }

  // ------------------------------------------------------- requested contents

  /** How many bytes n blocks have. */
  function Size(g: Geo, n: nat): nat {
    n * g.sectSize
  }

  function Block(d: Disc, g: Geo, b: nat): seq<byte>
    requires GoodGeo(g)
  {
    var p := Position(g, b);
    d(p.track, p.head, p.sector)
  }

  function Blocks(d: Disc, g: Geo, b: nat, n: nat): seq<byte>
    requires GoodGeo(g)
  {
    if n == 0 then [] else Blocks(d, g, b, n - 1) + Block(d, g, b + n - 1)
  }

  /** What a READ of n sectors delivers: they follow one another on one side of
      one track. */
  function TrackRead(d: Disc, p: Chs, n: nat): seq<byte>
    requires p.sector + n <= 256
  {
    if n == 0 then [] else TrackRead(d, p, n - 1) + d(p.track, p.head, p.sector + n - 1)
  }

  /** The chunks fdc_read_data reads never leave a track side. */
  predicate OnOneSide(g: Geo, b: nat, n: nat)
    requires GoodGeo(g)
  {
    b % g.sect + n <= g.sect
  }

  lemma {:induction false} ChunkIsTrackRead(d: Disc, g: Geo, b: nat, n: nat)
    requires GoodGeo(g) && OnOneSide(g, b, n)
    ensures Position(g, b).sector + n <= 256
    ensures Blocks(d, g, b, n) == TrackRead(d, Position(g, b), n)
  {
    hide Position;
    PositionBySides(g, b);
    if n > 0 {
      ChunkIsTrackRead(d, g, b, n - 1);
      NextOnSide(g, b, n - 1);
    }
  }

  lemma NextOnSide(g: Geo, b: nat, n: nat)
    requires GoodGeo(g) && b % g.sect + n < g.sect
    ensures Position(g, b + n) == Position(g, b).(sector := b % g.sect + n + 1)
  {
    hide Position;
    PositionBySides(g, b);
    PositionBySides(g, b + n);
    DivideNext(b, g.sect, n);
  }

  lemma DivideNext(x: nat, d: nat, n: nat)
    requires d > 0 && x % d + n < d
    ensures (x + n) / d == x / d && (x + n) % d == x % d + n
  {
    assert x == d * (x / d) + x % d;
    Divide(x + n, d, x / d, x % d + n);
  }

  lemma {:induction false} BlocksLength(d: Disc, g: Geo, b: nat, n: nat)
    requires GoodGeo(g) && GoodDisc(d, g)
    ensures |Blocks(d, g, b, n)| == n * g.sectSize
  {
    if n > 0 {
      BlocksLength(d, g, b, n - 1);
      var p := Position(g, b + n - 1);
      assert |d(p.track, p.head, p.sector)| == g.sectSize;
      assert n * g.sectSize == (n - 1) * g.sectSize + g.sectSize;
    }
  }

  lemma {:induction false} BlocksSplit(d: Disc, g: Geo, b: nat, m: nat, n: nat)
    requires GoodGeo(g)
    ensures Blocks(d, g, b, m + n) == Blocks(d, g, b, m) + Blocks(d, g, b + m, n)
  {
    if n > 0 {
      BlocksSplit(d, g, b, m, n - 1);
      assert Blocks(d, g, b, m) + Blocks(d, g, b + m, n - 1) + Block(d, g, b + m + n - 1) ==
             Blocks(d, g, b, m) + (Blocks(d, g, b + m, n - 1) + Block(d, g, b + m + n - 1));
    } else {
      assert Blocks(d, g, b, m) + [] == Blocks(d, g, b, m);
    }
  }

  // -------------------------------------------------------- the disc in order

  /** One side of a track, the first sides of a track, the first tracks. */
  function Side(d: Disc, g: Geo, t: byte, h: byte): seq<byte>
    requires GoodGeo(g)
  {
    TrackRead(d, Chs(t, h, 1), g.sect)
  }

  function Sides(d: Disc, g: Geo, t: byte, h: nat): seq<byte>
    requires GoodGeo(g) && h <= g.head
  {
    if h == 0 then [] else Sides(d, g, t, h - 1) + Side(d, g, t, h - 1)
  }

  function Tracks(d: Disc, g: Geo, t: nat): seq<byte>
    requires GoodGeo(g) && t <= 256
  {
    if t == 0 then [] else Tracks(d, g, t - 1) + Sides(d, g, t - 1, g.head)
  }

  /** The number of the first block of a side. */
  function SideStart(g: Geo, t: nat, h: nat): nat {
    (t * g.head + h) * g.sect
  }

  lemma SideIsBlocks(d: Disc, g: Geo, t: byte, h: byte)
    requires GoodGeo(g) && h < g.head
    ensures Blocks(d, g, SideStart(g, t, h), g.sect) == Side(d, g, t, h)
  {
    hide Position, Blocks, TrackRead;
    var b := SideStart(g, t, h);
    assert b == g.sect * (t * g.head + h) + 0 && t * g.head + h == g.head * t + h;
    Divide(b, g.sect, t * g.head + h, 0);
    Divide(t * g.head + h, g.head, t, h);
    PositionBySides(g, b);
    ChunkIsTrackRead(d, g, b, g.sect);
  }

  lemma {:induction false} SidesAreBlocks(d: Disc, g: Geo, t: byte, h: nat)
    requires GoodGeo(g) && h <= g.head
    requires Blocks(d, g, 0, SideStart(g, t, 0)) == Tracks(d, g, t)
    ensures Blocks(d, g, 0, SideStart(g, t, h)) == Tracks(d, g, t) + Sides(d, g, t, h)
  {
    hide Blocks, Side, Tracks;
    if h == 0 {
      assert Tracks(d, g, t) + [] == Tracks(d, g, t);
    } else {
      SidesAreBlocks(d, g, t, h - 1);
      SideIsBlocks(d, g, t, h - 1);
      var b := SideStart(g, t, h - 1);
      assert SideStart(g, t, h) == b + g.sect;
      BlocksSplit(d, g, 0, b, g.sect);
      assert Tracks(d, g, t) + Sides(d, g, t, h - 1) + Side(d, g, t, h - 1)
          == Tracks(d, g, t) + (Sides(d, g, t, h - 1) + Side(d, g, t, h - 1));
    }
  }

  /** Reading blocks in order from block 0 is reading the disc sector by sector, side
      by side and track by track. */
  lemma {:induction false} TracksAreBlocks(d: Disc, g: Geo, t: nat)
    requires GoodGeo(g) && t <= 256
    ensures Blocks(d, g, 0, SideStart(g, t, 0)) == Tracks(d, g, t)
  {
    hide Sides, SideStart;
    SideStarts(g, t);
    if t > 0 {
      TracksAreBlocks(d, g, t - 1);
      SidesAreBlocks(d, g, t - 1, g.head);
    }
  }

  lemma SideStarts(g: Geo, t: nat)
    ensures SideStart(g, 0, 0) == 0
    ensures t > 0 ==> SideStart(g, t - 1, g.head) == SideStart(g, t, 0)
  {
    assert (t - 1) * g.head + g.head == t * g.head;
  }

  /** n blocks of the disc from b on, as they follow one another on it. */
  function Stretch(d: Disc, g: Geo, b: nat, n: nat): seq<byte>
    requires GoodGeo(g) && GoodDisc(d, g) && b + n <= Capacity(g)
  {
    WholeDisc(d, g, b, n);
    Tracks(d, g, 256)[Size(g, b)..Size(g, b + n)]
  }

  lemma WholeDisc(d: Disc, g: Geo, b: nat, n: nat)
    requires GoodGeo(g) && GoodDisc(d, g) && b + n <= Capacity(g)
    ensures Tracks(d, g, 256) == Blocks(d, g, 0, Capacity(g))
    ensures Size(g, b) <= Size(g, b + n) <= |Tracks(d, g, 256)|
  {
    hide Blocks, Tracks;
    TracksAreBlocks(d, g, 256);
    assert SideStart(g, 256, 0) == Capacity(g);
    BlocksLength(d, g, 0, Capacity(g));
    assert (b + n) * g.sectSize == b * g.sectSize + n * g.sectSize;
    NonNegative(n, g.sectSize);
    NonNegative(Capacity(g) - (b + n), g.sectSize);
    assert (Capacity(g) - (b + n)) * g.sectSize == Capacity(g) * g.sectSize - (b + n) * g.sectSize;
  }

  /** Within the capacity the requested blocks are that stretch of the disc. */
  lemma BlocksAreStretch(d: Disc, g: Geo, b: nat, n: nat)
    requires GoodGeo(g) && GoodDisc(d, g) && b + n <= Capacity(g)
    ensures Blocks(d, g, b, n) == Stretch(d, g, b, n)
  {
    hide Blocks, Tracks, Capacity;
    WholeDisc(d, g, b, n);
    BlocksSplit(d, g, 0, b + n, Capacity(g) - (b + n));
    BlocksSplit(d, g, 0, b, n);
    BlocksLength(d, g, 0, b);
    BlocksLength(d, g, 0, b + n);
    var head, mid, tail := Blocks(d, g, 0, b), Blocks(d, g, b, n), Blocks(d, g, b + n, Capacity(g) - (b + n));
    assert Tracks(d, g, 256) == head + mid + tail;
    assert (head + mid + tail)[|head|..|head + mid|] == mid;
  }

  // -------------------------------------------------------------- controller

  /** The controller with a drive behind it. It always becomes ready in the end;
      `err(t)` says whether its t-th transfer poll reports an error, `dead(t)`
      whether its t-th command cannot be issued or its seek fails. */
  class Controller {
    const disc: Disc
    const geo: Geo
    const err: nat -> bool
    const dead: nat -> bool
    var polls: nat
    var commands: nat
    ghost var errors: nat
    ghost var failures: nat
    var track: byte
    var head: byte
    var sector: byte

    constructor (disc: Disc, geo: Geo, err: nat -> bool, dead: nat -> bool)
      ensures this.disc == disc && this.geo == geo && errors == 0 && failures == 0
    {
      this.disc, this.geo, this.err, this.dead := disc, geo, err, dead;
      polls, commands, errors, failures := 0, 0, 0, 0;
      track, head, sector := 0, 0, 1;
    }

    /** fdc_issue_cmd: translates the block number and sends the command. */
    method IssueCmd(blnr: nat) returns (ok: bool)
      requires GoodGeo(geo)
      modifies this`commands, this`failures, this`track, this`head, this`sector
      ensures Chs(track, head, sector) == Position(geo, blnr)
      ensures failures == old(failures) + if ok then 0 else 1
    {
      MulPositive(geo.sect, geo.head);
      track := (blnr / (geo.sect * geo.head)) % 256;
      var sect := blnr % (geo.sect * geo.head);
      head := (sect / geo.sect) % 256;
      sector := (sect % geo.sect + 1) % 256;
      ok := !dead(commands);
      commands := commands + 1;
      failures := failures + if ok then 0 else 1;
    }

    /** One byte of a READ of n sectors, or the error phase. */
    method ReadByte(i: nat, n: nat) returns (ok: bool, c: byte)
      requires sector + n <= 256 && i < |TrackRead(disc, Chs(track, head, sector), n)|
      modifies this`polls, this`errors
      ensures ok ==> c == TrackRead(disc, Chs(track, head, sector), n)[i]
      ensures errors == old(errors) + if ok then 0 else 1
    {
      ok := !err(polls);
      polls := polls + 1;
      errors := errors + if ok then 0 else 1;
      c := TrackRead(disc, Chs(track, head, sector), n)[i];
    }

    /** One READ attempt of n sectors into the buffer at `offset`: the for loop of
        fdc_read_data, left early at a transfer error. */
    method Transfer(buffer: array<byte>, offset: nat, blnr: nat, n: nat) returns (ok: bool)
      requires GoodGeo(geo) && GoodDisc(disc, geo) && OnOneSide(geo, blnr, n)
      requires Chs(track, head, sector) == Position(geo, blnr)
      requires offset + n * geo.sectSize <= buffer.Length
      modifies this`polls, this`errors, buffer
      ensures buffer[..offset] == old(buffer[..offset])
      ensures buffer[offset + n * geo.sectSize..] == old(buffer[offset + n * geo.sectSize..])
      ensures ok ==> buffer[offset..offset + n * geo.sectSize] == Blocks(disc, geo, blnr, n)
      ensures errors == old(errors) + if ok then 0 else 1
    {
      hide Position, Blocks, TrackRead;
      ChunkIsTrackRead(disc, geo, blnr, n);
      BlocksLength(disc, geo, blnr, n);
      var len := n * geo.sectSize;
      ghost var data := Blocks(disc, geo, blnr, n);
      for i := 0 to len
        invariant buffer[..offset] == old(buffer[..offset])
        invariant buffer[offset + len..] == old(buffer[offset + len..])
        invariant forall j :: 0 <= j < i ==> buffer[offset + j] == data[j]
        invariant errors == old(errors)
      {
        var c;
        ok, c := ReadByte(i, n);
        if !ok {
          return false;
        }
        buffer[offset + i] := c;
      }
      ok := true;
    }
  }

  /** The transfer errors a call has survived, as its two counters have it:
      retriesrw starts again with every recalibration, and never after a success. */
  function Survived(retriesrw: nat, retriescal: nat): nat {
    retriesrw + (FDC_RW_RETRIES + 2) * retriescal
  }

  /** The chunk at blnr: up to the end of the track side, or all that is left. */
  function ChunkSize(g: Geo, blnr: nat, left: nat): (n: nat)
    requires GoodGeo(g)
    ensures n <= left && OnOneSide(g, blnr, n) && (left > 0 ==> n > 0)
    ensures n < left ==> (blnr + n) % g.sect == 0
  {
    var n := g.sect - blnr % g.sect;
    SideEnds(blnr, g.sect);
    if n > left then left else n
  }

  lemma SideEnds(b: nat, s: nat)
    requires s > 0
    ensures (b + (s - b % s)) % s == 0
  {
    assert b == s * (b / s) + b % s;
    assert s * (b / s) + s == s * (b / s + 1);
    Divide(b + (s - b % s), s, b / s + 1, 0);
  }

  /** The blocks from blnr0 on are in the buffer, up to blnr. */
  ghost predicate Filled(c: Controller, buffer: array<byte>, blnr0: nat, done: nat)
    requires GoodGeo(c.geo)
    reads buffer
  {
    && Size(c.geo, done) <= buffer.Length
    && buffer[..Size(c.geo, done)] == Blocks(c.disc, c.geo, blnr0, done)
  }

  lemma ChunkFits(g: Geo, done: nat, n: nat, blocks: nat)
    requires done + n <= blocks
    ensures Size(g, done) + g.sectSize * n == Size(g, done) + n * g.sectSize == Size(g, done + n) <= Size(g, blocks)
  {
    assert (blocks - (done + n)) * g.sectSize == blocks * g.sectSize - (done + n) * g.sectSize;
    NonNegative(blocks - (done + n), g.sectSize);
  }

  /** One READ attempt at the next chunk. */
  method ReadChunk(c: Controller, buffer: array<byte>, ghost blnr0: nat, blnr: nat, offset: nat, n: nat,
                   ghost blocks: nat)
    returns (issued: bool, ok: bool)
    requires GoodGeo(c.geo) && GoodDisc(c.disc, c.geo) && OnOneSide(c.geo, blnr, n)
    requires blnr0 <= blnr && blnr - blnr0 + n <= blocks && Size(c.geo, blocks) <= buffer.Length
    requires offset == Size(c.geo, blnr - blnr0) && Filled(c, buffer, blnr0, blnr - blnr0)
    modifies c, buffer
    ensures Filled(c, buffer, blnr0, blnr - blnr0) && (ok ==> Filled(c, buffer, blnr0, blnr - blnr0 + n))
    ensures buffer[Size(c.geo, blocks)..] == old(buffer[Size(c.geo, blocks)..])
    ensures c.failures == old(c.failures) + (if issued then 0 else 1)
    ensures c.errors == old(c.errors) + (if issued && !ok then 1 else 0)
    ensures !issued ==> !ok
  {
    hide Blocks, Position, TrackRead, Size;
    issued := c.IssueCmd(blnr);
    if !issued {
      return false, false;
    }
    ChunkFits(c.geo, blnr - blnr0, n, blocks);
    ok := c.Transfer(buffer, offset, blnr, n);
    ghost var end, all := Size(c.geo, blnr - blnr0 + n), Size(c.geo, blocks);
    assert buffer[all..] == buffer[end..][all - end..];
    assert old(buffer[all..]) == old(buffer[end..])[all - end..];
    if ok {
      BlocksSplit(c.disc, c.geo, blnr0, blnr - blnr0, n);
      assert buffer[..end] == buffer[..offset] + buffer[offset..end];
    }
  }

  /** Where fdc_read_data goes on after a transfer error. */
  datatype Next = ReadAgain | SeekAgain | GiveUp

  predicate WithinBudget(retriesrw: nat, retriescal: nat) {
    retriesrw <= FDC_RW_RETRIES + 1 && retriescal <= FDC_CAL_RETRIES + 1
  }

  /** The error branch: try again, recalibrate, or give up. One more error is
      survived unless the call gives up, alive only at the fatal one. */
  method AfterError(c: Controller, blnr: nat, rw: nat, cal: nat) returns (next: Next, retriesrw: nat, retriescal: nat)
    requires GoodGeo(c.geo) && WithinBudget(rw, cal)
    modifies c
    ensures c.errors == old(c.errors)
    ensures !next.GiveUp? ==> Survived(retriesrw, retriescal) == Survived(rw, cal) + 1
    ensures !next.GiveUp? ==> WithinBudget(retriesrw, retriescal)
    ensures !next.GiveUp? ==> c.failures == old(c.failures)
    ensures next.GiveUp? && c.failures == old(c.failures) ==> Survived(rw, cal) + 1 == FATAL_ERROR
    ensures !next.GiveUp? ==> retriescal > cal || (retriescal == cal && retriesrw > rw)
  {
    retriesrw, retriescal := rw + 1, cal;
    if rw <= FDC_RW_RETRIES {
      return ReadAgain, retriesrw, retriescal;
    }
    retriescal := cal + 1;
    if cal > FDC_CAL_RETRIES {
      return GiveUp, retriesrw, retriescal;
    }
    var ok := c.IssueCmd(blnr);
    if !ok {
      return GiveUp, retriesrw, retriescal;
    }
    next, retriesrw := SeekAgain, 0;
  }

  /** fdc_read_data. It returns TRUE only with exactly the requested blocks in the
      buffer, whatever errors occurred, which within the capacity are the requested
      stretch of the disc; without a dead controller it returns FALSE only at the
      transfer error that is one too many. */
  method FdcReadData(c: Controller, buffer: array<byte>, blnr0: nat, blocks: nat) returns (ok: bool)
    requires GoodGeo(c.geo) && GoodDisc(c.disc, c.geo) && Size(c.geo, blocks) <= buffer.Length
    modifies c, buffer
    ensures ok ==> buffer[..Size(c.geo, blocks)] == Blocks(c.disc, c.geo, blnr0, blocks)
    ensures ok && blnr0 + blocks <= Capacity(c.geo) ==>
      buffer[..Size(c.geo, blocks)] == Stretch(c.disc, c.geo, blnr0, blocks)
    ensures buffer[Size(c.geo, blocks)..] == old(buffer[Size(c.geo, blocks)..])
    ensures c.failures == old(c.failures) ==> (ok <==> c.errors - old(c.errors) < FATAL_ERROR)
    ensures c.failures != old(c.failures) ==> !ok
    ensures c.errors - old(c.errors) <= FATAL_ERROR
  {
    hide Blocks, Position, TrackRead, ChunkSize, OnOneSide, Filled, Size, Capacity, Stretch;
    NothingRead(c, buffer, blnr0);
    var blnr, left: nat, offset := blnr0, blocks, 0;
    var retriesrw, retriescal := 0, 0;
    ok := c.IssueCmd(blnr);
    if !ok {
      return;
    }
    FirstChunk(c.geo, blnr, left);
    var readblk := c.geo.sect - blnr % c.geo.sect;
    if readblk > left {
      readblk := left;
    }
    while true
      invariant blnr0 <= blnr && blnr - blnr0 + left == blocks && offset == Size(c.geo, blnr - blnr0)
      invariant Filled(c, buffer, blnr0, blnr - blnr0) && readblk == ChunkSize(c.geo, blnr, left)
      invariant buffer[Size(c.geo, blocks)..] == old(buffer[Size(c.geo, blocks)..])
      invariant c.failures == old(c.failures)
      invariant c.errors - old(c.errors) == Survived(retriesrw, retriescal)
      invariant WithinBudget(retriesrw, retriescal)
      decreases FDC_CAL_RETRIES + 1 - retriescal, FDC_RW_RETRIES + 1 - retriesrw, left
    {
      var issued, good := ReadChunk(c, buffer, blnr0, blnr, offset, readblk, blocks);
      if !issued {
        return false;
      }
      if good {
        NextChunk(c.geo, blnr, left);
        ChunkFits(c.geo, blnr - blnr0, readblk, blocks);
        offset, blnr, left := offset + c.geo.sectSize * readblk, blnr + readblk, left - readblk;
        if left == 0 {
          break;
        }
        readblk := c.geo.sect;
        if readblk > left {
          readblk := left;
        }
      } else {
        var next;
        next, retriesrw, retriescal := AfterError(c, blnr, retriesrw, retriescal);
        if next.GiveUp? {
          return false;
        } else if next.ReadAgain? {
          continue;
        }
      }
      ok := c.IssueCmd(blnr);
      if !ok {
        return;
      }
    }
    AllRead(c, buffer, blnr0, blocks);
    if blnr0 + blocks <= Capacity(c.geo) {
      BlocksAreStretch(c.disc, c.geo, blnr0, blocks);
    }
    ok := true;
  }

  lemma AllRead(c: Controller, buffer: array<byte>, blnr0: nat, blocks: nat)
    requires GoodGeo(c.geo) && Filled(c, buffer, blnr0, blocks)
    ensures Size(c.geo, blocks) <= buffer.Length
    ensures buffer[..Size(c.geo, blocks)] == Blocks(c.disc, c.geo, blnr0, blocks)
  {}

  lemma NothingRead(c: Controller, buffer: array<byte>, blnr0: nat)
    requires GoodGeo(c.geo)
    ensures Filled(c, buffer, blnr0, 0) && Size(c.geo, 0) == 0
  {
    assert buffer[..0] == [];
  }

  lemma FirstChunk(g: Geo, blnr: nat, left: nat)
    requires GoodGeo(g)
    ensures ChunkSize(g, blnr, left) == (if g.sect - blnr % g.sect > left then left else g.sect - blnr % g.sect)
  {}

  /** After a first chunk, tracks are read whole. */
  lemma NextChunk(g: Geo, blnr: nat, left: nat)
    requires GoodGeo(g)
    ensures var n := ChunkSize(g, blnr, left);
            && n <= left && (left > 0 ==> n > 0)
            && (n < left ==> ChunkSize(g, blnr + n, left - n) == if g.sect > left - n then left - n else g.sect)
  {}
}
