/** The S-record download of common/cmd_load.c, and what an upload loads as. */
module SRecordLoad {
  import opened Octets
  import opened CText
  import opened SRecord

  // ----------------------------------------------------------- read_record

  const SREC_MAXRECLEN: nat := 516

  /** Hangup: a NUL, a ^C, or no more input. */
  datatype Line = Line(text: string, rest: string) | Hangup

  /** A line with room for `room` more characters: a longer one is cut there, and
      what is left of it is read as the next line. */
  function ReadLine(input: string, room: nat): (l: Line)
    ensures l.Line? ==> |l.rest| <= |input| && (room > 0 ==> |l.rest| < |input|)
    ensures l.Line? ==> '\0' !in l.text
  {
    if room == 0 then Line("", input)
    else if input == "" || input[0] == '\0' || input[0] == 3 as char then Hangup
    else if input[0] == '\r' || input[0] == '\n' then Line("", input[1..])
    else match ReadLine(input[1..], room - 1)
      case Hangup => Hangup
      case Line(text, rest) => Line([input[0]] + text, rest)
  }

  /** read_record. */
  method ReadRecord(input: string) returns (l: Line)
    ensures l == ReadLine(input, SREC_MAXRECLEN)
  {
    var buf, p := "", input;
    ghost var room := SREC_MAXRECLEN;
    while |buf| < SREC_MAXRECLEN
      invariant |buf| <= SREC_MAXRECLEN && room == SREC_MAXRECLEN - |buf|
      invariant ReadLine(input, SREC_MAXRECLEN) == Behind(buf, ReadLine(p, room))
    {
      if p == "" || p[0] == '\0' || p[0] == 3 as char {
        return Hangup;
      }
      var c := p[0];
      p := p[1..];
      if c == '\r' || c == '\n' {
        assert buf + "" == buf;
        return Line(buf, p);
      }
      Deeper(buf, c, ReadLine(p, room - 1));
      buf := buf + [c];
      room := room - 1;
    }
    assert buf + "" == buf;
    l := Line(buf, p);
  }

  function Behind(buf: string, l: Line): Line {
    match l case Hangup => Hangup case Line(text, rest) => Line(buf + text, rest)
  }

  lemma Deeper(buf: string, c: char, l: Line)
    ensures Behind(buf, Behind([c], l)) == Behind(buf + [c], l)
  {
    if l.Line? {
      assert buf + ([c] + l.text) == buf + [c] + l.text;
    }
  }

  predicate Plain(line: string) {
    forall i :: 0 <= i < |line| ==> line[i] !in {'\0', 3 as char, '\r', '\n'}
  }

  lemma {:induction false} LineIsRead(line: string, rest: string, room: nat)
    requires Plain(line) && |line| < room
    ensures ReadLine(line + "\n" + rest, room) == Line(line, rest)
  {
    if line == "" {
      assert ("" + "\n" + rest)[1..] == rest;
    } else {
      assert (line + "\n" + rest)[1..] == line[1..] + "\n" + rest;
      LineIsRead(line[1..], rest, room - 1);
    }
  }

  // ----------------------------------------------------------- load_serial

  /** ram after bytes are copied to an address; addresses wrap. */
  function Written(ram: seq<byte>, address: u32, bs: seq<byte>): (r: seq<byte>)
    ensures |r| == |ram|
    ensures forall i :: 0 <= i < |r| ==> r[i] == if U32(i - address) < |bs| then bs[U32(i - address)] else ram[i]
  {
    seq(|ram|, i requires 0 <= i < |ram| => if U32(i - address) < |bs| then bs[U32(i - address)] else ram[i])
  }

  /** The memory and the lowest and highest address loaded. */
  datatype Loader = Loader(ram: seq<byte>, first: u32, last: u32)

  const NONE: u32 := TWO32 - 1

  function Stored(l: Loader, address: u32, bs: seq<byte>): Loader {
    Loader(Written(l.ram, address, bs), Min(l.first, address), Max(l.last, U32(address + |bs| - 1)))
  }

  function Max(a: u32, b: u32): u32 {
    if b > a then b else a
  }

  /** Undefined: a data record's count byte did not cover its address, for which
      the source calls memcpy with a negative length. */
  datatype Ending = Aborted | Undefined | Done(entry: u32)

  function Load(l: Loader, input: string, offset: u32): (Loader, Ending)
    decreases |input|
  {
    match ReadLine(input, SREC_MAXRECLEN)
    case Hangup => (l, Aborted)
    case Line(text, rest) =>
      match Decode(text)
      case Empty => Load(l, rest, offset)
      case Record(Data(_), count, addr, data) =>
        if count < 0 then (l, Undefined) else Load(Stored(l, U32(addr + offset), data), rest, offset)
      case Record(End(_), _, addr, _) => (l, Done(addr))
      case Record(_, _, _, _) => Load(l, rest, offset)
      case _ => (l, Aborted)
  }

  /** load_serial, with the figures it reports at an end record. */
  method LoadSerial(ram: array<byte>, input: string, offset: u32)
    returns (ending: Ending, first: u32, last: u32, size: u32)
    requires ram.Length == TWO32
    modifies ram
    ensures (Loader(ram[..], first, last), ending) == Load(Loader(old(ram[..]), NONE, 0), input, offset)
    ensures ending.Done? ==> size == Size(first, last)
  {
    hide Written, Decode, ReadLine;
    first, last, size := NONE, 0, 0;
    var p := input;
    while true
      invariant Load(Loader(old(ram[..]), NONE, 0), input, offset) == Load(Loader(ram[..], first, last), p, offset)
      decreases |p|
    {
      var line := ReadRecord(p);
      if line.Hangup? {
        ending := Aborted;
        return;
      }
      p := line.rest;
      var r := SrecDecode(line.text);
      match r
      case Record(Data(_), count, addr, data) =>
        if count < 0 {
          ending := Undefined;
          return;
        }
        var store := U32(addr + offset);
        MemCpy(ram, store, data);
        if store < first {
          first := store;
        }
        if U32(store + |data| - 1) > last {
          last := U32(store + |data| - 1);
        }
      case Record(End(_), _, addr, _) =>
        ending, size := Done(addr), Size(first, last);
        return;
      case Record(_, _, _, _) =>
      case Empty =>
      case _ =>
        ending := Aborted;
        return;
    }
  }

  function Size(first: u32, last: u32): u32 {
    U32(last - first + 1)
  }

  method MemCpy(ram: array<byte>, address: u32, data: seq<byte>)
    requires ram.Length == TWO32 && |data| < TWO32
    modifies ram
    ensures ram[..] == Written(old(ram[..]), address, data)
  {
    WrittenNothing(ram[..], address);
    for i := 0 to |data|
      invariant ram[..] == Written(old(ram[..]), address, data[..i])
    {
      WrittenMore(old(ram[..]), address, data, i);
      ram[U32(address + i)] := data[i];
    }
    assert data[..|data|] == data;
  }

  // --------------------------------------------------- upload, then download

  lemma WrittenNothing(ram: seq<byte>, address: u32)
    ensures Written(ram, address, []) == ram
  {}

  /** Below 2^32 bytes, every byte has a cell of its own. */
  lemma CellOf(address: u32, i: nat)
    requires i < TWO32
    ensures U32(U32(address + i) - address) == i
  {
    Wraps(address + i, -(address as int));
  }

  lemma OffsetOf(address: u32, j: u32)
    ensures U32(address + U32(j - address)) == j
  {
    Wraps(j - address, address);
  }

  lemma WrittenMore(ram: seq<byte>, address: u32, bs: seq<byte>, i: nat)
    requires |ram| == TWO32 && i < |bs| < TWO32
    ensures Written(ram, address, bs[..i + 1]) == Written(ram, address, bs[..i])[U32(address + i) := bs[i]]
  {
    var more, one := Written(ram, address, bs[..i + 1]), Written(ram, address, bs[..i])[U32(address + i) := bs[i]];
    forall j | 0 <= j < TWO32 ensures more[j] == one[j] {
      CellOf(address, i);
      OffsetOf(address, j);
    }
  }

  /** Two copies one behind the other are one copy, as long as they do not overlap. */
  lemma WrittenTwice(ram: seq<byte>, address: u32, a: seq<byte>, b: seq<byte>)
    requires |ram| == TWO32 && |a| + |b| < TWO32
    ensures Written(Written(ram, address, a), U32(address + |a|), b) == Written(ram, address, a + b)
  {
    hide U32;
    var twice, once := Written(Written(ram, address, a), U32(address + |a|), b), Written(ram, address, a + b);
    forall j | 0 <= j < TWO32 ensures twice[j] == once[j] {
      WrittenCell(address, |a|, |b|, j);
    }
  }

  /** Which of two neighbouring copies a cell belongs to. */
  lemma WrittenCell(address: u32, n: nat, m: nat, j: u32)
    requires n + m < TWO32
    ensures U32(j - U32(address + n)) < m <==> n <= U32(j - address) < n + m
    ensures U32(j - address) >= n ==> U32(j - U32(address + n)) == U32(j - address) - n
  {
    hide U32;
    var d := U32(j - address);
    OffsetOf(address, j);
    Wraps(address + n, if d >= n then d - n else TWO32 + d - n);
    if d >= n {
      CellOf(U32(address + n), d - n);
    } else {
      Turns(address + d, 1);
      CellOf(U32(address + n), TWO32 + d - n);
    }
  }

  /** What the records of the saved bytes do to a loader. */
  function Extended(l: Loader, address: u32, bs: seq<byte>): Loader
    decreases |bs|
  {
    if bs == [] then l else
      var n := if |bs| <= SREC_BYTES_PER_RECORD then |bs| else SREC_BYTES_PER_RECORD;
      Extended(Stored(l, address, bs[..n]), U32(address + n), bs[n..])
  }

  lemma {:induction false} ExtendedRam(l: Loader, address: u32, bs: seq<byte>)
    requires |l.ram| == TWO32 && |bs| < TWO32
    ensures Extended(l, address, bs).ram == Written(l.ram, address, bs)
    decreases |bs|
  {
    hide Written;
    if bs == [] {
      WrittenNothing(l.ram, address);
    } else {
      var n := if |bs| <= SREC_BYTES_PER_RECORD then |bs| else SREC_BYTES_PER_RECORD;
      ExtendedRam(Stored(l, address, bs[..n]), U32(address + n), bs[n..]);
      WrittenTwice(l.ram, address, bs[..n], bs[n..]);
      assert bs[..n] + bs[n..] == bs;
    }
  }

  lemma {:induction false} RecordsLoad(l: Loader, address: u32, bs: seq<byte>, offset: u32, rest: string)
    ensures Load(l, DataRecords(address, bs) + rest, offset)
         == Load(Extended(l, U32(address + offset), bs), rest, offset)
    decreases |bs|
  {
    hide DataRecord, Stored, Load;
    if bs == [] {
      assert "" + rest == rest;
    } else {
      var n := if |bs| <= SREC_BYTES_PER_RECORD then |bs| else SREC_BYTES_PER_RECORD;
      var more := DataRecords(U32(address + n), bs[n..]);
      assert DataRecords(address, bs) + rest == DataRecord(address, bs[..n]) + (more + rest);
      RecordLoads(l, address, bs[..n], offset, more + rest);
      Wraps(address + n, offset);
      Wraps(address + offset, n);
      RecordsLoad(Stored(l, U32(address + offset), bs[..n]), U32(address + n), bs[n..], offset, rest);
    }
  }

  lemma RecordLoads(l: Loader, address: u32, bs: seq<byte>, offset: u32, rest: string)
    requires |bs| <= SREC_BYTES_PER_RECORD
    ensures Load(l, DataRecord(address, bs) + rest, offset) == Load(Stored(l, U32(address + offset), bs), rest, offset)
  {
    hide Hex, Fields, Decode, Stored, ReadLine;
    var line := "S3" + Hex(Fields(address, bs));
    RecordIsPlain(address, bs);
    LineIsRead(line, rest, SREC_MAXRECLEN);
    RecordReadsBack(address, bs);
  }

  lemma RecordIsPlain(address: u32, bs: seq<byte>)
    requires |bs| <= SREC_BYTES_PER_RECORD
    ensures Plain("S3" + Hex(Fields(address, bs))) && |"S3" + Hex(Fields(address, bs))| < SREC_MAXRECLEN
  {
    hide Hex;
    HexIsPlain(Fields(address, bs));
  }

  /** The header is skipped; the trailer ends the download with entry 0. */
  lemma FrameLoads(l: Loader, rest: string, offset: u32)
    ensures Load(l, HEADER + rest, offset) == Load(l, rest, offset)
    ensures Load(l, TRAILER + rest, offset) == (l, Done(0))
  {
    hide ReadLine, Decode;
    assert HEADER == "S0030000FC" + "\n" && TRAILER == "S70500000000FA" + "\n";
    LineIsRead("S0030000FC", rest, SREC_MAXRECLEN);
    LineIsRead("S70500000000FA", rest, SREC_MAXRECLEN);
    HeaderReadsBack();
    TrailerReadsBack();
  }

  /** Downloading what save_serial uploaded puts the saved bytes, and nothing else,
      at the same addresses (shifted by the offset), even if the region wraps. */
  lemma SavedRegionLoads(l: Loader, ram: seq<byte>, address: u32, count: u32, offset: u32, rest: string)
    requires |ram| == |l.ram| == TWO32
    ensures var bs := Region(ram, address, count);
            var r := Load(l, SaveText(address, bs) + rest, offset);
            r.1 == Done(0) && r.0 == Extended(l, U32(address + offset), bs)
              && r.0.ram == Written(l.ram, U32(address + offset), bs)
  {
    hide Load, DataRecords, Region, Extended, Written;
    var bs := Region(ram, address, count);
    assert SaveText(address, bs) + rest == HEADER + (DataRecords(address, bs) + (TRAILER + rest));
    FrameLoads(l, DataRecords(address, bs) + (TRAILER + rest), offset);
    RecordsLoad(l, address, bs, offset, TRAILER + rest);
    FrameLoads(Extended(l, U32(address + offset), bs), rest, offset);
    ExtendedRam(l, U32(address + offset), bs);
  }

  // ------------------------------------------------------ reported figures

  /** The figures of the loader after the first record of bs. */
  lemma FirstRecord(l: Loader, address: u32, bs: seq<byte>)
    requires bs != []
    ensures var n := if |bs| <= SREC_BYTES_PER_RECORD then |bs| else SREC_BYTES_PER_RECORD;
            var l' := Stored(l, address, bs[..n]);
            && Extended(l, address, bs) == Extended(l', U32(address + n), bs[n..])
            && l'.first == Min(l.first, address) && l'.last == Max(l.last, U32(address + n - 1))
    ensures |bs| <= SREC_BYTES_PER_RECORD ==>
      Extended(l, address, bs).first == Min(l.first, address)
      && Extended(l, address, bs).last == Max(l.last, U32(address + |bs| - 1))
  {
    hide Written;
  }

  lemma Small(x: nat)
    ensures x < TWO32 ==> U32(x) == x
    ensures TWO32 <= x < 2 * TWO32 ==> U32(x) == x - TWO32
  {}

  /** Without wrap-around the extent of the records is that of the region. */
  lemma {:induction false} PlainExtent(l: Loader, address: u32, bs: seq<byte>)
    requires bs != [] && address + |bs| <= TWO32
    ensures var r := Extended(l, address, bs);
            r.first == Min(l.first, address) && r.last == Max(l.last, address + |bs| - 1)
    decreases |bs|
  {
    hide Extended, Stored, U32;
    var n := SREC_BYTES_PER_RECORD;
    FirstRecord(l, address, bs);
    if |bs| <= n {
      Small(address + |bs| - 1);
    } else {
      Small(address + n - 1);
      Small(address + n);
      PlainExtent(Stored(l, address, bs[..n]), address + n, bs[n..]);
    }
  }

  lemma {:induction false} ExtentGrows(l: Loader, address: u32, bs: seq<byte>)
    ensures var r := Extended(l, address, bs);
            r.first <= l.first && l.last <= r.last && (bs != [] ==> r.first <= address)
    decreases |bs|
  {
    hide Stored;
    if bs != [] {
      var n := if |bs| <= SREC_BYTES_PER_RECORD then |bs| else SREC_BYTES_PER_RECORD;
      FirstRecord(l, address, bs);
      ExtentGrows(Stored(l, address, bs[..n]), U32(address + n), bs[n..]);
    }
  }

  /** Records that run over the end of memory behind a first one that does not
      spoil one of the two figures. */
  lemma {:induction false} WrappedExtent(l: Loader, first: u32, address: u32, bs: seq<byte>)
    requires bs != [] && first < address && TWO32 < address + |bs| < first + TWO32
    requires SREC_BYTES_PER_RECORD <= address <= l.last + 1
    ensures var r := Extended(l, address, bs);
            r.first < first || r.last > U32(address + |bs| - 1)
    decreases |bs|, 0
  {
    hide Extended, Stored, U32;
    var n := SREC_BYTES_PER_RECORD;
    FirstRecord(l, address, bs);
    Small(address + |bs| - 1);
    if |bs| > n {
      Small(address + n - 1);
      Small(address + n);
      WrappedRest(Stored(l, address, bs[..n]), first, address + n, bs[n..]);
    }
  }

  /** Either the next record is over the end, and below the first, or it goes on. */
  lemma {:induction false} WrappedRest(l: Loader, first: u32, next: nat, bs: seq<byte>)
    requires bs != [] && first < next < next + |bs| < first + TWO32 && TWO32 < next + |bs|
    requires SREC_BYTES_PER_RECORD <= next && (next < TWO32 ==> next <= l.last + 1)
    ensures var r := Extended(l, U32(next), bs);
            r.first < first || r.last > U32(next + |bs| - 1)
    decreases |bs|, 1
  {
    hide Extended, U32;
    Small(next);
    if next < TWO32 {
      WrappedExtent(l, first, next, bs);
    } else {
      ExtentGrows(l, U32(next), bs);
    }
  }

  /** The first address, last address and size that load_serial reports for a saved
      region are those of the region exactly if the region is not empty and either
      does not run over the end of memory or is a single record. */
  lemma ReportedFigures(ram: seq<byte>, address: u32, bs: seq<byte>)
    requires |bs| < TWO32
    ensures var r := Extended(Loader(ram, NONE, 0), address, bs);
            (r.first == address && r.last == U32(address + |bs| - 1) && Size(r.first, r.last) == |bs|)
              <==> bs != [] && (address + |bs| <= TWO32 || |bs| <= SREC_BYTES_PER_RECORD)
  {
    hide Written, Stored, U32, Size;
    var l, n := Loader(ram, NONE, 0), SREC_BYTES_PER_RECORD;
    if bs == [] {
      Small(address);
      EmptyFigures(address);
    } else {
      SizeOf(address, |bs|);
      FirstRecord(l, address, bs);
      if address + |bs| <= TWO32 {
        Small(address + |bs| - 1);
        PlainExtent(l, address, bs);
      } else if |bs| > n {
        Small(address + n - 1);
        WrappedRest(Stored(l, address, bs[..n]), address, address + n, bs[n..]);
      }
    }
  }

  lemma EmptyFigures(address: u32)
    ensures !(NONE == address && 0 == U32(address - 1))
  {}

  lemma SizeOf(address: u32, n: nat)
    requires 0 < n < TWO32
    ensures Size(address, U32(address + n - 1)) == n
  {
    CellOf(address, n - 1);
    Wraps(U32(address + n - 1) - address, 1);
  }

  /** An empty upload loads nothing, yet is reported as two bytes. */
  lemma EmptyUploadReportsTwoBytes(ram: seq<byte>, address: u32)
    ensures var r := Extended(Loader(ram, NONE, 0), address, []);
            r.ram == ram && Size(r.first, r.last) == 2
  {}
}
