/** Motorola S-records: the decoder of common/s_record.c and the upload of
    save_serial (common/cmd_load.c). */
module SRecord {
  import opened Octets
  import opened CText

  lemma SumOfOne(b: byte)
    ensures Sum([b]) == b
  {}

  // ------------------------------------------------------------ hex digits

  function HexByte(b: byte): (s: string)
    ensures |s| == 2
  {
    ["0123456789ABCDEF"[b / 16], "0123456789ABCDEF"[b % 16]]
  }

  function Hex(bs: seq<byte>): (s: string)
    ensures |s| == 2 * |bs|
  {
    if bs == [] then "" else HexByte(bs[0]) + Hex(bs[1..])
  }

  lemma {:induction false} HexOfConcat(a: seq<byte>, b: seq<byte>)
    ensures Hex(a + b) == Hex(a) + Hex(b)
  {
    if a == [] {
      assert a + b == b;
    } else {
      assert (a + b)[1..] == a[1..] + b;
      HexOfConcat(a[1..], b);
    }
  }

  lemma {:induction false} HexIsPlain(bs: seq<byte>)
    ensures forall i :: 0 <= i < |Hex(bs)| ==> IsXDigit(Hex(bs)[i])
  {
    if bs != [] {
      HexIsPlain(bs[1..]);
    }
  }

  function Hex1Bin(c: char): int {
    if IsXDigit(c) then DigitValue(c) else -1
  }

  function Hex2Bin(s: string): (v: int)
    ensures -1 <= v < 256
    ensures v >= 0 ==> |s| >= 2
  {
    if Hex1Bin(At(s)) < 0 || Hex1Bin(At(s[1..])) < 0 then -1 else 16 * Hex1Bin(At(s)) + Hex1Bin(At(s[1..]))
  }

  /** The first n pairs of hex digits. */
  function Pairs(s: string, n: nat): (r: Option<seq<byte>>)
    ensures r.Some? ==> |r.value| == n && |s| >= 2 * n
  {
    if n == 0 then Some([])
    else if Hex2Bin(s) < 0 then None
    else match Pairs(s[2..], n - 1)
      case None => None
      case Some(bs) => Some([Hex2Bin(s)] + bs)
  }

  lemma HexByteReads(b: byte, rest: string)
    ensures Hex2Bin(HexByte(b) + rest) == b
  {
    HexDigitReads(b / 16);
    HexDigitReads(b % 16);
    assert (HexByte(b) + rest)[1..] == [HexByte(b)[1]] + rest;
  }

  lemma HexDigitReads(v: nat)
    requires v < 16
    ensures Hex1Bin("0123456789ABCDEF"[v]) == v
  {}

  lemma {:induction false} PairsOfHex(bs: seq<byte>)
    ensures Pairs(Hex(bs), |bs|) == Some(bs)
  {
    hide HexByte, Hex2Bin, Pairs;
    if bs == [] {
      PairsOfNone();
    } else {
      PairsOfHex(bs[1..]);
      PairsOfMore(bs[0], Hex(bs[1..]), bs[1..]);
      assert bs == [bs[0]] + bs[1..];
    }
  }

  lemma PairsOfNone()
    ensures Pairs("", 0) == Some([])
  {}

  lemma PairsOfMore(b: byte, rest: string, bs: seq<byte>)
    requires Pairs(rest, |bs|) == Some(bs)
    ensures Pairs(HexByte(b) + rest, 1 + |bs|) == Some([b] + bs)
  {
    hide HexByte, Hex2Bin;
    HexByteReads(b, rest);
    assert (HexByte(b) + rest)[2..] == rest;
  }

  /** One more pair is missing, and with it every longer field, or it is appended. */
  lemma {:induction false} NextPair(s: string, read: seq<byte>)
    requires Pairs(s, |read|) == Some(read)
    ensures var v := Hex2Bin(s[2 * |read|..]);
            if v < 0 then forall n :: n > |read| ==> Pairs(s, n) == None
            else Pairs(s, |read| + 1) == Some(read + [v])
    decreases |read|
  {
    var v := Hex2Bin(s[2 * |read|..]);
    if read == [] {
      assert s[0..] == s;
      assert [v] + [] == [] + [v];
    } else {
      assert s[2..][2 * |read[1..]|..] == s[2 * |read|..];
      NextPair(s[2..], read[1..]);
      if v < 0 {
        forall n | n > |read| ensures Pairs(s, n) == None {
          assert Pairs(s[2..], n - 1) == None;
        }
      } else {
        assert read + [v] == [read[0]] + (read[1..] + [v]);
      }
    }
  }

  // --------------------------------------------------------------- records

  datatype Kind = Start | Data(width: nat) | Count | End(width: nat)

  datatype Decoded =
    | Empty
    | BadType
    | NoRecord
    | BadCheck
    | Record(kind: Kind, count: int, addr: u32, data: seq<byte>)

  /** The size of the address field, 0 for an unknown type. */
  function Width(typ: char): nat {
    if typ == '3' || typ == '7' then 4 else if typ == '2' || typ == '8' then 3
    else if typ == '0' || typ == '1' || typ == '5' || typ == '9' then 2 else 0
  }

  function KindOf(typ: char): Kind
    requires Width(typ) > 0
  {
    if typ == '0' then Start else if typ == '5' then Count
    else if typ <= '3' then Data(Width(typ)) else End(Width(typ))
  }

  /** How many data bytes there are when the count byte is n: fewer than none if
      n does not even cover the address and the check byte. */
  function DataCount(typ: char, n: nat): int {
    if typ == '5' then 0 else n - Width(typ) - 1
  }

  function Positive(n: int): nat {
    if n > 0 then n else 0
  }

  function BigEndian(bs: seq<byte>): nat {
    if bs == [] then 0 else 256 * BigEndian(bs[..|bs| - 1]) + bs[|bs| - 1]
  }

  /** What a line says: count, address, data and check bytes, which must sum to
      0xFF modulo 256. */
  function Decode(line: string): (r: Decoded)
    ensures r.Record? ==> |r.data| == Positive(r.count) < 256
  {
    var k := IndexOf(line, 'S');
    if k + 1 >= |line| then Empty else DecodeFields(line[k + 1], line[k + 2..])
  }

  function DecodeFields(typ: char, s: string): (r: Decoded)
    ensures r.Record? ==> |r.data| == Positive(r.count) < 256
  {
    var n := Hex2Bin(s);
    if n < 0 then NoRecord
    else if Width(typ) == 0 then BadType
    else
      var w, d := Width(typ), Positive(DataCount(typ, n));
      match Pairs(s, 1 + w + d + 1)
      case None => NoRecord
      case Some(bs) =>
        if Sum(bs) % 256 != 255 then BadCheck
        else Record(KindOf(typ), DataCount(typ, n), U32(BigEndian(bs[1..1 + w])), bs[1 + w..1 + w + d])
  }

  /** srec_decode. */
  method SrecDecode(input: string) returns (r: Decoded)
    ensures r == Decode(input)
  {
    var p := input;
    while p != "" && p[0] != 'S'
      invariant |p| <= |input| && p == input[|input| - |p|..]
      invariant IndexOf(input, 'S') == |input| - |p| + IndexOf(p, 'S')
      decreases |p|
    {
      p := p[1..];
    }
    if |p| < 2 {
      return Empty;
    }
    assert p[1] == input[IndexOf(input, 'S') + 1] && p[2..] == input[IndexOf(input, 'S') + 2..];
    r := ReadFields(p[1], p[2..]);
  }

  /** srec_decode behind the record type. */
  method ReadFields(typ: char, s: string) returns (r: Decoded)
    ensures r == DecodeFields(typ, s)
  {
    hide BigEndian, Sum, Pairs, Hex2Bin, Width, KindOf, DataCount, Taken;
    WidthIsSmall(typ);
    var p, v, chksum, addr := s, 0, 0, 0;
    ghost var read: seq<byte> := [];
    NoPairs(s);
    r := NoRecord;
    v, p, chksum, read := TakePair(s, p, chksum, read);
    if v < 0 {
      return;
    }
    if Width(typ) == 0 {
      return BadType;
    }
    var count := DataCount(typ, v);
    assert v == Hex2Bin(s) && |read| == 1;
    addr, p, chksum, v, read := ReadAddress(s, p, Width(typ), chksum, read);
    if v < 0 {
      return;
    }
    ghost var head := 1 + Width(typ);
    assert |read| == head && read[1..] == read[1..head];
    var data;
    data, p, chksum, v, read := ReadData(s, p, count, chksum, read);
    if v < 0 {
      return;
    }
    ghost var was := read;
    v, p, chksum, read := TakePair(s, p, chksum, read);
    if v < 0 {
      return;
    }
    Checked(s, p, chksum, read);
    assert read[1..head] == was[..head][1..] && read[head..head + |data|] == was[head..];
    r := if chksum != 255 then BadCheck else Record(KindOf(typ), count, addr, data);
  }

  lemma WidthIsSmall(typ: char)
    ensures Width(typ) == 0 || 2 <= Width(typ) <= 4
  {}

  lemma Checked(s: string, p: string, chksum: byte, read: seq<byte>)
    requires Taken(s, p, chksum, read)
    ensures Pairs(s, |read|) == Some(read) && chksum == Sum(read) % 256
  {}

  /** Reading s has got to p: the pairs read and their sum. */
  ghost predicate Taken(s: string, p: string, chksum: byte, read: seq<byte>) {
    && |s| >= 2 * |read| && p == s[2 * |read|..]
    && Pairs(s, |read|) == Some(read) && chksum == Sum(read) % 256
  }

  lemma NoPairs(s: string)
    ensures Taken(s, s, 0, [])
  {
    assert s[0..] == s;
  }

  method TakePair(ghost s: string, p0: string, chksum0: byte, ghost read0: seq<byte>)
    returns (v: int, p: string, chksum: byte, ghost read: seq<byte>)
    requires Taken(s, p0, chksum0, read0)
    ensures v == Hex2Bin(p0) && -1 <= v < 256
    ensures v < 0 ==> forall n :: n > |read0| ==> Pairs(s, n) == None
    ensures v >= 0 ==> Taken(s, p, chksum, read) && read == read0 + [v]
  {
    hide Pairs, Hex2Bin, Sum;
    NextPair(s, read0);
    v, p, chksum, read := Hex2Bin(p0), p0, chksum0, read0;
    if v >= 0 {
      read := read0 + [v];
      p := p0[2..];
      SumAppend(read0, [v]);
      SumOfOne(v);
      var sum: nat := chksum0 as int + v;
      chksum := sum % 256;
    }
  }

  /** The address field, most significant byte first. */
  method ReadAddress(ghost s: string, p0: string, w: nat, chksum0: byte, ghost read0: seq<byte>)
    returns (addr: u32, p: string, chksum: byte, v: int, ghost read: seq<byte>)
    requires Taken(s, p0, chksum0, read0) && 2 <= w <= 4
    ensures v < 0 ==> forall n :: n >= |read0| + w ==> Pairs(s, n) == None
    ensures v >= 0 ==>
      && Taken(s, p, chksum, read) && |read| == |read0| + w && read[..|read0|] == read0
      && addr == U32(BigEndian(read[|read0|..]))
  {
    hide Pairs, Hex2Bin, Sum, Taken;
    addr, p, chksum, v, read := 0, p0, chksum0, 0, read0;
    ghost var field: seq<byte> := [];
    assert read0 + field == read0;
    for i := 0 to w
      invariant v >= 0 && |field| == i && read == read0 + field && addr == U32(BigEndian(field))
      invariant Taken(s, p, chksum, read)
    {
      v, p, chksum, read := TakePair(s, p, chksum, read);
      if v < 0 {
        return;
      }
      NextDigit(field, v);
      assert read0 + field + [v] == read0 + (field + [v]);
      field := field + [v];
      addr := U32(U32(256 * addr) + v);
    }
    assert read[|read0|..] == field && read[..|read0|] == read0;
  }

  /** The data bytes, none if their number is negative. */
  method ReadData(ghost s: string, p0: string, count: int, chksum0: byte, ghost read0: seq<byte>)
    returns (data: seq<byte>, p: string, chksum: byte, v: int, ghost read: seq<byte>)
    requires Taken(s, p0, chksum0, read0)
    ensures v < 0 ==> forall n :: n >= |read0| + Positive(count) ==> Pairs(s, n) == None
    ensures v >= 0 ==> Taken(s, p, chksum, read) && |data| == Positive(count) && read == read0 + data
  {
    hide Pairs, Hex2Bin, Sum, Taken;
    data, p, chksum, v, read := [], p0, chksum0, 0, read0;
    assert read0 + data == read0;
    while |data| < count
      invariant v >= 0 && |data| <= Positive(count) && read == read0 + data && Taken(s, p, chksum, read)
    {
      v, p, chksum, read := TakePair(s, p, chksum, read);
      if v < 0 {
        return;
      }
      assert read0 + data + [v] == read0 + (data + [v]);
      data := data + [v];
    }
  }

  lemma NextDigit(bs: seq<byte>, v: byte)
    ensures U32(BigEndian(bs + [v])) == U32(U32(256 * U32(BigEndian(bs))) + v)
  {
    assert (bs + [v])[..|bs|] == bs;
    ShiftedIn(BigEndian(bs), v);
  }

  lemma ShiftedIn(x: nat, v: byte)
    ensures U32(256 * x + v) == U32(U32(256 * U32(x)) + v)
  {
    assert x == TWO32 * (x / TWO32) + U32(x);
    var y := 256 * U32(x);
    assert y == TWO32 * (y / TWO32) + U32(y);
    Turns(U32(y) + v, 256 * (x / TWO32) + y / TWO32);
  }

  // ---------------------------------------------------------------- upload

  const SREC_BYTES_PER_RECORD: nat := 16
  const HEADER := "S0030000FC\n"
  const TRAILER := "S70500000000FA\n"

  /** x >> (8*i). */
  function Shift(x: nat, i: nat): nat {
    if i == 0 then x else Shift(x / 256, i - 1)
  }

  lemma {:induction false} ShiftOnce(x: nat, i: nat)
    ensures Shift(x, i + 1) == Shift(x, i) / 256
  {
    if i > 0 {
      ShiftOnce(x / 256, i - 1);
    }
  }

  /** The low w bytes of x, most significant first. */
  function Bytes(x: nat, w: nat): (bs: seq<byte>)
    ensures |bs| == w
  {
    if w == 0 then [] else Bytes(x / 256, w - 1) + [x % 256]
  }

  function AddressBytes(address: u32): (bs: seq<byte>)
    ensures |bs| == 4
  {
    Bytes(address, 4)
  }

  /** Count, address and data of a record that is ready for its check byte. */
  function Unchecked(address: u32, bs: seq<byte>): seq<byte>
    requires |bs| <= 250
  {
    [|bs| + 5] + AddressBytes(address) + bs
  }

  function Fields(address: u32, bs: seq<byte>): seq<byte>
    requires |bs| <= 250
  {
    Unchecked(address, bs) + [255 - Sum(Unchecked(address, bs)) % 256]
  }

  /** "S3%02X%08lX%s%02X\n". */
  function DataRecord(address: u32, bs: seq<byte>): string
    requires |bs| <= 250
  {
    "S3" + Hex(Fields(address, bs)) + "\n"
  }

  function DataRecords(address: u32, bs: seq<byte>): string
    decreases |bs|
  {
    if bs == [] then "" else
      var n := if |bs| <= SREC_BYTES_PER_RECORD then |bs| else SREC_BYTES_PER_RECORD;
      DataRecord(address, bs[..n]) + DataRecords(U32(address + n), bs[n..])
  }

  function SaveText(address: u32, bs: seq<byte>): string {
    HEADER + DataRecords(address, bs) + TRAILER
  }

  /** The bytes of a record sum to 0xFF modulo 256, and it fits the 48 characters
      of the buffer it is built in. */
  lemma RecordSumsToFF(address: u32, bs: seq<byte>)
    requires |bs| <= SREC_BYTES_PER_RECORD
    ensures Sum(Fields(address, bs)) % 256 == 255
    ensures |DataRecord(address, bs)| + 1 <= 2 * SREC_BYTES_PER_RECORD + 16
  {
    hide Sum;
    var u := Unchecked(address, bs);
    SumAppend(u, [255 - Sum(u) % 256]);
    SumOfOne(255 - Sum(u) % 256);
  }

  lemma AddressReadsBack(address: u32)
    ensures BigEndian(AddressBytes(address)) == address
  {
    BytesReadBack(address, 4);
    FourBytes(address);
  }

  lemma FourBytes(a: u32)
    ensures Shift(a, 4) == 0
  {
    ShiftOnce(a, 3);
    ShiftOnce(a, 2);
    ShiftOnce(a, 1);
    assert Shift(a, 1) == Shift(a / 256, 0) == a / 256;
  }

  lemma {:induction false} BytesReadBack(x: nat, w: nat)
    ensures Shift(x, w) == 0 ==> BigEndian(Bytes(x, w)) == x
  {
    if w > 0 {
      BytesReadBack(x / 256, w - 1);
      assert Bytes(x, w)[..w - 1] == Bytes(x / 256, w - 1);
    }
  }

  lemma FromTheType(typ: char, s: string)
    ensures Decode(['S', typ] + s) == DecodeFields(typ, s)
  {
    var line := ['S', typ] + s;
    assert IndexOf(line, 'S') == 0 && line[1] == typ && line[2..] == s;
  }

  /** A line of well-formed fields decodes to what they say. */
  lemma FieldsReadBack(typ: char, bs: seq<byte>)
    requires Width(typ) > 0 && bs != [] && |bs| == 1 + Width(typ) + Positive(DataCount(typ, bs[0])) + 1
    requires Sum(bs) % 256 == 255
    ensures Decode(['S', typ] + Hex(bs))
         == Record(KindOf(typ), DataCount(typ, bs[0]), U32(BigEndian(bs[1..1 + Width(typ)])),
                   bs[1 + Width(typ)..|bs| - 1])
  {
    hide *;
    FirstPair(bs);
    PairsOfHex(bs);
    FromTheType(typ, Hex(bs));
    DecodedFields(typ, Hex(bs), bs);
  }

  lemma DecodedFields(typ: char, s: string, bs: seq<byte>)
    requires Width(typ) > 0 && bs != [] && |bs| == 1 + Width(typ) + Positive(DataCount(typ, bs[0])) + 1
    requires Hex2Bin(s) == bs[0] && Pairs(s, |bs|) == Some(bs) && Sum(bs) % 256 == 255
    ensures DecodeFields(typ, s)
         == Record(KindOf(typ), DataCount(typ, bs[0]), U32(BigEndian(bs[1..1 + Width(typ)])),
                   bs[1 + Width(typ)..|bs| - 1])
  {
    hide Sum, BigEndian, Hex2Bin, Width, KindOf, DataCount, Pairs, Positive;
  }

  /** The decoder understands every record the upload writes. */
  lemma RecordReadsBack(address: u32, bs: seq<byte>)
    requires |bs| <= SREC_BYTES_PER_RECORD
    ensures Decode("S3" + Hex(Fields(address, bs))) == Record(Data(4), |bs|, address, bs)
  {
    hide Sum, BigEndian, Hex, Decode;
    var f := Fields(address, bs);
    RecordSumsToFF(address, bs);
    FieldsReadBack('3', f);
    AddressReadsBack(address);
    assert f[1..5] == AddressBytes(address) && f[5..5 + |bs|] == bs;
  }

  lemma HeaderReadsBack()
    ensures Decode("S0030000FC") == Record(Start, 0, 0, [])
  {
    hide Sum, BigEndian, Hex, Decode, Bytes;
    var bs: seq<byte> := [3] + Bytes(0, 2) + [252];
    HexOfConcat([3] + Bytes(0, 2), [252]);
    HexOfConcat([3], Bytes(0, 2));
    HexOfOne(3);
    HexOfOne(252);
    HexOfZeros();
    assert "S0030000FC" == "S0" + Hex(bs);
    SumAppend([3] + Bytes(0, 2), [252]);
    SumAppend([3], Bytes(0, 2));
    SumOfOne(3);
    SumOfOne(252);
    FieldsReadBack('0', bs);
    assert bs[1..3] == Bytes(0, 2);
  }

  lemma TrailerReadsBack()
    ensures Decode("S70500000000FA") == Record(End(4), 0, 0, [])
  {
    hide Sum, BigEndian, Hex, Decode, Bytes;
    var bs: seq<byte> := [5] + Bytes(0, 4) + [250];
    HexOfConcat([5] + Bytes(0, 4), [250]);
    HexOfConcat([5], Bytes(0, 4));
    HexOfOne(5);
    HexOfOne(250);
    HexOfZeros();
    assert "S70500000000FA" == "S7" + Hex(bs);
    SumAppend([5] + Bytes(0, 4), [250]);
    SumAppend([5], Bytes(0, 4));
    SumOfOne(5);
    SumOfOne(250);
    FieldsReadBack('7', bs);
    assert bs[1..5] == Bytes(0, 4);
  }

  lemma HexOfZeros()
    ensures Hex(Bytes(0, 2)) == "0000" && Hex(Bytes(0, 4)) == "00000000"
    ensures Sum(Bytes(0, 2)) == Sum(Bytes(0, 4)) == BigEndian(Bytes(0, 2)) == BigEndian(Bytes(0, 4)) == 0
  {
    hide Hex, Sum, BigEndian;
    OneByte(0, 0);
    HexOfZero(0);
    HexOfZero(1);
    HexOfZero(2);
    HexOfZero(3);
    SumOfBytes(0, 0);
    SumOfBytes(0, 1);
    SumOfBytes(0, 2);
    SumOfBytes(0, 3);
    FourBytes(0);
    ShiftOnce(0, 1);
    ShiftOnce(0, 0);
    BytesReadBack(0, 2);
    BytesReadBack(0, 4);
    assert Hex([]) == "" by {
      HexOfConcat([], []);
    }
  }

  lemma HexOfZero(w: nat)
    ensures Hex(Bytes(0, w + 1)) == Hex(Bytes(0, w)) + "00"
  {
    hide Hex, Bytes;
    OneByte(0, w);
    HexOfConcat(Bytes(0, w), [0]);
    HexOfOne(0);
  }

  lemma FirstPair(bs: seq<byte>)
    requires bs != []
    ensures Hex2Bin(Hex(bs)) == bs[0]
  {
    HexByteReads(bs[0], Hex(bs[1..]));
  }

  /** What the processor finds from an address on. */
  function Region(ram: seq<byte>, address: u32, count: nat): (bs: seq<byte>)
    requires |ram| == TWO32
    ensures |bs| == count
    ensures forall i :: 0 <= i < count ==> bs[i] == ram[U32(address + i)]
  {
    if count == 0 then [] else Region(ram, address, count - 1) + [ram[U32(address + count - 1)]]
  }

  lemma RegionSplits(ram: seq<byte>, address: u32, n: nat, m: nat)
    requires |ram| == TWO32
    ensures Region(ram, address, n + m) == Region(ram, address, n) + Region(ram, U32(address + n), m)
  {
    hide Region;
    var a, b := Region(ram, address, n), Region(ram, U32(address + n), m);
    forall i | 0 <= i < n + m ensures Region(ram, address, n + m)[i] == (a + b)[i] {
      if i >= n {
        Wraps(address + n, i - n);
        assert b[i - n] == ram[U32(U32(address + n) + (i - n))];
      }
    }
  }

  lemma NothingYet(ram: seq<byte>, address: u32)
    requires |ram| == TWO32
    ensures Region(ram, address, 0) == [] && Hex([]) == "" && Sum([]) == 0 && DataRecords(address, []) == ""
  {}

  lemma OneMore(ram: seq<byte>, address: u32, n: nat)
    requires |ram| == TWO32
    ensures var c := ram[U32(address + n)];
            && Hex(Region(ram, address, n + 1)) == Hex(Region(ram, address, n)) + HexByte(c)
            && Sum(Region(ram, address, n + 1)) == Sum(Region(ram, address, n)) + c
  {
    var bs, c := Region(ram, address, n), ram[U32(address + n)];
    HexOfConcat(bs, [c]);
    SumAppend(bs, [c]);
    assert Hex([c]) == HexByte(c) + "" == HexByte(c);
  }

  /** A full record, or the last one, is the first of those still to be written. */
  lemma NextRecord(ram: seq<byte>, address: u32, n: nat, left: nat)
    requires |ram| == TWO32 && n <= SREC_BYTES_PER_RECORD && (n == SREC_BYTES_PER_RECORD || left == 0)
    ensures var rest := DataRecords(U32(address + n), Region(ram, U32(address + n), left));
            DataRecords(address, Region(ram, address, n + left))
              == if n == 0 then rest else DataRecord(address, Region(ram, address, n)) + rest
  {
    hide Region, DataRecord;
    RegionSplits(ram, address, n, left);
    var all := Region(ram, address, n + left);
    assert all[..n] == Region(ram, address, n) && all[n..] == Region(ram, U32(address + n), left);
  }

  lemma {:induction false} SumOfBytes(x: nat, w: nat)
    ensures Sum(Bytes(x, w + 1)) == x % 256 + Sum(Bytes(x / 256, w))
  {
    hide Bytes, Sum;
    assert Bytes(x, w + 1) == Bytes(x / 256, w) + [x % 256] by {
      OneByte(x, w);
    }
    SumAppend(Bytes(x / 256, w), [x % 256]);
    SumOfOne(x % 256);
  }

  lemma OneByte(x: nat, w: nat)
    ensures Bytes(x, w + 1) == Bytes(x / 256, w) + [x % 256]
    ensures Bytes(x, 0) == [] && Sum(Bytes(x, 0)) == 0
  {}

  lemma ShortLength(length: nat)
    requires length < 256
    ensures Sum(Bytes(length, 2)) == length
  {
    SumOfBytes(length, 1);
    SumOfBytes(0, 0);
  }

  /** Accumulates the low w bytes of x into the checksum. */
  method AddBytes(sum: nat, x: nat, w: nat) returns (checksum: nat)
    ensures checksum == sum + Sum(Bytes(x, w))
  {
    hide Sum, Bytes;
    checksum := sum;
    assert Shift(x, 0) == x;
    for i := 0 to w
      invariant checksum + Sum(Bytes(Shift(x, i), w - i)) == sum + Sum(Bytes(x, w))
    {
      SumOfBytes(Shift(x, i), w - i - 1);
      ShiftOnce(x, i);
      checksum := checksum + Shift(x, i) % 256;
    }
    OneByte(Shift(x, w), 0);
  }

  /** The record around the collected data. */
  method BuildRecord(address: u32, ghost bs: seq<byte>, reclen: nat, data: string, sum: nat) returns (record: string)
    requires |bs| == reclen <= SREC_BYTES_PER_RECORD && data == Hex(bs) && sum == Sum(bs)
    ensures record == DataRecord(address, bs)
  {
    hide Hex, HexByte, Sum, Bytes, AddressBytes, Unchecked, Fields;
    var length := 4 + reclen + 1;
    var checksum: nat := AddBytes(sum, length, 2);
    checksum := AddBytes(checksum, address, 4);
    CheckByte(address, bs);
    var check: byte := 255 - checksum % 256;
    var digits := HexByte(length) + Hex(AddressBytes(address)) + data + HexByte(check);
    HexOfFields(address, bs, check);
    record := "S3" + digits + "\n";
  }

  lemma CheckByte(address: u32, bs: seq<byte>)
    requires |bs| <= SREC_BYTES_PER_RECORD
    ensures Sum(Unchecked(address, bs)) == Sum(bs) + Sum(Bytes(|bs| + 5, 2)) + Sum(Bytes(address, 4))
  {
    hide Sum, Bytes, Unchecked;
    ShortLength(|bs| + 5);
    SumOfUnchecked(address, bs);
  }

  lemma SumOfUnchecked(address: u32, bs: seq<byte>)
    requires |bs| <= 250
    ensures Sum(Unchecked(address, bs)) == |bs| + 5 + Sum(AddressBytes(address)) + Sum(bs)
  {
    hide Sum;
    SumAppend([|bs| + 5] + AddressBytes(address), bs);
    SumAppend([|bs| + 5], AddressBytes(address));
    SumOfOne(|bs| + 5);
  }

  lemma HexOfFields(address: u32, bs: seq<byte>, check: byte)
    requires |bs| <= 250 && check == 255 - Sum(Unchecked(address, bs)) % 256
    ensures HexByte(|bs| + 5) + Hex(AddressBytes(address)) + Hex(bs) + HexByte(check) == Hex(Fields(address, bs))
  {
    hide Hex, HexByte, Sum, Unchecked;
    HexOfConcat(Unchecked(address, bs), [check]);
    HexOfUnchecked(address, bs);
    HexOfOne(check);
  }

  lemma HexOfUnchecked(address: u32, bs: seq<byte>)
    requires |bs| <= 250
    ensures Hex(Unchecked(address, bs)) == HexByte(|bs| + 5) + Hex(AddressBytes(address)) + Hex(bs)
  {
    hide Hex, HexByte, AddressBytes;
    HexOfConcat([|bs| + 5] + AddressBytes(address), bs);
    HexOfConcat([|bs| + 5], AddressBytes(address));
    HexOfOne(|bs| + 5);
  }

  lemma HexOfOne(b: byte)
    ensures Hex([b]) == HexByte(b)
  {
    assert Hex([b]) == HexByte(b) + "" == HexByte(b);
  }

  /** save_serial, while nobody types ^C. */
  method SaveSerial(ram: array<byte>, address: u32, count: u32) returns (text: string)
    requires ram.Length == TWO32
    ensures text == SaveText(address, Region(ram[..], address, count))
  {
    hide DataRecords, DataRecord, Region, Hex, HexByte, Sum;
    var addr: u32, left: nat, reclen: nat, checksum: nat := address, count, 0, 0;
    var data := new char[2 * SREC_BYTES_PER_RECORD + 1];
    text := HEADER;
    ghost var all := HEADER + DataRecords(address, Region(ram[..], address, count));
    NothingYet(ram[..], address);
    var more := true;
    while more
      invariant left + reclen <= count && reclen < SREC_BYTES_PER_RECORD
      invariant data[..2 * reclen] == Hex(Region(ram[..], addr, reclen))
      invariant checksum == Sum(Region(ram[..], addr, reclen))
      invariant text + DataRecords(addr, Region(ram[..], addr, reclen + left)) == all
      invariant if more then left > 0 || reclen == 0 else left == 0 == reclen
      decreases left, more
    {
      if left != 0 {
        OneMore(ram[..], addr, reclen);
        var c := ram[U32(addr + reclen)];
        checksum := checksum + c;
        PutHex(data, reclen, c);
        reclen := reclen + 1;
        left := left - 1;
      }
      if reclen == SREC_BYTES_PER_RECORD || left == 0 {
        NextRecord(ram[..], addr, reclen, left);
        if reclen != 0 {
          var record := BuildRecord(addr, Region(ram[..], addr, reclen), reclen, data[..2 * reclen], checksum);
          Assoc(text, record, DataRecords(U32(addr + reclen), Region(ram[..], U32(addr + reclen), left)));
          text := text + record;
        }
        addr := U32(addr + reclen);
        checksum, reclen := 0, 0;
        NothingYet(ram[..], addr);
      }
      more := left != 0;
    }
    NothingYet(ram[..], addr);
    Assoc(text, "", "");
    text := text + TRAILER;
  }

  /** Appends the two digits of a byte to the collected data. */
  method PutHex(data: array<char>, reclen: nat, c: byte)
    requires 2 * reclen + 2 < data.Length
    modifies data
    ensures data[..2 * (reclen + 1)] == old(data[..2 * reclen]) + HexByte(c)
  {
    hide HexByte;
    data[2 * reclen] := HexByte(c)[0];
    data[2 * reclen + 1] := HexByte(c)[1];
    data[2 * reclen + 2] := '\0';
  }
}
