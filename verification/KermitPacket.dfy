/** Kermit packets as k_recv reads them and the replies it sends (common/cmd_load.c). */
module KermitPacket {
  import opened Octets

  const START_CHAR: byte := 1
  const ETX_CHAR: byte := 3
  const END_CHAR: byte := 13
  const K_ESCAPE: byte := 35
  const SEND_TYPE: byte := 83
  const DATA_TYPE: byte := 68
  const ACK_TYPE: byte := 89
  const NACK_TYPE: byte := 78
  const BREAK_TYPE: byte := 66

  function ToChar(x: int): byte {
    (x + 32) % 256
  }

  function UnChar(c: byte): byte {
    (c - 32) % 256
  }

  /** (c & 0xE0) == 0: no printing character, an error inside a packet. */
  predicate Control(c: byte) {
    c < 32
  }

  /** The one-character block check over a sum of characters. `/` and `%` round
      down here, as the arithmetic shift and the masks of the source do. */
  function Check(sum: int): (r: nat)
    ensures r < 64
  {
    (sum + (sum / 64) % 4) % 64
  }

  // -------------------------------------------------------------- scanning

  /** Cut: the line went quiet before the packet was complete. */
  datatype Outcome = Accepted | Rejected | Cut

  /** One packet attempt: either its length or sequence character was bad, or it
      got as far as its type (0 when that was bad) and some data characters. */
  datatype Attempt =
    | NoHeader(outcome: Outcome)
    | Attempt(n: byte, typ: byte, data: seq<byte>, outcome: Outcome)

  /** An attempt and the characters left on the line behind it. */
  datatype Scan = Scan(a: Attempt, rest: seq<byte>)

  /** k_recv from behind the start character. */
  function ScanPacket(s: seq<byte>): Scan {
    if s == [] then Scan(NoHeader(Cut), [])
    else if Control(s[0]) then Scan(NoHeader(Rejected), s[1..])
    else if |s| == 1 then Scan(NoHeader(Cut), [])
    else if Control(s[1]) then Scan(NoHeader(Rejected), s[2..])
    else ScanType(s[2..], UnChar(s[1]), UnChar(s[0]) - 1, s[0] as int + s[1])
  }

  function ScanType(s: seq<byte>, n: byte, length: int, sum: nat): (r: Scan)
    ensures r.a.Attempt? && r.a.n == n
    ensures r.a.typ == if s == [] || Control(s[0]) then 0 else s[0]
  {
    if s == [] then Scan(Attempt(n, 0, [], Cut), [])
    else if Control(s[0]) then Scan(Attempt(n, 0, [], Rejected), s[1..])
    else if length - 1 == -2 then ScanLong(s[1..], n, s[0], sum + s[0])
    else ScanData(s[1..], n, s[0], [], length - 1, sum + s[0])
  }

  /** The extended header: two length characters and a header check. */
  function ScanLong(s: seq<byte>, n: byte, typ: byte, sum: nat): (r: Scan)
    ensures r.a.Attempt? && r.a.n == n && r.a.typ == typ
  {
    if s == [] then Scan(Attempt(n, typ, [], Cut), [])
    else if Control(s[0]) then Scan(Attempt(n, typ, [], Rejected), s[1..])
    else if |s| == 1 then Scan(Attempt(n, typ, [], Cut), [])
    else if Control(s[1]) then Scan(Attempt(n, typ, [], Rejected), s[2..])
    else if |s| == 2 then Scan(Attempt(n, typ, [], Cut), [])
    else if Control(s[2]) || s[2] != ToChar(Check(sum + s[0] + s[1])) then Scan(Attempt(n, typ, [], Rejected), s[3..])
    else ScanData(s[3..], n, typ, [], UnChar(s[0]) * 95 + UnChar(s[1]), sum + s[0] + s[1] + s[2])
  }

  /** The data loop; `data` is what it has passed on so far. */
  function ScanData(s: seq<byte>, n: byte, typ: byte, data: seq<byte>, length: int, sum: nat): (r: Scan)
    ensures r.a.Attempt? && r.a.n == n && r.a.typ == typ
    decreases |s|
  {
    if length <= 1 then ScanEnd(s, n, typ, data, sum)
    else if s == [] then Scan(Attempt(n, typ, data, Cut), [])
    else if Control(s[0]) then Scan(Attempt(n, typ, data, Rejected), s[1..])
    else ScanData(s[1..], n, typ, data + [s[0]], length - 1, sum + s[0])
  }

  /** The block check and the end character. */
  function ScanEnd(s: seq<byte>, n: byte, typ: byte, data: seq<byte>, sum: nat): (r: Scan)
    ensures r.a.Attempt? && r.a.n == n && r.a.typ == typ
  {
    if s == [] then Scan(Attempt(n, typ, data, Cut), [])
    else if Control(s[0]) || s[0] != ToChar(Check(sum)) then Scan(Attempt(n, typ, data, Rejected), s[1..])
    else if |s| == 1 then Scan(Attempt(n, typ, data, Cut), [])
    else Scan(Attempt(n, typ, data, if s[1] == END_CHAR then Accepted else Rejected), s[2..])
  }

  lemma {:induction false} ScanDataShrinks(s: seq<byte>, n: byte, typ: byte, data: seq<byte>, length: int, sum: nat)
    ensures |ScanData(s, n, typ, data, length, sum).rest| <= |s|
    decreases |s|
  {
    if length > 1 && s != [] && !Control(s[0]) {
      ScanDataShrinks(s[1..], n, typ, data + [s[0]], length - 1, sum + s[0]);
    }
  }

  lemma ScanShrinks(s: seq<byte>)
    ensures |ScanPacket(s).rest| <= |s|
  {
    hide ScanData;
    if |s| >= 3 {
      var n, t := UnChar(s[1]), s[2];
      var sum: nat := s[0] as int + s[1] + s[2];
      ScanDataShrinks(s[2..][1..], n, t, [], UnChar(s[0]) - 2, sum);
      if |s| >= 6 {
        var l := s[2..][1..];
        ScanDataShrinks(l[3..], n, t, [], UnChar(l[0]) * 95 + UnChar(l[1]), sum + l[0] + l[1] + l[2]);
      }
    }
  }

  // ------------------------------------------------------------- well formed

  /** The characters of a packet behind its start character, up to the block
      check: a short packet, or a long one when the data needs more than 94. */
  function Body(n: byte, typ: byte, data: seq<byte>): (s: seq<byte>)
    requires n < 224 && |data| + 1 < 224 * 95
  {
    if |data| <= 91 then [ToChar(|data| + 3), ToChar(n), typ] + data
    else
      var head := [ToChar(0), ToChar(n), typ, ToChar((|data| + 1) / 95), ToChar((|data| + 1) % 95)];
      head + [ToChar(Check(Sum(head)))] + data
  }

  function Frame(n: byte, typ: byte, data: seq<byte>): seq<byte>
    requires n < 224 && |data| + 1 < 224 * 95
  {
    var body := Body(n, typ, data);
    [START_CHAR] + body + [ToChar(Check(Sum(body))), END_CHAR]
  }

  predicate Printing(s: seq<byte>) {
    forall c <- s :: !Control(c)
  }

  /** Data with the block check over it and what was summed before, and the end. */
  function Closed(sum: nat, data: seq<byte>): seq<byte> {
    data + [ToChar(Check(sum + Sum(data))), END_CHAR]
  }

  lemma {:induction false} GoodDataScans(
    n: byte, typ: byte, seen: seq<byte>, data: seq<byte>, sum: nat, rest: seq<byte>)
    requires Printing(data)
    ensures ScanData(Closed(sum, data) + rest, n, typ, seen, |data| + 1, sum)
         == Scan(Attempt(n, typ, seen + data, Accepted), rest)
    decreases |data|
  {
    hide Check;
    var check := ToChar(Check(sum + Sum(data)));
    var s := Closed(sum, data) + rest;
    if data == [] {
      assert s[0] == check && s[1] == END_CHAR && s[2..] == rest && seen + data == seen;
    } else {
      var c := data[0];
      assert s[0] == c && !Control(c);
      assert s[1..] == Closed(sum + c, data[1..]) + rest;
      GoodDataScans(n, typ, seen + [c], data[1..], sum + c, rest);
      assert seen + [c] + data[1..] == seen + data;
    }
  }

  /** Numbers below 224 survive being sent as a character. */
  lemma CharReadsBack(x: nat)
    requires x < 224
    ensures UnChar(ToChar(x)) == x && !Control(ToChar(x))
  {}

  lemma ScanHead(l: byte, c: byte, t: byte, tail: seq<byte>)
    requires !Control(l) && !Control(c) && !Control(t)
    ensures ScanPacket([l, c, t] + tail) ==
            if UnChar(l) == 0 then ScanLong(tail, UnChar(c), t, l as int + c + t)
            else ScanData(tail, UnChar(c), t, [], UnChar(l) - 2, l as int + c + t)
  {
    hide ScanData, ScanLong;
    var s := [l, c, t] + tail;
    assert s[2..] == [t] + tail && ([t] + tail)[1..] == tail;
  }

  lemma ScanLongHead(hi: byte, lo: byte, hcheck: byte, tail: seq<byte>, n: byte, typ: byte, sum: nat)
    requires !Control(hi) && !Control(lo) && hcheck == ToChar(Check(sum + hi + lo))
    ensures ScanLong([hi, lo, hcheck] + tail, n, typ, sum) ==
            ScanData(tail, n, typ, [], UnChar(hi) * 95 + UnChar(lo), sum + hi + lo + hcheck)
  {
    hide ScanData;
    var s := [hi, lo, hcheck] + tail;
    assert s[3..] == tail;
  }

  lemma SumCons(c: byte, s: seq<byte>)
    ensures Sum([c] + s) == c + Sum(s)
  {
    assert ([c] + s)[1..] == s;
  }

  lemma SumOf3(a: byte, b: byte, c: byte, s: seq<byte>)
    ensures Sum([a, b, c] + s) == a as int + b + c + Sum(s)
  {
    assert [a, b, c] + s == [a] + ([b] + ([c] + s));
    SumCons(a, [b] + ([c] + s));
    SumCons(b, [c] + s);
    SumCons(c, s);
  }

  lemma ShortScans(n: byte, typ: byte, data: seq<byte>, rest: seq<byte>)
    requires n < 224 && |data| <= 91 && !Control(typ) && Printing(data)
    ensures ScanPacket(Frame(n, typ, data)[1..] + rest) == Scan(Attempt(n, typ, data, Accepted), rest)
  {
    hide ScanPacket, ScanData, ScanLong, Frame, Closed, ToChar, UnChar, Control;
    var l := ToChar(|data| + 3);
    var sum: nat := l as int + ToChar(n) + typ;
    CharReadsBack(|data| + 3);
    CharReadsBack(n);
    ShortFrame(n, typ, data, rest, l, sum);
    ScanHead(l, ToChar(n), typ, Closed(sum, data) + rest);
    GoodDataScans(n, typ, [], data, sum, rest);
    assert [] + data == data;
  }

  /** The characters of a short packet, taken apart as the receiver does. */
  lemma ShortFrame(n: byte, typ: byte, data: seq<byte>, rest: seq<byte>, l: byte, sum: nat)
    requires n < 224 && |data| <= 91 && l == ToChar(|data| + 3) && sum == l as int + ToChar(n) + typ
    ensures Frame(n, typ, data)[1..] + rest == [l, ToChar(n), typ] + (Closed(sum, data) + rest)
  {
    hide Check, ToChar, Sum;
    SumOf3(l, ToChar(n), typ, data);
    Shape([START_CHAR], [l, ToChar(n), typ], data, [ToChar(Check(sum + Sum(data))), END_CHAR], rest);
  }

  lemma Shape(s: seq<byte>, a: seq<byte>, data: seq<byte>, e: seq<byte>, rest: seq<byte>)
    requires |s| == 1
    ensures (s + (a + data) + e)[1..] + rest == a + (data + e + rest)
  {
    assert (s + (a + data) + e)[1..] == a + data + e;
  }

  /** The characters of a long packet, taken apart as the receiver does. */
  lemma LongFrame(n: byte, typ: byte, data: seq<byte>, rest: seq<byte>, hi: byte, lo: byte, sum: nat, hcheck: byte)
    requires n < 224 && 91 < |data| && |data| + 1 < 224 * 95
    requires hi == ToChar((|data| + 1) / 95) && lo == ToChar((|data| + 1) % 95)
    requires sum == ToChar(0) as int + ToChar(n) + typ && hcheck == ToChar(Check(sum + hi + lo))
    ensures Frame(n, typ, data)[1..] + rest
         == [ToChar(0), ToChar(n), typ] + ([hi, lo, hcheck] + (Closed(sum + hi + lo + hcheck, data) + rest))
  {
    hide Check, ToChar, Sum, Frame;
    var head, e := [ToChar(0), ToChar(n), typ, hi, lo] + [hcheck],
                   [ToChar(Check(sum + hi + lo + hcheck + Sum(data))), END_CHAR];
    LongParts(n, typ, data, hi, lo, sum, hcheck);
    Shape([START_CHAR], head, data, e, rest);
    assert head == [ToChar(0), ToChar(n), typ] + [hi, lo, hcheck];
    TwoHeads([ToChar(0), ToChar(n), typ], [hi, lo, hcheck], Closed(sum + hi + lo + hcheck, data) + rest);
  }

  lemma LongParts(n: byte, typ: byte, data: seq<byte>, hi: byte, lo: byte, sum: nat, hcheck: byte)
    requires n < 224 && 91 < |data| && |data| + 1 < 224 * 95
    requires hi == ToChar((|data| + 1) / 95) && lo == ToChar((|data| + 1) % 95)
    requires sum == ToChar(0) as int + ToChar(n) + typ && hcheck == ToChar(Check(sum + hi + lo))
    ensures Frame(n, typ, data)
         == [START_CHAR] + ([ToChar(0), ToChar(n), typ, hi, lo] + [hcheck] + data)
            + [ToChar(Check(sum + hi + lo + hcheck + Sum(data))), END_CHAR]
  {
    hide Check, ToChar, Sum;
    LongSums(n, typ, data, hi, lo);
    assert Body(n, typ, data) == [ToChar(0), ToChar(n), typ, hi, lo] + [hcheck] + data;
  }

  lemma TwoHeads(a: seq<byte>, b: seq<byte>, c: seq<byte>)
    ensures a + b + c == a + (b + c)
  {}

  lemma LongScans(n: byte, typ: byte, data: seq<byte>, rest: seq<byte>)
    requires n < 224 && 91 < |data| && |data| + 1 < 224 * 95 && !Control(typ) && Printing(data)
    ensures ScanPacket(Frame(n, typ, data)[1..] + rest) == Scan(Attempt(n, typ, data, Accepted), rest)
  {
    hide ScanPacket, ScanData, ScanLong, Check, Frame, Closed, ToChar, UnChar, Control;
    var m := |data| + 1;
    var hi, lo := ToChar(m / 95), ToChar(m % 95);
    var sum: nat := ToChar(0) as int + ToChar(n) + typ;
    var hcheck := ToChar(Check(sum + hi + lo));
    var tail := Closed(sum + hi + lo + hcheck, data) + rest;
    CharReadsBack(0);
    CharReadsBack(n);
    CharReadsBack(m / 95);
    CharReadsBack(m % 95);
    LongFrame(n, typ, data, rest, hi, lo, sum, hcheck);
    ScanHead(ToChar(0), ToChar(n), typ, [hi, lo, hcheck] + tail);
    ScanLongHead(hi, lo, hcheck, tail, n, typ, sum);
    GoodDataScans(n, typ, [], data, sum + hi + lo + hcheck, rest);
    assert [] + data == data;
  }

  lemma LongSums(n: byte, typ: byte, data: seq<byte>, hi: byte, lo: byte)
    ensures var sum := ToChar(0) as int + ToChar(n) + typ;
            var head := [ToChar(0), ToChar(n), typ, hi, lo];
            var hcheck := ToChar(Check(Sum(head)));
            && Sum(head) == sum + hi + lo
            && Sum(head + [hcheck] + data) == sum + hi + lo + hcheck + Sum(data)
  {
    hide Check;
    var head := [ToChar(0), ToChar(n), typ, hi, lo];
    var hcheck := ToChar(Check(Sum(head)));
    SumOf3(ToChar(0), ToChar(n), typ, [hi, lo]);
    assert [ToChar(0), ToChar(n), typ] + [hi, lo] == head;
    SumCons(hi, [lo]);
    SumCons(lo, []);
    assert [hi] + [lo] == [hi, lo] && [lo] + [] == [lo];
    SumAppend(head, [hcheck] + data);
    SumCons(hcheck, data);
    assert head + [hcheck] + data == head + ([hcheck] + data);
  }

  /** A properly built packet of any length is accepted with its own contents. */
  lemma FrameScans(n: byte, typ: byte, data: seq<byte>, rest: seq<byte>)
    requires n < 224 && |data| + 1 < 224 * 95 && !Control(typ) && Printing(data)
    ensures ScanPacket(Frame(n, typ, data)[1..] + rest) == Scan(Attempt(n, typ, data, Accepted), rest)
  {
    hide ScanPacket, Frame;
    if |data| <= 91 {
      ShortScans(n, typ, data, rest);
    } else {
      LongScans(n, typ, data, rest);
    }
  }
}
