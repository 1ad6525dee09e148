/** What the block check of common/cmd_load.c guards against, and that the replies
    of k_recv obey the rules k_recv imposes. */
module KermitCheck {
  import opened Arithmetic
  import opened Octets
  import opened KermitPacket

  // --------------------------------------------------------- single-bit errors

  /** What flipping one bit of a character adds to it. */
  predicate BitDelta(d: int) {
    d in {1, 2, 4, 8, 16, 32, 64, 128, -1, -2, -4, -8, -16, -32, -64, -128}
  }

  /** c with one of its eight bits flipped is c' . */
  predicate OneBitFlipped(c: byte, c': byte) {
    exists k :: k in {1, 2, 4, 8, 16, 32, 64, 128} && c' == if (c / k) % 2 == 0 then c + k else c - k
  }

  lemma CheckByParts(hi: int, lo: int)
    requires 0 <= lo < 64
    ensures Check(64 * hi + lo) == (lo + hi % 4) % 64
  {
    Divide(64 * hi + lo, 64, hi, lo);
    DropMultiple(64, hi, lo + hi % 4);
  }

  /** The check depends only on the sum modulo 256. */
  lemma CheckIsModulo256(sum: int, k: int)
    ensures Check(sum + 256 * k) == Check(sum)
  {
    hide Check;
    var hi, lo := sum / 64, sum % 64;
    CheckByParts(hi, lo);
    CheckByParts(hi + 4 * k, lo);
    DropMultiple(4, k, hi);
    assert sum + 256 * k == 64 * (hi + 4 * k) + lo;
  }

  /** No one-bit change goes unnoticed by the check. */
  lemma CheckSeesBit(sum: nat, d: int)
    requires BitDelta(d) && sum + d >= 0
    ensures Check(sum + d) != Check(sum)
  {
    var hi, lo := sum / 64, sum % 64;
    var hi', lo' := (sum + d) / 64, (sum + d) % 64;
    CheckByParts(hi, lo);
    CheckByParts(hi', lo');
    QuarterMoves(hi, hi' - hi);
    PartsDiffer(lo, lo', hi % 4, hi' % 4, hi' - hi, d);
  }

  lemma QuarterMoves(hi: nat, k: int)
    requires -2 <= k <= 2 && hi + k >= 0
    ensures (hi + k) % 4 - hi % 4 in {k, k - 4, k + 4}
  {}

  lemma PartsDiffer(lo: int, lo': int, b: int, b': int, k: int, d: int)
    requires 0 <= lo < 64 && 0 <= lo' < 64 && 0 <= b < 4 && 0 <= b' < 4
    requires BitDelta(d) && 64 * k + (lo' - lo) == d && b' - b in {k, k - 4, k + 4}
    ensures (lo' + b') % 64 != (lo + b) % 64
  {
    assert -3 <= k <= 3;
    assert (d + (b' - b)) % 64 != 0;
  }

  lemma FlipIsDelta(c: byte, c': byte)
    requires OneBitFlipped(c, c')
    ensures BitDelta(c' - c)
  {}

  /** A rejected attempt that leaves a tail of s, of a length in these bounds. */
  predicate Stops(r: Scan, s: seq<byte>, least: nat, most: int) {
    r.a.outcome == Rejected && least <= |r.rest| <= most && |r.rest| <= |s| && r.rest == s[|s| - |r.rest|..]
  }

  lemma StopsBehind(r: Scan, s: seq<byte>, k: nat, least: nat, most: int)
    requires k <= |s| && Stops(r, s[k..], least, most)
    ensures Stops(r, s, least, most)
  {
    assert s[k..][|s| - k - |r.rest|..] == s[|s| - |r.rest|..];
  }

  /** A data part that was accepted is rejected when the sum before it differs in
      one bit of one character. */
  lemma {:induction false} OtherSumRejects(s: seq<byte>, n: byte, typ: byte, data: seq<byte>, length: int, sum: nat,
                                           n': byte, typ': byte, data': seq<byte>, d: int)
    requires ScanData(s, n, typ, data, length, sum).a.outcome == Accepted
    requires BitDelta(d) && sum + d >= 0
    ensures Stops(ScanData(s, n', typ', data', length, sum + d), s,
                  |ScanData(s, n, typ, data, length, sum).rest|, |s|)
    decreases |s|
  {
    hide Check, BitDelta, Stops;
    if length <= 1 {
      OtherCheckRejects(s, n, typ, data, sum, n', typ', data', d);
    } else {
      OtherSumRejects(s[1..], n, typ, data + [s[0]], length - 1, sum + s[0], n', typ', data' + [s[0]], d);
      StopsSooner(ScanData(s[1..], n', typ', data' + [s[0]], length - 1, sum + d + s[0]), s, 1,
                  |ScanData(s, n, typ, data, length, sum).rest|, |s|);
    }
  }

  lemma StopsSooner(r: Scan, s: seq<byte>, k: nat, least: nat, most: int)
    requires k <= |s| && Stops(r, s[k..], least, |s| - k) && |s| - k <= most
    ensures Stops(r, s, least, most)
  {
    StopsBehind(r, s, k, least, |s| - k);
  }

  lemma OtherCheckRejects(s: seq<byte>, n: byte, typ: byte, data: seq<byte>, sum: nat,
                          n': byte, typ': byte, data': seq<byte>, d: int)
    requires ScanEnd(s, n, typ, data, sum).a.outcome == Accepted && BitDelta(d) && sum + d >= 0
    ensures Stops(ScanEnd(s, n', typ', data', sum + d), s, |ScanEnd(s, n, typ, data, sum).rest|, |s|)
  {
    hide Check, ToChar, BitDelta;
    CheckSeesBit(sum, d);
    CharsDiffer(Check(sum + d), Check(sum));
  }

  lemma FlipChanges(c: byte, c': byte)
    requires OneBitFlipped(c, c')
    ensures c' != c
  {}

  /** A flipped block check or end character. */
  lemma FlippedEndRejects(s: seq<byte>, n: byte, typ: byte, data: seq<byte>, sum: nat, i: nat, c': byte)
    requires ScanEnd(s, n, typ, data, sum).a.outcome == Accepted
    requires i < |s| - |ScanEnd(s, n, typ, data, sum).rest| && OneBitFlipped(s[i], c')
    ensures Stops(ScanEnd(s[i := c'], n, typ, data, sum), s, |ScanEnd(s, n, typ, data, sum).rest|, |s| - i - 1)
  {
    hide Check, ToChar, OneBitFlipped;
    FlipChanges(s[i], c');
  }

  lemma {:induction false} FlippedDataRejects(s: seq<byte>, n: byte, typ: byte, data: seq<byte>, length: int, sum: nat,
                                              i: nat, c': byte)
    requires ScanData(s, n, typ, data, length, sum).a.outcome == Accepted
    requires i < |s| - |ScanData(s, n, typ, data, length, sum).rest| && OneBitFlipped(s[i], c')
    ensures Stops(ScanData(s[i := c'], n, typ, data, length, sum), s,
                  |ScanData(s, n, typ, data, length, sum).rest|, |s| - i - 1)
    decreases |s|
  {
    hide Check, OneBitFlipped, BitDelta, ScanEnd, Stops;
    var r := ScanData(s[i := c'], n, typ, data, length, sum);
    var least := |ScanData(s, n, typ, data, length, sum).rest|;
    if length <= 1 {
      FlippedEndRejects(s, n, typ, data, sum, i, c');
    } else if i == 0 {
      FlipIsDelta(s[0], c');
      assert s[0 := c'][1..] == s[1..];
      if Control(c') {
        ScanDataShrinks(s[1..], n, typ, data + [s[0]], length - 1, sum + s[0]);
        StopsAtOnce(r, s, 1, least);
      } else {
        OtherSumRejects(s[1..], n, typ, data + [s[0]], length - 1, sum + s[0], n, typ, data + [c'], c' - s[0]);
        StopsBehind(r, s, 1, least, |s| - 1);
      }
    } else {
      FlippedDataRejects(s[1..], n, typ, data + [s[0]], length - 1, sum + s[0], i - 1, c');
      assert s[i := c'][1..] == s[1..][i - 1 := c'];
      StopsBehind(r, s, 1, least, |s| - i - 1);
    }
  }

  lemma StopsAtOnce(r: Scan, s: seq<byte>, k: nat, least: nat)
    requires k <= |s| && r.a.outcome == Rejected && r.rest == s[k..] && least <= |s| - k
    ensures Stops(r, s, least, |s| - k)
  {}

  /** A flipped character of an extended header. */
  lemma FlippedLongHeaderRejects(s: seq<byte>, n: byte, typ: byte, sum: nat, i: nat, c': byte)
    requires ScanLong(s, n, typ, sum).a.outcome == Accepted && i < 3 && OneBitFlipped(s[i], c')
    ensures Stops(ScanLong(s[i := c'], n, typ, sum), s, |ScanLong(s, n, typ, sum).rest|, |s| - i - 1)
  {
    hide Check, ToChar, UnChar, OneBitFlipped, BitDelta, ScanData;
    ScanDataShrinks(s[3..], n, typ, [], UnChar(s[0]) * 95 + UnChar(s[1]), sum + s[0] + s[1] + s[2]);
    FlipIsDelta(s[i], c');
    FlipChanges(s[i], c');
    var s' := s[i := c'];
    if i < 2 {
      var before: nat := sum + s[0] + s[1];
      assert sum + s'[0] + s'[1] == before + (c' - s[i]);
      CheckSeesBit(before, c' - s[i]);
      CharsDiffer(Check(before + (c' - s[i])), Check(before));
    }
  }

  lemma CharsDiffer(a: nat, b: nat)
    requires a < 64 && b < 64 && a != b
    ensures ToChar(a) != ToChar(b)
  {}

  /** What comes behind the type character. */
  function ScanBody(s: seq<byte>, n: byte, typ: byte, length: int, sum: nat): (r: Scan)
    ensures r.a.Attempt? && r.a.n == n
  {
    if length == -2 then ScanLong(s, n, typ, sum) else ScanData(s, n, typ, [], length, sum)
  }

  /** Behind an intact sequence or type character, the rest of an accepted packet
      is rejected when the sum so far is off by one bit. */
  lemma OtherHeaderRejects(s: seq<byte>, n: byte, typ: byte, n': byte, typ': byte, length: int, sum: nat, d: int)
    requires BitDelta(d) && sum + d >= 0
    requires ScanBody(s, n, typ, length, sum).a.outcome == Accepted
    ensures Stops(ScanBody(s, n', typ', length, sum + d), s, |ScanBody(s, n, typ, length, sum).rest|, |s|)
  {
    hide Check, ToChar, UnChar, BitDelta, ScanData;
    if length == -2 {
      ScanDataShrinks(s[3..], n, typ, [], UnChar(s[0]) * 95 + UnChar(s[1]), sum + s[0] + s[1] + s[2]);
      CheckSeesBit(sum + s[0] + s[1], d);
      CharsDiffer(Check(sum + s[0] + s[1] + d), Check(sum + s[0] + s[1]));
    } else {
      OtherSumRejects(s, n, typ, [], length, sum, n', typ', [], d);
    }
  }

  /** Flipping any single bit behind the length character, of the sequence, the type, an
      extended header, the data, the block check or the end, makes k_recv reject a packet
      it would have accepted, whatever its length, and it takes nothing behind it. */
  lemma SingleBitErrorRejected(s: seq<byte>, i: nat, c': byte)
    requires ScanPacket(s).a.outcome == Accepted
    requires 0 < i < |s| - |ScanPacket(s).rest| && OneBitFlipped(s[i], c')
    ensures Stops(ScanPacket(s[i := c']), s, |ScanPacket(s).rest|, |s| - i - 1)
    ensures i > 1 ==> ScanPacket(s[i := c']).a.Attempt? && ScanPacket(s[i := c']).a.n == UnChar(s[1])
  {
    hide Check, OneBitFlipped, BitDelta, ScanBody, ScanType, Stops;
    var r, least := ScanPacket(s[i := c']), |ScanPacket(s).rest|;
    var n, length, sum := UnChar(s[1]), UnChar(s[0]) - 1, s[0] as int + s[1];
    var t: seq<byte> := s[2..];
    FlipIsDelta(s[i], c');
    AcceptedType(t, n, length, sum);
    var body: seq<byte> := t[1..];
    BodyShrinks(body, n, t[0], length - 1, sum + t[0]);
    if i == 1 {
      assert s[1 := c'][2..] == t;
      if Control(c') {
        StopsAtOnce(r, s, 2, least);
      } else {
        AcceptedType(t, UnChar(c'), length, sum + c' - s[1]);
        OtherHeaderRejects(t[1..], n, t[0], UnChar(c'), t[0], length - 1, sum + t[0], c' - s[1]);
        assert sum + t[0] + (c' - s[1]) == s[0] as int + c' + t[0];
        assert t[1..] == s[3..];
        StopsSooner(r, s, 3, least, |s| - 2);
      }
    } else if i == 2 {
      assert s[2 := c'][2..] == [c'] + t[1..];
      assert ([c'] + t[1..])[1..] == t[1..] == s[3..];
      AcceptedType([c'] + t[1..], n, length, sum);
      if Control(c') {
        StopsAtOnce(r, s, 3, least);
      } else {
        OtherHeaderRejects(t[1..], n, t[0], n, c', length - 1, sum + t[0], c' - t[0]);
        StopsBehind(r, s, 3, least, |s| - 3);
      }
    } else {
      assert s[i := c'][2..] == t[i - 2 := c'];
      assert t[i - 2 := c'][1..] == t[1..][i - 3 := c'];
      AcceptedType(t[i - 2 := c'], n, length, sum);
      FlippedInBody(t[1..], n, t[0], length - 1, sum + t[0], i - 3, c');
      assert t[1..] == s[3..];
      StopsBehind(r, s, 3, least, |s| - i - 1);
    }
  }

  lemma BodyShrinks(s: seq<byte>, n: byte, typ: byte, length: int, sum: nat)
    ensures |ScanBody(s, n, typ, length, sum).rest| <= |s|
  {
    hide ScanData;
    if length != -2 {
      ScanDataShrinks(s, n, typ, [], length, sum);
    } else if |s| >= 3 {
      ScanDataShrinks(s[3..], n, typ, [], UnChar(s[0]) * 95 + UnChar(s[1]), sum + s[0] + s[1] + s[2]);
    }
  }

  /** ScanType as the choice it makes behind a good type character. */
  lemma AcceptedType(t: seq<byte>, n: byte, length: int, sum: nat)
    ensures t != [] && !Control(t[0]) ==>
              ScanType(t, n, length, sum) == ScanBody(t[1..], n, t[0], length - 1, sum + t[0])
    ensures ScanType(t, n, length, sum).a.outcome == Accepted ==> t != [] && !Control(t[0])
    ensures t != [] && Control(t[0]) ==> ScanType(t, n, length, sum) == Scan(Attempt(n, 0, [], Rejected), t[1..])
  {
    hide ScanLong, ScanData;
  }

  lemma FlippedInBody(s: seq<byte>, n: byte, typ: byte, length: int, sum: nat, i: nat, c': byte)
    requires ScanBody(s, n, typ, length, sum).a.outcome == Accepted
    requires i < |s| - |ScanBody(s, n, typ, length, sum).rest| && OneBitFlipped(s[i], c')
    ensures Stops(ScanBody(s[i := c'], n, typ, length, sum), s, |ScanBody(s, n, typ, length, sum).rest|, |s| - i - 1)
  {
    hide Check, OneBitFlipped, ScanData, Stops;
    if length == -2 && i < 3 {
      FlippedLongHeaderRejects(s, n, typ, sum, i, c');
    } else if length == -2 {
      assert s[i := c'][3..] == s[3..][i - 3 := c'];
      FlippedDataRejects(s[3..], n, typ, [], UnChar(s[0]) * 95 + UnChar(s[1]), sum + s[0] + s[1] + s[2], i - 3, c');
      var least := |ScanBody(s, n, typ, length, sum).rest|;
      StopsBehind(ScanBody(s[i := c'], n, typ, length, sum), s, 3, least, |s| - i - 1);
    } else {
      FlippedDataRejects(s, n, typ, [], length, sum, i, c');
    }
  }

  // ------------------------------------------------------------------ replies

  /** chk1 adds plain chars, which are signed on some targets. */
  function SignedSum(s: seq<byte>): int {
    if s == [] then 0 else (if s[0] < 128 then s[0] else s[0] - 256) + SignedSum(s[1..])
  }

  /** With signed or unsigned chars, chk1 gives the check k_recv computes. */
  lemma {:induction false} SignednessIsIrrelevant(s: seq<byte>)
    ensures Check(SignedSum(s)) == Check(Sum(s))
    ensures exists k :: SignedSum(s) == Sum(s) + 256 * k
  {
    if s == [] {
      assert SignedSum(s) == Sum(s) + 256 * 0;
    } else {
      SignednessIsIrrelevant(s[1..]);
      var k :| SignedSum(s[1..]) == Sum(s[1..]) + 256 * k;
      var k' := if s[0] < 128 then k else k - 1;
      assert SignedSum(s) == Sum(s) + 256 * k';
      CheckIsModulo256(Sum(s), k');
    }
  }

  /** send_ack and send_nack: the buffer a_b up to its terminating NUL. */
  function SimpleReply(n: byte, typ: byte, eol: byte): seq<byte> {
    var head := [ToChar(3), ToChar(n), typ];
    [START_CHAR] + head + [ToChar(Check(SignedSum(head))), eol]
  }

  /** The fields handle_send_packet answers, in order; one is sent for each field
      received, and the tenth brings the three long-packet fields with it. */
  const SEND_FIELDS: seq<byte> := [126, 33, 32, 64, 45, 35, 78, 49, 78, 34]
  const LONG_FIELDS: seq<byte> := [32, 126, 126]

  function SendReplyData(bytes: nat): seq<byte> {
    if bytes < 10 then SEND_FIELDS[..bytes] else SEND_FIELDS + LONG_FIELDS
  }

  /** The acknowledgement handle_send_packet builds: a_b[1] is the length, the
      fields follow the type, then check and end of line. */
  method BuildSendReply(n: byte, bytes: nat, eol: byte) returns (reply: seq<byte>)
    ensures reply == SendReply(n, bytes, eol)
  {
    hide Check, SignedSum, ToChar;
    var fields: seq<byte> := [];
    var left := bytes;
    while left > 0 && |fields| < 10
      invariant |fields| <= |SEND_FIELDS| == 10 && |fields| + left == bytes
      invariant fields == SEND_FIELDS[..|fields|]
    {
      left := left - 1;
      fields := fields + [SEND_FIELDS[|fields|]];
    }
    assert SEND_FIELDS[..10] == SEND_FIELDS;
    if |fields| == 10 {
      fields := fields + LONG_FIELDS;
    }
    var length := 3 + |fields|;
    var head := [ToChar(length), ToChar(n), ACK_TYPE] + fields;
    reply := [START_CHAR] + head + [ToChar(Check(SignedSum(head))), eol];
  }

  function SendReply(n: byte, bytes: nat, eol: byte): seq<byte> {
    var head := [ToChar(3 + |SendReplyData(bytes)|), ToChar(n), ACK_TYPE] + SendReplyData(bytes);
    [START_CHAR] + head + [ToChar(Check(SignedSum(head))), eol]
  }

  /** Sent to a receiver with the same rules, every reply is a packet with the
      answered number: only its last character is the sender's choice. */
  lemma RepliesAreFrames(n: byte, typ: byte, bytes: nat)
    requires n < 224 && typ in {ACK_TYPE, NACK_TYPE}
    ensures SimpleReply(n, typ, END_CHAR) == Frame(n, typ, [])
    ensures SendReply(n, bytes, END_CHAR) == Frame(n, ACK_TYPE, SendReplyData(bytes))
  {
    hide Check, SignedSum, Sum;
    var head := [ToChar(3), ToChar(n), typ];
    assert head + [] == head;
    SignednessIsIrrelevant(head);
    var data := SendReplyData(bytes);
    SignednessIsIrrelevant([ToChar(3 + |data|), ToChar(n), ACK_TYPE] + data);
  }

  lemma RepliesAreAccepted(n: byte, typ: byte, bytes: nat, rest: seq<byte>)
    requires n < 224 && typ in {ACK_TYPE, NACK_TYPE}
    ensures ScanPacket(SimpleReply(n, typ, END_CHAR)[1..] + rest) == Scan(Attempt(n, typ, [], Accepted), rest)
    ensures ScanPacket(SendReply(n, bytes, END_CHAR)[1..] + rest) ==
            Scan(Attempt(n, ACK_TYPE, SendReplyData(bytes), Accepted), rest)
  {
    hide SimpleReply, SendReply, Frame, ScanPacket;
    RepliesAreFrames(n, typ, bytes);
    FrameScans(n, typ, [], rest);
    FrameScans(n, ACK_TYPE, SendReplyData(bytes), rest);
  }
}
