/** Transfers over a line that damages packets: k_recv (common/cmd_load.c) on copies of
    packets with one bit flipped, intact copies, and retransmissions. */
module KermitLine {
  import opened Octets
  import opened KermitPacket
  import opened KermitCheck
  import opened KermitReceiver
  import opened KermitSession
  import opened KermitFile

  /** One copy of a packet on the line: as it was sent, or with a bit of the character
      at position i flipped. */
  datatype Copy = Intact | Damaged(i: nat, c: byte)

  /** A packet and the copies that are sent until one is acknowledged, and further. */
  datatype Sending = Sending(p: Packet, copies: seq<Copy>)

  /** The start, length and sequence characters are taken to be intact, as the code
      assumes; any other may be damaged. */
  predicate Possible(p: Packet, c: Copy)
    requires Sendable(p)
  {
    c.Damaged? ==> var s := Frame(p.n, p.typ, p.data); 3 <= c.i < |s| && OneBitFlipped(s[c.i], c.c)
  }

  /** The last copy is intact; the break packet ends the transfer with its first one. */
  predicate GoodSending(s: Sending) {
    && Sendable(s.p) && s.copies != [] && s.copies[|s.copies| - 1] == Intact
    && (forall c <- s.copies :: Possible(s.p, c))
    && (s.p.typ == BREAK_TYPE ==> forall k :: 0 <= k < |s.copies| - 1 ==> s.copies[k].Damaged?)
  }

  predicate AllGood(ss: seq<Sending>) {
    forall k :: 0 <= k < |ss| ==> GoodSending(ss[k])
  }

  function CopyLine(p: Packet, c: Copy): (s: seq<byte>)
    requires Sendable(p) && Possible(p, c)
  {
    var s := Frame(p.n, p.typ, p.data);
    if c.Intact? then s else s[c.i := c.c]
  }

  function CopiesLine(p: Packet, copies: seq<Copy>): seq<byte>
    requires Sendable(p) && forall c <- copies :: Possible(p, c)
  {
    if copies == [] then [] else CopyLine(p, copies[0]) + CopiesLine(p, copies[1..])
  }

  /** All characters of a transfer. */
  function NoisyLine(ss: seq<Sending>): seq<byte>
    requires AllGood(ss)
  {
    if ss == [] then [] else
      assert GoodSending(ss[0]);
      CopiesLine(ss[0].p, ss[0].copies) + NoisyLine(ss[1..])
  }

  // ------------------------------------------------------------ what is heard

  /** What the receiver makes of the copies, in front of the rest of the line. */
  function Heard(p: Packet, copies: seq<Copy>, rest: seq<byte>): seq<Attempt>
    requires Sendable(p) && forall c <- copies :: Possible(p, c)
  {
    if copies == [] then [] else
      FrameLength(p, copies[0]);
      [ScanPacket(CopyLine(p, copies[0])[1..] + (CopiesLine(p, copies[1..]) + rest)).a] + Heard(p, copies[1..], rest)
  }

  function Groups(ss: seq<Sending>): seq<Group>
    requires AllGood(ss)
  {
    if ss == [] then [] else
      assert GoodSending(ss[0]);
      [Group(ss[0].p, Heard(ss[0].p, ss[0].copies, NoisyLine(ss[1..])))] + Groups(ss[1..])
  }

  lemma FrameLength(p: Packet, c: Copy)
    requires Sendable(p) && Possible(p, c)
    ensures |CopyLine(p, c)| == |Frame(p.n, p.typ, p.data)| >= 6 && CopyLine(p, c)[0] == START_CHAR
    ensures CopyLine(p, c)[..3] == Frame(p.n, p.typ, p.data)[..3] && CopyLine(p, c)[2] == ToChar(p.n)
  {
    hide Check;
  }

  /** No character behind the start one is a mark. */
  lemma NoMarkInside(p: Packet)
    requires Sendable(p)
    ensures var s := Frame(p.n, p.typ, p.data);
            forall k :: 0 < k < |s| ==> s[k] != START_CHAR && s[k] != ETX_CHAR
  {
    hide Sum, Check;
    var s, body := Frame(p.n, p.typ, p.data), Body(p.n, p.typ, p.data);
    assert forall k :: 0 <= k < |p.data| ==> p.data[k] in p.data;
    assert forall k :: 0 <= k < |body| ==> body[k] != START_CHAR && body[k] != ETX_CHAR;
    assert forall k :: 0 < k < |s| - 2 ==> s[k] == body[k - 1];
  }

  predicate NoMark(s: seq<byte>) {
    forall k :: 0 <= k < |s| ==> s[k] != START_CHAR && s[k] != ETX_CHAR
  }

  lemma {:induction false} MarkBehind(junk: seq<byte>, rest: seq<byte>)
    requires NoMark(junk)
    ensures FirstMark(junk + rest) == |junk| + FirstMark(rest)
  {
    if junk == [] {
      assert junk + rest == rest;
    } else {
      assert (junk + rest)[1..] == junk[1..] + rest;
      MarkBehind(junk[1..], rest);
    }
  }

  /** Characters before a mark are skipped. */
  lemma JunkIsSkipped(junk: seq<byte>, rest: seq<byte>)
    requires NoMark(junk)
    ensures Attempts(junk + rest) == Attempts(rest)
  {
    hide ScanPacket;
    MarkBehind(junk, rest);
    var k := FirstMark(rest);
    assert k < |rest| ==> (junk + rest)[|junk| + k + 1..] == rest[k + 1..];
  }

  /** An intact copy is accepted, and nothing behind it is taken. */
  lemma IntactHeard(p: Packet, rest: seq<byte>)
    requires Sendable(p)
    ensures ScanPacket(CopyLine(p, Intact)[1..] + rest) == Scan(Attempt(p.n, p.typ, p.data, Accepted), rest)
  {
    FrameScans(p.n, p.typ, p.data, rest);
  }

  /** A damaged copy is rejected with its sequence number, and what is left of it holds
      no mark. */
  lemma DamagedHeard(p: Packet, c: Copy, rest: seq<byte>)
    requires Sendable(p) && Possible(p, c) && c.Damaged?
    ensures var r := ScanPacket(CopyLine(p, c)[1..] + rest);
            && r.a.Attempt? && r.a.n == p.n && r.a.outcome == Rejected
            && |rest| <= |r.rest| && NoMark(r.rest[..|r.rest| - |rest|]) && r.rest[|r.rest| - |rest|..] == rest
  {
    hide ScanPacket, Frame, OneBitFlipped, Stops, ToChar, UnChar;
    var frame := Frame(p.n, p.typ, p.data);
    FrameLength(p, c);
    FrameLength(p, Intact);
    var s := frame[1..] + rest;
    FrameScans(p.n, p.typ, p.data, rest);
    assert CopyLine(p, c)[1..] + rest == s[c.i - 1 := c.c];
    SingleBitErrorRejected(s, c.i - 1, c.c);
    assert s[1] == frame[2];
    CharReadsBack(p.n);
    NoMarkInside(p);
    var r := ScanPacket(s[c.i - 1 := c.c]);
    Leftover(r, frame, rest, |s| - c.i);
  }

  lemma Leftover(r: Scan, frame: seq<byte>, rest: seq<byte>, most: int)
    requires frame != [] && Stops(r, frame[1..] + rest, |rest|, most)
    requires forall k :: 0 < k < |frame| ==> frame[k] != START_CHAR && frame[k] != ETX_CHAR
    ensures r.a.outcome == Rejected
    ensures |rest| <= |r.rest| && NoMark(r.rest[..|r.rest| - |rest|]) && r.rest[|r.rest| - |rest|..] == rest
  {
    var s, m := frame[1..] + rest, |r.rest| - |rest|;
    assert s[|s| - |rest|..] == rest;
    assert r.rest[m..] == s[|s| - |r.rest|..][m..] == s[|s| - |rest|..];
    assert forall k :: 0 <= k < m ==> r.rest[k] == s[|s| - |r.rest| + k] == frame[1 + |s| - |r.rest| + k];
  }

  /** One copy: what is heard of it, and that the rest of the line is heard as it is. */
  lemma CopyHeard(p: Packet, c: Copy, rest: seq<byte>)
    requires Sendable(p) && Possible(p, c)
    ensures |CopyLine(p, c)| > 0
    ensures var a := ScanPacket(CopyLine(p, c)[1..] + rest).a;
            && a.Attempt? && AttemptAt(p, a) && (a.outcome == Accepted <==> c.Intact?)
            && Attempts(CopyLine(p, c) + rest) == if Ends(a) then [a] else [a] + Attempts(rest)
  {
    hide ScanPacket, Frame;
    FrameLength(p, c);
    var line := CopyLine(p, c) + rest;
    assert line[1..] == CopyLine(p, c)[1..] + rest && line[0] == START_CHAR;
    assert FirstMark(line) == 0;
    var r := ScanPacket(CopyLine(p, c)[1..] + rest);
    if c.Intact? {
      IntactHeard(p, rest);
    } else {
      DamagedHeard(p, c, rest);
      var m := |r.rest| - |rest|;
      assert r.rest == r.rest[..m] + rest;
      JunkIsSkipped(r.rest[..m], rest);
    }
  }

  /** The copies of one packet. */
  lemma {:induction false} CopiesHeard(p: Packet, copies: seq<Copy>, rest: seq<byte>)
    requires Sendable(p) && copies != [] && copies[|copies| - 1] == Intact && forall c <- copies :: Possible(p, c)
    requires p.typ == BREAK_TYPE ==> forall k :: 0 <= k < |copies| - 1 ==> copies[k].Damaged?
    ensures var heard := Heard(p, copies, rest);
            && |heard| == |copies|
            && (forall a <- heard :: a.Attempt? && AttemptAt(p, a)) && LastAccepted(heard)
            && Attempts(CopiesLine(p, copies) + rest) == heard + if p.typ == BREAK_TYPE then [] else Attempts(rest)
    decreases |copies|
  {
    hide CopyLine, ScanPacket, AttemptAt, Attempts, Sendable, Possible;
    var c, more := copies[0], CopiesLine(p, copies[1..]);
    assert CopiesLine(p, copies) + rest == CopyLine(p, c) + (more + rest);
    CopyHeard(p, c, more + rest);
    var a := ScanPacket(CopyLine(p, c)[1..] + (more + rest)).a;
    AcceptedEnds(p, a);
    if |copies| == 1 {
      assert copies == [c] && more + rest == rest && Heard(p, copies, rest) == [a] + [];
    } else {
      CopiesHeard(p, copies[1..], rest);
      var heard := Heard(p, copies[1..], rest);
      assert Heard(p, copies, rest) == [a] + heard;
      assert [a] + (heard + if p.typ == BREAK_TYPE then [] else Attempts(rest))
          == [a] + heard + if p.typ == BREAK_TYPE then [] else Attempts(rest);
    }
  }

  lemma AcceptedEnds(p: Packet, a: Attempt)
    requires a.Attempt? && AttemptAt(p, a)
    ensures Ends(a) <==> p.typ == BREAK_TYPE && a.outcome == Accepted
  {}

  // ---------------------------------------------------------- whole transfers

  predicate NumberedApart(last: int, ss: seq<Sending>)
    decreases |ss|
  {
    ss != [] ==> ss[0].p.n != last && NumberedApart(ss[0].p.n, ss[1..])
  }

  predicate BreakIsLast(ss: seq<Sending>) {
    forall k :: 0 <= k < |ss| ==> (ss[k].p.typ == BREAK_TYPE <==> k == |ss| - 1)
  }

  /** On the whole line k_recv hears one group of attempts for each packet, the last one
      of which is accepted. */
  lemma {:induction false} LineHeard(last: int, ss: seq<Sending>)
    requires AllGood(ss) && BreakIsLast(ss) && NumberedApart(last, ss)
    ensures Attempts(NoisyLine(ss)) == AllAttempts(Groups(ss))
    ensures GoodGroups(last, Groups(ss)) && AllDelivered(Groups(ss)) && |Groups(ss)| == |ss|
    ensures forall k :: 0 <= k < |ss| ==> Groups(ss)[k].p == ss[k].p
    decreases |ss|
  {
    hide Attempts, Heard, CopiesLine, AttemptAt, Possible, LastAccepted;
    if ss == [] {
      NothingHeard();
    } else {
      var s, rest := ss[0], NoisyLine(ss[1..]);
      assert GoodSending(s);
      CopiesHeard(s.p, s.copies, rest);
      LineHeard(s.p.n, ss[1..]);
      var g := Group(s.p, Heard(s.p, s.copies, rest));
      assert Groups(ss) == [g] + Groups(ss[1..]) && Groups(ss)[1..] == Groups(ss[1..]);
      assert g.attempts[0] in g.attempts;
      if |ss| == 1 {
        assert Groups(ss[1..]) == [];
      }
    }
  }

  lemma NothingHeard()
    ensures Attempts([]) == []
  {}

  /** The last packet, a break, ends the transfer. */
  lemma {:induction false} BreakEnds(st: Rx, last: int, gs: seq<Group>)
    requires gs != [] && GoodGroups(last, gs) && AllDelivered(gs) && gs[|gs| - 1].p.typ == BREAK_TYPE
    ensures Run(st, AllAttempts(gs)).done
    decreases |gs|
  {
    hide Step;
    var tries := gs[0].attempts;
    RunAppend(st, tries, AllAttempts(gs[1..]));
    if |gs| > 1 {
      BreakEnds(Run(st, tries), gs[0].p.n, gs[1..]);
    } else {
      assert gs[1..] == [];
      assert LastAccepted(tries);
      var k := |tries| - 1;
      var a := tries[k];
      assert a in tries && AttemptAt(gs[0].p, a);
      assert tries == tries[..k] + [a];
      RunAppend(st, tries[..k], [a]);
      BreakDone(Run(st, tries[..k]), a);
      RunEmpty(Step(Run(st, tries[..k]), a));
      RunEmpty(Run(st, tries));
    }
  }

  lemma BreakDone(st: Rx, a: Attempt)
    requires Ends(a)
    ensures Step(st, a).done
  {}

  /** The characters of a whole transfer (send-init, data among other packets, break) on
      a line that damages any copies of its packets by a bit, each packet being sent
      again until a copy arrives intact and perhaps further: k_recv returns the size of
      the file and leaves the file at the start address. */
  method NoisyTransfer(ss: seq<Sending>, file: seq<byte>) returns (r: Ending, mem: seq<byte>)
    requires ss != [] && AllGood(ss) && BreakIsLast(ss) && NumberedApart(-1, ss)
    requires ss[0].p.typ == SEND_TYPE && forall k :: 0 < k < |ss| ==> ss[k].p.typ != SEND_TYPE
    requires LegalQuote(QuoteOf(ss[0].p.data)) && SentData(ss) == Encode(QuoteOf(ss[0].p.data), file)
    ensures |file| <= |mem| && mem[..|file|] == file
    ensures r == Finished(|file|)
  {
    hide NoisyLine, Encode, Attempts, Step, Frame, Groups, AllDelivered, GoodGroups;
    LineHeard(-1, ss);
    var gs := Groups(ss);
    SameData(ss, gs);
    FileArrives(gs, file);
    BreakEnds(INIT, -1, gs);
    var receiver := new Receiver();
    r := receiver.KRecv(NoisyLine(ss));
    mem := receiver.mem;
  }

  /** The data that the packets carry. */
  function SentData(ss: seq<Sending>): seq<byte> {
    if ss == [] then [] else (if ss[0].p.typ == DATA_TYPE then ss[0].p.data else []) + SentData(ss[1..])
  }

  lemma {:induction false} SameData(ss: seq<Sending>, gs: seq<Group>)
    requires |gs| == |ss| && forall k :: 0 <= k < |ss| ==> gs[k].p == ss[k].p
    ensures AllData(gs) == SentData(ss)
  {
    if ss != [] {
      SameData(ss[1..], gs[1..]);
    }
  }
}
