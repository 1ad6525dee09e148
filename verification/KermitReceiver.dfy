/** k_recv of common/cmd_load.c: the download state with its checkpoint, one packet
    attempt at a time, and what any sequence of attempts leaves in memory. */
module KermitReceiver {
  import opened Octets
  import opened KermitPacket
  import opened KermitCheck

  /** ktrans. Bit 6 is dropped where bits 6 and 5 are 10, and set where the low
      seven bits are 0x3f. */
  function Ktrans(c: byte): byte {
    if (c / 32) % 4 == 2 then c - 64
    else if c % 128 == 63 then c + 64
    else c
  }

  /** The download: what is in memory from the start address on, the write
      position, a pending quote character, and the checkpoint of both. */
  datatype Rx = Rx(
    mem: seq<byte>, addr: nat, escape: bool,
    savedAddr: nat, savedEscape: bool,
    lastN: int, n: byte, quote: byte, eol: byte,
    done: bool, sent: seq<seq<byte>>)

  const INIT := Rx([], 0, false, 0, false, -1, 0, K_ESCAPE, END_CHAR, false, [])

  // ----------------------------------------------------------- one character

  /** bin_data_char. */
  function Write(st: Rx, c: byte): Rx {
    st.(mem := if st.addr < |st.mem| then st.mem[st.addr := c] else st.mem + [c], addr := st.addr + 1)
  }

  /** k_data_char. */
  function DataChar(st: Rx, c: byte): Rx {
    if st.escape then Write(st, Ktrans(c)).(escape := false)
    else if c == st.quote then st.(escape := true)
    else Write(st, c)
  }

  function Feed(st: Rx, data: seq<byte>): Rx
    decreases |data|
  {
    if data == [] then st else Feed(DataChar(st, data[0]), data[1..])
  }

  function Save(st: Rx): Rx {
    st.(savedAddr := st.addr, savedEscape := st.escape)
  }

  function Restore(st: Rx): Rx {
    st.(addr := st.savedAddr, escape := st.savedEscape)
  }

  // ------------------------------------------------------------- one attempt

  /** The sequence number check: a repeated number starts again from the
      checkpoint, a new one makes a checkpoint. */
  function Sequence(st: Rx, n: byte): Rx {
    if n == st.lastN then Restore(st).(n := n) else Save(st).(lastN := n, n := n)
  }

  /** handle_send_packet takes at most 18 parameter characters. */
  function ParamCount(data: seq<byte>): nat {
    if |data| >= 19 then 18 else |data|
  }

  function SendPacket(st: Rx, data: seq<byte>): Rx {
    var eol := if ParamCount(data) >= 5 then UnChar(data[4]) else END_CHAR;
    var quote := if ParamCount(data) >= 6 then data[5] else K_ESCAPE;
    st.(eol := eol, quote := quote, sent := st.sent + [SendReply(st.n, ParamCount(data), eol)])
  }

  function Nack(st: Rx): Rx {
    Restore(st).(sent := st.sent + [SimpleReply(st.n, NACK_TYPE, st.eol)])
  }

  function Finish(st: Rx, typ: byte, data: seq<byte>, outcome: Outcome): Rx {
    match outcome
    case Cut => st
    case Rejected => Nack(st)
    case Accepted =>
      if typ == SEND_TYPE then SendPacket(st, data)
      else st.(sent := st.sent + [SimpleReply(st.n, ACK_TYPE, st.eol)], done := typ == BREAK_TYPE)
  }

  /** One turn of the main loop of k_recv. */
  function Step(st: Rx, a: Attempt): Rx {
    match a
    case NoHeader(outcome) => if outcome == Rejected then Nack(st) else st
    case Attempt(n, typ, data, outcome) =>
      var st1 := Sequence(st, n);
      Finish(if typ == DATA_TYPE then Feed(st1, data) else st1, typ, data, outcome)
  }

  function Run(st: Rx, tries: seq<Attempt>): Rx
    decreases |tries|
  {
    if tries == [] then st else Run(Step(st, tries[0]), tries[1..])
  }

  // ---------------------------------------------------------------- safety

  predicate Sound(st: Rx) {
    st.savedAddr <= st.addr <= |st.mem|
  }

  lemma {:induction false} FeedAbove(st: Rx, data: seq<byte>)
    requires st.addr <= |st.mem|
    ensures var st' := Feed(st, data);
            && st.addr <= st'.addr <= |st'.mem|
            && st'.mem[..st.addr] == st.mem[..st.addr]
            && st' == st.(mem := st'.mem, addr := st'.addr, escape := st'.escape)
    decreases |data|
  {
    if data != [] {
      var st1 := DataChar(st, data[0]);
      FeedAbove(st1, data[1..]);
      assert st1.mem[..st.addr] == st.mem[..st.addr];
      var st' := Feed(st, data);
      assert st'.mem[..st1.addr][..st.addr] == st'.mem[..st.addr];
      assert st1.mem[..st1.addr][..st.addr] == st1.mem[..st.addr];
    }
  }

  /** No attempt of any kind writes below the checkpoint in force afterwards. */
  lemma StepWritesAbove(st: Rx, a: Attempt)
    requires Sound(st)
    ensures var st' := Step(st, a);
            Sound(st') && st.savedAddr <= st'.savedAddr <= |st.mem| &&
            st'.mem[..st'.savedAddr] == st.mem[..st'.savedAddr]
  {
    hide Finish, Nack, Feed;
    match a
    case NoHeader(outcome) => FinishKeeps(st, 0, [], outcome);
    case Attempt(n, typ, data, outcome) =>
      var st1 := Sequence(st, n);
      var st2 := if typ == DATA_TYPE then Feed(st1, data) else st1;
      FeedAbove(st1, data);
      assert st2.mem[..st1.addr][..st1.savedAddr] == st2.mem[..st1.savedAddr];
      assert st1.mem[..st1.addr][..st1.savedAddr] == st1.mem[..st1.savedAddr];
      FinishKeeps(st2, typ, data, outcome);
  }

  /** The end of a turn replies, and at most moves back to the checkpoint. */
  lemma FinishKeeps(st: Rx, typ: byte, data: seq<byte>, outcome: Outcome)
    ensures var st' := Finish(st, typ, data, outcome);
            && st'.mem == st.mem && st'.savedAddr == st.savedAddr
            && (st'.addr == st.addr || st'.addr == st.savedAddr)
    ensures Nack(st).mem == st.mem && Nack(st).savedAddr == Nack(st).addr == st.savedAddr
  {
    hide SimpleReply, SendReply;
  }

  /** So the bytes below a checkpoint survive every run that follows it. */
  lemma {:induction false} RunWritesAbove(st: Rx, tries: seq<Attempt>)
    requires Sound(st)
    ensures var st' := Run(st, tries);
            Sound(st') && st.savedAddr <= st'.savedAddr <= |st'.mem| &&
            st'.mem[..st.savedAddr] == st.mem[..st.savedAddr]
    decreases |tries|
  {
    if tries != [] {
      hide Step;
      var st1 := Step(st, tries[0]);
      StepWritesAbove(st, tries[0]);
      RunWritesAbove(st1, tries[1..]);
      assert st1.mem[..st1.savedAddr][..st.savedAddr] == st1.mem[..st.savedAddr];
      assert st.mem[..st1.savedAddr][..st.savedAddr] == st.mem[..st.savedAddr];
    }
  }

  // --------------------------------------------------- what has been received

  /** The bytes received and whether a quote character is pending. */
  datatype Sink = Sink(bytes: seq<byte>, escape: bool)

  function View(st: Rx): Sink
    requires st.addr <= |st.mem|
  {
    Sink(st.mem[..st.addr], st.escape)
  }

  /** Undoing the quoting, character by character. */
  function Decode(quote: byte, s: Sink, data: seq<byte>): Sink
    decreases |data|
  {
    if data == [] then s
    else if s.escape then Decode(quote, Sink(s.bytes + [Ktrans(data[0])], false), data[1..])
    else if data[0] == quote then Decode(quote, Sink(s.bytes, true), data[1..])
    else Decode(quote, Sink(s.bytes + [data[0]], false), data[1..])
  }

  lemma {:induction false} FeedDecodes(st: Rx, data: seq<byte>)
    requires st.addr <= |st.mem|
    ensures Feed(st, data).addr <= |Feed(st, data).mem|
    ensures View(Feed(st, data)) == Decode(st.quote, View(st), data)
    decreases |data|
  {
    if data != [] {
      var st1 := DataChar(st, data[0]);
      assert st.escape ==> st1.mem[..st1.addr] == st.mem[..st.addr] + [Ktrans(data[0])];
      assert !st.escape && data[0] != st.quote ==> st1.mem[..st1.addr] == st.mem[..st.addr] + [data[0]];
      FeedDecodes(st1, data[1..]);
    }
  }

  // ---------------------------------------------- packets and their attempts

  datatype Packet = Packet(n: byte, typ: byte, data: seq<byte>)

  /** An attempt at packet p as the receiver may see it. An accepted one is the
      packet itself; a rejected one may hold any type and data, or not even its
      header; the sequence character is taken to be intact when it is readable. */
  predicate AttemptAt(p: Packet, a: Attempt) {
    match a
    case NoHeader(outcome) => outcome == Rejected
    case Attempt(n, typ, data, outcome) =>
      n == p.n && outcome != Cut && (outcome == Accepted ==> typ == p.typ && data == p.data)
  }

  /** All attempts from the first readable one at a packet up to the first
      readable one at the next packet. */
  datatype Group = Group(p: Packet, attempts: seq<Attempt>)

  predicate GoodGroup(g: Group) {
    && g.attempts != [] && g.attempts[0].Attempt?
    && forall a <- g.attempts :: AttemptAt(g.p, a)
  }

  predicate GoodGroups(lastN: int, gs: seq<Group>)
    decreases |gs|
  {
    gs != [] ==> GoodGroup(gs[0]) && gs[0].p.n != lastN && GoodGroups(gs[0].p.n, gs[1..])
  }

  predicate LastAccepted(tries: seq<Attempt>) {
    tries != [] && tries[|tries| - 1].outcome == Accepted
  }

  predicate SomeAccepted(tries: seq<Attempt>) {
    exists a :: a in tries && a.outcome == Accepted
  }

  function QuoteOf(data: seq<byte>): byte {
    if ParamCount(data) >= 6 then data[5] else K_ESCAPE
  }

  function GroupQuote(quote: byte, p: Packet, tries: seq<Attempt>): byte {
    if p.typ == SEND_TYPE && SomeAccepted(tries) then QuoteOf(p.data) else quote
  }

  function GroupSink(quote: byte, s: Sink, p: Packet, tries: seq<Attempt>): Sink {
    if p.typ == DATA_TYPE && LastAccepted(tries) then Decode(quote, s, p.data) else s
  }

  function AllAttempts(gs: seq<Group>): seq<Attempt> {
    if gs == [] then [] else gs[0].attempts + AllAttempts(gs[1..])
  }

  /** What should have been received: the data of every packet whose last attempt
      was accepted, decoded with the quote character agreed on by then. */
  function Received(quote: byte, s: Sink, gs: seq<Group>): Sink
    decreases |gs|
  {
    if gs == [] then s
    else Received(GroupQuote(quote, gs[0].p, gs[0].attempts),
                  GroupSink(quote, s, gs[0].p, gs[0].attempts), gs[1..])
  }

  lemma {:induction false} RunAppend(st: Rx, tries: seq<Attempt>, bs: seq<Attempt>)
    ensures Run(st, tries + bs) == Run(Run(st, tries), bs)
    decreases |tries|
  {
    if tries == [] {
      assert tries + bs == bs;
    } else {
      assert (tries + bs)[1..] == tries[1..] + bs;
      RunAppend(Step(st, tries[0]), tries[1..], bs);
    }
  }

  /** The state inside a group: `s` is checkpointed, `q` is the quote character
      the group started with. */
  predicate InGroup(st: Rx, p: Packet, s: Sink, q: byte, tries: seq<Attempt>) {
    && Sound(st) && st.lastN == p.n
    && Sink(st.mem[..st.savedAddr], st.savedEscape) == s
    && st.quote == GroupQuote(q, p, tries)
    && View(st) == GroupSink(q, s, p, tries)
  }

  lemma SomeAcceptedSnoc(tries: seq<Attempt>, a: Attempt)
    ensures SomeAccepted(tries + [a]) <==> SomeAccepted(tries) || a.outcome == Accepted
  {
    if SomeAccepted(tries) {
      var b :| b in tries && b.outcome == Accepted;
      assert b in tries + [a];
    }
    if a.outcome == Accepted {
      assert a in tries + [a];
    }
  }

  /** An attempt that has passed the sequence check starts from the checkpoint. */
  lemma AttemptFromCheckpoint(st: Rx, p: Packet, s: Sink, q: byte, tries: seq<Attempt>, a: Attempt)
    requires Sound(st) && AttemptAt(p, a)
    requires a.Attempt? ==>
               var st1 := Sequence(st, a.n);
               Sound(st1) && View(st1) == s && Sink(st1.mem[..st1.savedAddr], st1.savedEscape) == s &&
               st1.lastN == p.n && st1.quote == GroupQuote(q, p, tries)
    requires a.NoHeader? ==> InGroup(st, p, s, q, tries)
    requires p.typ != SEND_TYPE ==> st.quote == q
    ensures InGroup(Step(st, a), p, s, q, tries + [a])
  {
    hide Decode, SomeAccepted, Feed, SimpleReply, SendReply;
    SomeAcceptedSnoc(tries, a);
    if a.Attempt? {
      var st1 := Sequence(st, a.n);
      if a.typ == DATA_TYPE {
        FeedAbove(st1, a.data);
        FeedDecodes(st1, a.data);
        var st2 := Feed(st1, a.data);
        assert st2.mem[..st1.addr][..st1.savedAddr] == st2.mem[..st1.savedAddr];
        assert st1.mem[..st1.addr][..st1.savedAddr] == st1.mem[..st1.savedAddr];
      }
    }
  }

  /** Between groups: nothing is pending but the sink and the quote character. */
  predicate Between(st: Rx, s: Sink, q: byte) {
    Sound(st) && View(st) == s && st.quote == q
  }

  lemma {:induction false} RestOfGroup(st: Rx, p: Packet, s: Sink, q: byte, seen: seq<Attempt>, tries: seq<Attempt>)
    requires InGroup(st, p, s, q, seen) && seen != []
    requires forall a <- tries :: AttemptAt(p, a)
    ensures InGroup(Run(st, tries), p, s, q, seen + tries)
    decreases |tries|
  {
    hide Decode, SomeAccepted, Step, AttemptAt;
    if tries == [] {
      assert seen + tries == seen;
    } else {
      NextAttempt(st, p, s, q, seen, tries[0]);
      RestOfGroup(Step(st, tries[0]), p, s, q, seen + [tries[0]], tries[1..]);
      assert seen + [tries[0]] + tries[1..] == seen + tries;
    }
  }

  lemma NextAttempt(st: Rx, p: Packet, s: Sink, q: byte, seen: seq<Attempt>, a: Attempt)
    requires InGroup(st, p, s, q, seen) && AttemptAt(p, a)
    ensures InGroup(Step(st, a), p, s, q, seen + [a])
  {
    hide Decode, SomeAccepted, Step;
    if a.Attempt? {
      var st1 := Sequence(st, a.n);
      assert st1 == Restore(st).(n := a.n);
    }
    AttemptFromCheckpoint(st, p, s, q, seen, a);
  }

  lemma WholeGroup(st: Rx, g: Group, s: Sink, q: byte)
    requires GoodGroup(g) && g.p.n != st.lastN && Between(st, s, q)
    ensures var st' := Run(st, g.attempts);
            && Between(st', GroupSink(q, s, g.p, g.attempts), GroupQuote(q, g.p, g.attempts))
            && st'.lastN == g.p.n
  {
    hide Decode, SomeAccepted, Step, QuoteOf;
    var a, tail := g.attempts[0], g.attempts[1..];
    assert !SomeAccepted([]) by { NoneAccepted(); }
    AttemptFromCheckpoint(st, g.p, s, q, [], a);
    assert [] + [a] == [a];
    RestOfGroup(Step(st, a), g.p, s, q, [a], tail);
    assert [a] + tail == g.attempts;
  }

  lemma NoneAccepted()
    ensures !SomeAccepted([])
  {}

  /** Delivery. Take any sequence of packets, consecutive ones numbered
      differently, each arriving as any mixture of rejected attempts and accepted
      duplicates. Memory below the write position then holds exactly the decoded
      data of the packets whose last attempt was accepted, each once, in order. */
  lemma {:induction false} RunDelivers(st: Rx, gs: seq<Group>, s: Sink, q: byte)
    requires GoodGroups(st.lastN, gs) && Between(st, s, q)
    ensures Sound(Run(st, AllAttempts(gs)))
    ensures View(Run(st, AllAttempts(gs))) == Received(q, s, gs)
    decreases |gs|
  {
    hide Decode, SomeAccepted, Step, QuoteOf, GroupSink, GroupQuote, GoodGroup;
    if gs != [] {
      var g := gs[0];
      WholeGroup(st, g, s, q);
      RunAppend(st, g.attempts, AllAttempts(gs[1..]));
      RunDelivers(Run(st, g.attempts), gs[1..], GroupSink(q, s, g.p, g.attempts), GroupQuote(q, g.p, g.attempts));
    }
  }

  /** With every packet's last attempt accepted, nothing is lost or doubled. */
  predicate AllDelivered(gs: seq<Group>) {
    forall g <- gs :: LastAccepted(g.attempts)
  }

  function AllData(gs: seq<Group>): seq<byte> {
    if gs == [] then [] else (if gs[0].p.typ == DATA_TYPE then gs[0].p.data else []) + AllData(gs[1..])
  }

  lemma {:induction false} DecodeAppend(q: byte, s: Sink, d: seq<byte>, e: seq<byte>)
    ensures Decode(q, s, d + e) == Decode(q, Decode(q, s, d), e)
    decreases |d|
  {
    if d == [] {
      assert d + e == e;
    } else {
      assert (d + e)[1..] == d[1..] + e;
      var s1 := if s.escape then Sink(s.bytes + [Ktrans(d[0])], false)
                else if d[0] == q then Sink(s.bytes, true) else Sink(s.bytes + [d[0]], false);
      DecodeAppend(q, s1, d[1..], e);
    }
  }

  /** How the sender split the data into packets does not matter. */
  lemma {:induction false} ReceivedIsDecodedStream(q: byte, s: Sink, gs: seq<Group>)
    requires AllDelivered(gs) && forall g <- gs :: g.p.typ != SEND_TYPE
    ensures Received(q, s, gs) == Decode(q, s, AllData(gs))
    decreases |gs|
  {
    if gs != [] {
      hide Decode, SomeAccepted;
      var d := if gs[0].p.typ == DATA_TYPE then gs[0].p.data else [];
      NothingToDecode(q, s);
      DecodeAppend(q, s, d, AllData(gs[1..]));
      ReceivedIsDecodedStream(q, Decode(q, s, d), gs[1..]);
    }
  }

  lemma NothingToDecode(q: byte, s: Sink)
    ensures Decode(q, s, []) == s
  {}

  /** The exception the source admits to: a bad length or sequence character after
      an accepted data packet throws that packet away, and the next number is then
      checkpointed without it. */
  lemma BadHeaderLosesPacket(st: Rx, p: Packet, next: byte)
    requires Sound(st) && p.typ == DATA_TYPE && p.n != st.lastN && next != p.n
    ensures var st' := Run(st, [Attempt(p.n, p.typ, p.data, Accepted), NoHeader(Rejected)]);
            && Sound(st') && View(st') == View(st)
            && View(Sequence(st', next)) == View(st)
  {
    var g := Group(p, [Attempt(p.n, p.typ, p.data, Accepted), NoHeader(Rejected)]);
    WholeGroup(st, g, View(st), st.quote);
  }
}
