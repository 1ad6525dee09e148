/** Kermit control quoting, and whole file transfers: what a sender quotes, splits
    into packets and transmits, k_recv (common/cmd_load.c) puts into memory. */
module KermitFile {
  import opened Octets
  import opened KermitPacket
  import opened KermitCheck
  import opened KermitReceiver
  import opened KermitSession

  // ----------------------------------------------------------------- quoting

  /** The quote characters a sender may choose: "Kermit Protocol Manual", sixth
      edition, section "Initial Connection", field QCTL. */
  predicate LegalQuote(q: byte) {
    33 <= q <= 62 || 96 <= q <= 126
  }

  /** Characters whose low seven bits are a control character or DEL. */
  predicate IsControl7(b: byte) {
    b % 128 < 32 || b % 128 == 127
  }

  /** The manual's ctl(): bit 6 is toggled. */
  function Ctl(b: byte): byte {
    if (b / 64) % 2 == 0 then b + 64 else b - 64
  }

  /** Control characters are quoted and made printable; the quote character, with
      or without its high bit, is quoted as it is. */
  function EncodeByte(q: byte, b: byte): seq<byte> {
    if IsControl7(b) then [q, Ctl(b)]
    else if b % 128 == q % 128 then [q, b]
    else [b]
  }

  function Encode(q: byte, file: seq<byte>): seq<byte> {
    if file == [] then [] else EncodeByte(q, file[0]) + Encode(q, file[1..])
  }

  /** The fields of a byte with high bit t and low seven bits l. */
  lemma HighAndLow(b: byte, t: nat, l: nat)
    requires b == 128 * t + l && l < 128
    ensures b % 128 == l && (b / 64) % 2 == l / 64 && (b / 32) % 4 == l / 32
  {
    assert b / 64 == 2 * t + l / 64 && b / 32 == 4 * t + l / 32;
  }

  /** ktrans undoes both kinds of quoting, for every byte and legal quote. */
  lemma KtransUndoesQuoting(q: byte, b: byte)
    requires LegalQuote(q)
    ensures IsControl7(b) ==> Ktrans(Ctl(b)) == b
    ensures !IsControl7(b) && b % 128 == q % 128 ==> Ktrans(b) == b
  {
    var t, l := b / 128, b % 128;
    HighAndLow(b, t, l);
    if l < 32 {
      HighAndLow(b + 64, t, l + 64);
    } else if l == 127 {
      HighAndLow(b - 64, t, 63);
    }
  }

  lemma ByteDecodes(q: byte, s: Sink, b: byte, rest: seq<byte>)
    requires LegalQuote(q) && !s.escape
    ensures Decode(q, s, EncodeByte(q, b) + rest) == Decode(q, Sink(s.bytes + [b], false), rest)
  {
    KtransUndoesQuoting(q, b);
    var d := EncodeByte(q, b) + rest;
    if |EncodeByte(q, b)| == 2 {
      assert d[1..][1..] == rest;
    } else {
      assert d[1..] == rest;
    }
  }

  /** Decoding inverts quoting, whatever was received before. */
  lemma {:induction false} QuotingDecodes(q: byte, s: Sink, file: seq<byte>)
    requires LegalQuote(q) && !s.escape
    ensures Decode(q, s, Encode(q, file)) == Sink(s.bytes + file, false)
    decreases |file|
  {
    hide EncodeByte;
    if file == [] {
      assert s.bytes + file == s.bytes;
    } else {
      ByteDecodes(q, s, file[0], Encode(q, file[1..]));
      QuotingDecodes(q, Sink(s.bytes + [file[0]], false), file[1..]);
      assert s.bytes + [file[0]] + file[1..] == s.bytes + file;
    }
  }

  /** Quoted data has no character that k_recv takes for an error. */
  lemma {:induction false} QuotedIsPrinting(q: byte, file: seq<byte>)
    requires LegalQuote(q)
    ensures Printing(Encode(q, file))
    decreases |file|
  {
    if file != [] {
      QuotedIsPrinting(q, file[1..]);
    }
  }

  // --------------------------------------------------------------- transfers

  /** A transfer opened by a send-init packet: with every packet delivered in the
      end, memory holds the file, however its quoted form was split into packets
      and whatever went wrong on the way. */
  lemma {:induction false} FileArrives(gs: seq<Group>, file: seq<byte>)
    requires gs != [] && gs[0].p.typ == SEND_TYPE && forall g <- gs[1..] :: g.p.typ != SEND_TYPE
    requires GoodGroups(-1, gs) && AllDelivered(gs)
    requires var q := QuoteOf(gs[0].p.data); LegalQuote(q) && AllData(gs) == Encode(q, file)
    ensures var st := Run(INIT, AllAttempts(gs)); Sound(st) && View(st) == Sink(file, false)
  {
    hide Decode, Step, Encode;
    var q := QuoteOf(gs[0].p.data);
    RunDelivers(INIT, gs, Sink([], false), K_ESCAPE);
    assert LastAccepted(gs[0].attempts);
    assert SomeAccepted(gs[0].attempts);
    ReceivedIsDecodedStream(q, Sink([], false), gs[1..]);
    assert AllData(gs) == AllData(gs[1..]);
    QuotingDecodes(q, Sink([], false), file);
    assert [] + file == file;
  }

  // -------------------------------------------------------------- clean lines

  predicate Sendable(p: Packet) {
    p.n < 224 && |p.data| + 1 < 224 * 95 && !Control(p.typ) && Printing(p.data)
  }

  function Line(ps: seq<Packet>): seq<byte>
    requires forall i :: 0 <= i < |ps| ==> Sendable(ps[i])
  {
    if ps == [] then [] else
      assert Sendable(ps[0]);
      Frame(ps[0].n, ps[0].typ, ps[0].data) + Line(ps[1..])
  }

  function Single(p: Packet): Group {
    Group(p, [Attempt(p.n, p.typ, p.data, Accepted)])
  }

  function Singles(ps: seq<Packet>): seq<Group> {
    if ps == [] then [] else [Single(ps[0])] + Singles(ps[1..])
  }

  predicate Numbered(last: int, ps: seq<Packet>)
    decreases |ps|
  {
    ps != [] ==> ps[0].n != last && Numbered(ps[0].n, ps[1..])
  }

  /** The break packet comes last. */
  predicate BreakLast(ps: seq<Packet>) {
    forall i :: 0 <= i < |ps| ==> (ps[i].typ == BREAK_TYPE <==> i == |ps| - 1)
  }

  /** On a clean line, k_recv sees each packet accepted once. */
  lemma {:induction false} CleanAttempts(ps: seq<Packet>)
    requires (forall i :: 0 <= i < |ps| ==> Sendable(ps[i])) && BreakLast(ps)
    ensures Attempts(Line(ps)) == AllAttempts(Singles(ps))
  {
    hide Frame, ScanPacket;
    if ps != [] {
      var p, rest := ps[0], Line(ps[1..]);
      var s := Frame(p.n, p.typ, p.data) + rest;
      FrameScans(p.n, p.typ, p.data, rest);
      FrameStarts(p.n, p.typ, p.data);
      assert s[1..] == Frame(p.n, p.typ, p.data)[1..] + rest;
      assert FirstMark(s) == 0;
      var a := Attempt(p.n, p.typ, p.data, Accepted);
      assert Singles(ps)[0].attempts == [a] && Singles(ps)[1..] == Singles(ps[1..]);
      if |ps| > 1 {
        CleanAttempts(ps[1..]);
        assert !Ends(a);
      } else {
        assert Ends(a) && Singles(ps[1..]) == [];
        assert [a] + [] == [a];
      }
    }
  }

  lemma FrameStarts(n: byte, typ: byte, data: seq<byte>)
    requires n < 224 && |data| + 1 < 224 * 95
    ensures |Frame(n, typ, data)| > 0 && Frame(n, typ, data)[0] == START_CHAR
  {}

  lemma {:induction false} SinglesAreGood(last: int, ps: seq<Packet>)
    requires Numbered(last, ps)
    ensures GoodGroups(last, Singles(ps)) && |Singles(ps)| == |ps|
    ensures forall i :: 0 <= i < |ps| ==> Singles(ps)[i] == Single(ps[i])
    decreases |ps|
  {
    if ps != [] {
      SinglesAreGood(ps[0].n, ps[1..]);
      assert Singles(ps)[1..] == Singles(ps[1..]);
    }
  }

  lemma {:induction false} SinglesEnd(st: Rx, ps: seq<Packet>)
    requires !st.done && ps != [] && BreakLast(ps)
    ensures Run(st, AllAttempts(Singles(ps))).done
    decreases |ps|
  {
    hide Step;
    var a := Attempt(ps[0].n, ps[0].typ, ps[0].data, Accepted);
    StepDone(st, a);
    assert Singles(ps)[0].attempts == [a] && Singles(ps)[1..] == Singles(ps[1..]);
    RunAppend(st, [a], AllAttempts(Singles(ps[1..])));
    RunEmpty(Step(st, a));
    if |ps| > 1 {
      SinglesEnd(Step(st, a), ps[1..]);
    }
  }

  /** The characters of a whole transfer (send-init, data among other packets,
      break) on a clean line: k_recv returns the size of the file and leaves the
      file at the start address. */
  method CleanTransfer(ps: seq<Packet>, file: seq<byte>) returns (r: Ending, mem: seq<byte>)
    requires ps != [] && (forall i :: 0 <= i < |ps| ==> Sendable(ps[i])) && BreakLast(ps) && Numbered(-1, ps)
    requires ps[0].typ == SEND_TYPE && forall i :: 0 < i < |ps| ==> ps[i].typ != SEND_TYPE
    requires LegalQuote(QuoteOf(ps[0].data)) && AllData(Singles(ps)) == Encode(QuoteOf(ps[0].data), file)
    ensures |file| <= |mem| && mem[..|file|] == file
    ensures r == Finished(|file|)
  {
    hide Line, Encode, Attempts, Step, Frame;
    CleanAttempts(ps);
    SinglesAreGood(-1, ps);
    FileArrives(Singles(ps), file);
    SinglesEnd(INIT, ps);
    var receiver := new Receiver();
    r := receiver.KRecv(Line(ps));
    mem := receiver.mem;
  }
}
