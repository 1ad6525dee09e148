/** k_recv itself (common/cmd_load.c), reading characters from the line, with the
    globals it updates. */
module KermitSession {
  import opened Octets
  import opened KermitPacket
  import opened KermitCheck
  import opened KermitReceiver

  const SEND_DATA_SIZE: nat := 20

  // -------------------------------------------- the attempts a line delivers

  /** Where the wait for a packet ends: at a start character or ^C, or nowhere. */
  function FirstMark(s: seq<byte>): (k: nat)
    ensures k <= |s|
    ensures k < |s| ==> s[k] == START_CHAR || s[k] == ETX_CHAR
    ensures forall i :: 0 <= i < k ==> s[i] != START_CHAR && s[i] != ETX_CHAR
  {
    if s == [] || s[0] == START_CHAR || s[0] == ETX_CHAR then 0 else 1 + FirstMark(s[1..])
  }

  predicate Ends(a: Attempt) {
    a.Attempt? && a.typ == BREAK_TYPE && a.outcome == Accepted
  }

  /** All attempts on a line, up to the break packet or ^C that ends the transfer. */
  function Attempts(s: seq<byte>): seq<Attempt>
    decreases |s|
  {
    var k := FirstMark(s);
    if k == |s| || s[k] == ETX_CHAR then []
    else
      ScanShrinks(s[k + 1..]);
      var sc := ScanPacket(s[k + 1..]);
      if Ends(sc.a) then [sc.a] else [sc.a] + Attempts(sc.rest)
  }

  /** How the call ends: with a size, with 0 after ^C, or still waiting. */
  datatype Ending = Finished(size: nat) | Interrupted | Waiting

  class Receiver {
    var mem: seq<byte>
    var osDataAddr: nat
    var osDataAddrSaved: nat
    var kDataEscape: bool
    var kDataEscapeSaved: bool
    var lastN: int
    var n: byte
    var hisQuote: byte
    var hisEol: byte
    var done: bool
    var sent: seq<seq<byte>>
    const sendParms: array<byte>
    var sendPtr: nat

    constructor ()
      ensures Abs() == INIT && sendParms.Length == SEND_DATA_SIZE && fresh(sendParms)
    {
      mem, osDataAddr, osDataAddrSaved := [], 0, 0;
      kDataEscape, kDataEscapeSaved := false, false;
      lastN, n, hisQuote, hisEol, done, sent := -1, 0, K_ESCAPE, END_CHAR, false, [];
      sendParms := new byte[SEND_DATA_SIZE];
      sendPtr := 0;
    }

    ghost function Abs(): Rx
      reads this
    {
      Rx(mem, osDataAddr, kDataEscape, osDataAddrSaved, kDataEscapeSaved, lastN, n, hisQuote, hisEol, done, sent)
    }

    method BinDataChar(c: byte)
      modifies this`mem, this`osDataAddr
      ensures Abs() == Write(old(Abs()), c)
    {
      if osDataAddr < |mem| {
        mem := mem[osDataAddr := c];
      } else {
        mem := mem + [c];
      }
      osDataAddr := osDataAddr + 1;
    }

    method KDataChar(c: byte)
      modifies this`mem, this`osDataAddr, this`kDataEscape
      ensures Abs() == DataChar(old(Abs()), c)
    {
      if kDataEscape {
        BinDataChar(Ktrans(c));
        kDataEscape := false;
      } else if c == hisQuote {
        kDataEscape := true;
      } else {
        BinDataChar(c);
      }
    }

    method KDataSave()
      modifies this`osDataAddrSaved, this`kDataEscapeSaved
      ensures Abs() == Save(old(Abs()))
    {
      osDataAddrSaved, kDataEscapeSaved := osDataAddr, kDataEscape;
    }

    method KDataRestore()
      modifies this`osDataAddr, this`kDataEscape
      ensures Abs() == Restore(old(Abs()))
    {
      osDataAddr, kDataEscape := osDataAddrSaved, kDataEscapeSaved;
    }

    /** send_parms holds the parameter characters seen, the last cell the latest. */
    ghost predicate Params(data: seq<byte>)
      reads this`sendPtr, sendParms
    {
      && sendParms.Length == SEND_DATA_SIZE
      && sendPtr == (if |data| < 19 then |data| else 19)
      && forall i :: 0 <= i < sendPtr ==> sendParms[i] == data[i]
    }

    method SaveParam(ghost data: seq<byte>, c: byte)
      requires Params(data)
      modifies this`sendPtr, sendParms
      ensures Params(data + [c])
    {
      sendParms[sendPtr] := c;
      sendPtr := sendPtr + 1;
      if sendPtr >= SEND_DATA_SIZE {
        sendPtr := sendPtr - 1;
      }
    }

    /** The data loop, block check and end character of a packet. */
    method ReadData(s: seq<byte>, typ: byte, len: int, sum0: nat) returns (outcome: Outcome, rest: seq<byte>)
      requires Params([])
      modifies this`mem, this`osDataAddr, this`kDataEscape, this`sendPtr, sendParms
      ensures var sc := ScanData(s, n, typ, [], len, sum0);
              && outcome == sc.a.outcome && rest == sc.rest
              && Abs() == (if typ == DATA_TYPE then Feed(old(Abs()), sc.a.data) else old(Abs()))
              && (typ == SEND_TYPE ==> Params(sc.a.data))
    {
      hide DataChar, ScanEnd;
      var length: int := len;
      var sum: nat := sum0;
      ghost var data: seq<byte> := [];
      ghost var st := Abs();
      rest := s;
      while length > 1
        invariant ScanData(s, n, typ, [], len, sum0) == ScanData(rest, n, typ, data, length, sum)
        invariant Abs() == if typ == DATA_TYPE then Feed(st, data) else st
        invariant if typ == SEND_TYPE then Params(data) else Params([])
        decreases |rest|
      {
        if rest == [] {
          return Cut, rest;
        }
        var c := rest[0];
        rest := rest[1..];
        if Control(c) {
          return Rejected, rest;
        }
        sum := sum + c;
        length := length - 1;
        if typ == DATA_TYPE {
          FeedSnoc(st, data, c);
          KDataChar(c);
        } else if typ == SEND_TYPE {
          SaveParam(data, c);
        }
        data := data + [c];
      }
      outcome, rest := ReadEnd(rest, typ, data, sum);
    }

    method ReadEnd(s: seq<byte>, ghost typ: byte, ghost data: seq<byte>, sum: nat)
      returns (outcome: Outcome, rest: seq<byte>)
      ensures Scan(Attempt(n, typ, data, outcome), rest) == ScanEnd(s, n, typ, data, sum)
    {
      if s == [] {
        return Cut, [];
      } else if Control(s[0]) || s[0] != ToChar(Check(sum)) {
        return Rejected, s[1..];
      } else if |s| == 1 {
        return Cut, [];
      } else if s[1] != END_CHAR {
        return Rejected, s[2..];
      }
      return Accepted, s[2..];
    }

    /** The extended header, then the rest. */
    method ReadLong(s: seq<byte>, typ: byte, sum0: nat) returns (outcome: Outcome, rest: seq<byte>)
      requires Params([])
      modifies this`mem, this`osDataAddr, this`kDataEscape, this`sendPtr, sendParms
      ensures var sc := ScanLong(s, n, typ, sum0);
              && outcome == sc.a.outcome && rest == sc.rest
              && Abs() == (if typ == DATA_TYPE then Feed(old(Abs()), sc.a.data) else old(Abs()))
              && (typ == SEND_TYPE ==> Params(sc.a.data))
    {
      hide ScanData, Check;
      if s == [] {
        return Cut, [];
      } else if Control(s[0]) {
        return Rejected, s[1..];
      } else if |s| == 1 {
        return Cut, [];
      } else if Control(s[1]) {
        return Rejected, s[2..];
      } else if |s| == 2 {
        return Cut, [];
      }
      var sum := sum0 + s[0] + s[1];
      var lenHi: int, lenLo: int := UnChar(s[0]), UnChar(s[1]);
      if Control(s[2]) || s[2] != ToChar(Check(sum)) {
        return Rejected, s[3..];
      }
      outcome, rest := ReadData(s[3..], typ, lenHi * 95 + lenLo, sum + s[2]);
    }

    /** handle_send_packet. */
    method HandleSendPacket(ghost data: seq<byte>)
      requires Params(data)
      modifies this`hisEol, this`hisQuote, this`sent, this`sendPtr
      ensures Abs() == SendPacket(old(Abs()), data)
    {
      hide SendReply;
      hisEol, hisQuote := END_CHAR, K_ESCAPE;
      if sendPtr == SEND_DATA_SIZE - 1 {
        sendPtr := sendPtr - 1;
      }
      var bytes := sendPtr;
      if bytes >= 5 {
        hisEol := UnChar(sendParms[4]);
      }
      if bytes >= 6 {
        hisQuote := sendParms[5];
      }
      var reply := BuildSendReply(n, bytes, hisEol);
      sent := sent + [reply];
    }

    /** From the packet_error label, or from an accepted packet, to the next turn. */
    method EndOfPacket(typ: byte, ghost data: seq<byte>, outcome: Outcome)
      requires typ == SEND_TYPE && outcome == Accepted ==> Params(data)
      modifies this
      ensures Abs() == Finish(old(Abs()), typ, data, outcome)
    {
      hide SimpleReply, SendReply;
      match outcome
      case Cut =>
      case Rejected =>
        KDataRestore();
        sent := sent + [SimpleReply(n, NACK_TYPE, hisEol)];
      case Accepted =>
        if typ == SEND_TYPE {
          HandleSendPacket(data);
        } else {
          sent := sent + [SimpleReply(n, ACK_TYPE, hisEol)];
          done := typ == BREAK_TYPE;
        }
    }

    /** From the START label of k_recv to the end of the turn. */
    method ReceivePacket(s: seq<byte>) returns (rest: seq<byte>)
      requires sendParms.Length == SEND_DATA_SIZE
      modifies this, sendParms
      ensures Abs() == Step(old(Abs()), ScanPacket(s).a) && rest == ScanPacket(s).rest
    {
      hide Finish, ScanLong, ScanData, Feed, SimpleReply;
      sendPtr := 0;
      if s == [] {
        return [];
      } else if Control(s[0]) {
        KDataRestore();
        sent := sent + [SimpleReply(n, NACK_TYPE, hisEol)];
        return s[1..];
      } else if |s| == 1 {
        return [];
      } else if Control(s[1]) {
        KDataRestore();
        sent := sent + [SimpleReply(n, NACK_TYPE, hisEol)];
        return s[2..];
      }
      var length, sum := UnChar(s[0]) - 1, s[0] as int + s[1];
      n := UnChar(s[1]);
      if n == lastN {
        KDataRestore();
      } else {
        lastN := n;
        KDataSave();
      }
      assert Abs() == Sequence(old(Abs()), n);
      rest := ReceiveBody(s[2..], length, sum);
    }

    /** From the packet type on. */
    method ReceiveBody(s: seq<byte>, length: int, sum: nat) returns (rest: seq<byte>)
      requires Params([])
      modifies this, sendParms
      ensures var sc := ScanType(s, n, length, sum);
              && n == old(n) && rest == sc.rest && sc.a.Attempt?
              && var st1 := if sc.a.typ == DATA_TYPE then Feed(old(Abs()), sc.a.data) else old(Abs());
              Abs() == Finish(st1, sc.a.typ, sc.a.data, sc.a.outcome)
    {
      hide ScanLong, ScanData, Feed;
      ghost var sc := ScanType(s, n, length, sum);
      if s == [] {
        return [];
      } else if Control(s[0]) {
        EndOfPacket(0, [], Rejected);
        return s[1..];
      }
      var typ := s[0];
      var outcome;
      if length - 1 == -2 {
        outcome, rest := ReadLong(s[1..], typ, sum + typ);
      } else {
        outcome, rest := ReadData(s[1..], typ, length - 1, sum + typ);
      }
      EndOfPacket(typ, sc.a.data, outcome);
    }

    method KRecv(input: seq<byte>) returns (r: Ending)
      requires Abs() == INIT && sendParms.Length == SEND_DATA_SIZE
      modifies this, sendParms
      ensures Abs() == Run(INIT, Attempts(input))
      ensures r.Finished? <==> done
      ensures r.Finished? ==> r.size == osDataAddr
    {
      hide Step, ScanPacket;
      var s := input;
      RunEmpty(INIT);
      while !done
        invariant done ==> Run(INIT, Attempts(input)) == Abs()
        invariant !done ==> Run(INIT, Attempts(input)) == Run(Abs(), Attempts(s))
        decreases |s|, !done
      {
        var k := FirstMark(s);
        if k == |s| {
          return Waiting;
        } else if s[k] == ETX_CHAR {
          return Interrupted;
        }
        ghost var st, a := Abs(), ScanPacket(s[k + 1..]).a;
        ScanShrinks(s[k + 1..]);
        StepDone(st, a);
        s := ReceivePacket(s[k + 1..]);
        RunEmpty(Abs());
      }
      r := Finished(osDataAddr);
    }
  }

  lemma RunEmpty(st: Rx)
    ensures Run(st, []) == st
  {}

  lemma StepDone(st: Rx, a: Attempt)
    requires !st.done
    ensures Step(st, a).done <==> Ends(a)
  {
    hide SimpleReply, SendReply, Feed;
    if a.Attempt? && a.typ == DATA_TYPE {
      FeedKeepsDone(Sequence(st, a.n), a.data);
    }
  }

  lemma {:induction false} FeedKeepsDone(st: Rx, data: seq<byte>)
    ensures Feed(st, data).done == st.done
    decreases |data|
  {
    if data != [] {
      FeedKeepsDone(DataChar(st, data[0]), data[1..]);
    }
  }

  lemma {:induction false} FeedSnoc(st: Rx, data: seq<byte>, c: byte)
    ensures Feed(st, data + [c]) == DataChar(Feed(st, data), c)
    decreases |data|
  {
    if data == [] {
      assert [] + [c] == [c];
    } else {
      assert (data + [c])[1..] == data[1..] + [c];
      FeedSnoc(DataChar(st, data[0]), data[1..], c);
    }
  }
}
