/** The packet handler of the fastboot protocol with its variables and its transfer
    buffer (common/cmd_fastboot.c), proved against the machine in Fastboot. */
module FastbootHandler {
  import opened CText
  import opened FastbootEnv
  import opened FastbootEnvText
  import opened Fastboot

  /** memcpy into a buffer. */
  method CopyInto(buff: array<char8>, at: nat, data: seq<char8>)
    requires at + |data| <= buff.Length
    modifies buff
    ensures buff[..] == Over(old(buff[..]), at, data)
  {
    for i := 0 to |data|
      invariant buff[..at] == old(buff[..at]) && buff[at..at + i] == data[..i]
      invariant buff[at + i..] == old(buff[at + i..])
    {
      buff[at + i] := data[i];
    }
    assert buff[..] == buff[..at] + buff[at..at + |data|] + buff[at + |data|..];
  }

  /** The variables of the handler, the replies it has sent, and what has happened. */
  class Handler {
    const board: Board
    const transferBuffer: array<char8>
    var downloadSize: u32
    var downloadBytes: u32
    var downloadError: u32
    var sent: seq<string>
    ghost var notes: seq<Note>

    constructor (board: Board)
      requires ValidBoard(board)
      ensures Valid() && Abs().size == Abs().bytes == 0 && sent == [] && notes == []
      ensures this.board == board && fresh(transferBuffer)
    {
      this.board := board;
      transferBuffer := new char8[board.capacity + 1];
      downloadSize, downloadBytes, downloadError, sent, notes := 0, 0, 0, [], [];
    }

    /** What has happened is a right history, and the variables say how it stands. */
    ghost predicate Valid()
      reads this, transferBuffer
    {
      Shaped() && Stands(Abs(), Follow(Idle, notes))
    }

    ghost predicate Shaped()
      reads this, transferBuffer
    {
      downloadError == 0 && Good(board, Abs())
    }

    ghost function Abs(): State
      reads this, transferBuffer
    {
      State(downloadSize, downloadBytes, transferBuffer[..])
    }

    /** reset_handler */
    method ResetHandler()
      requires Valid()
      modifies this
      ensures Valid() && Abs() == Step(board, old(Abs()), Reset).state && sent == old(sent)
      ensures notes == old(notes) + Step(board, old(Abs()), Reset).notes
    {
      StepFollows(board, Abs(), Follow(Idle, notes), Reset);
      FollowBoth(Idle, notes, [Cleared]);
      downloadSize, downloadBytes, downloadError := 0, 0, 0;
      notes := notes + [Cleared];
    }

    /** rx_handler. */
    method RxHandler(buffer: seq<char8>)
      requires Valid()
      modifies this, transferBuffer
      ensures Valid() && Abs() == Step(board, old(Abs()), Packet(buffer)).state
      ensures sent == old(sent) + Step(board, old(Abs()), Packet(buffer)).replies
      ensures notes == old(notes) + Step(board, old(Abs()), Packet(buffer)).notes
    {
      hide Data, Command, Follow, Stands;
      StepFollows(board, Abs(), Follow(Idle, notes), Packet(buffer));
      FollowBoth(Idle, notes, Step(board, Abs(), Packet(buffer)).notes);
      if downloadSize != 0 {
        if buffer != [] {
          Receive(buffer);
        } else {
          Ignored(Abs());
          assert sent + [] == sent && notes + [] == notes;
        }
      } else {
        DoCommand(buffer);
      }
    }

    lemma Ignored(s: State)
      requires s.bytes < s.size < |s.buffer|
      ensures Data(s, []) == Result(s, [], [])
    {}

    method Receive(buffer: seq<char8>)
      requires Shaped() && downloadSize != 0 && buffer != []
      modifies this, transferBuffer
      ensures Shaped() && Abs() == Data(old(Abs()), buffer).state
      ensures sent == old(sent) + Data(old(Abs()), buffer).replies
      ensures notes == old(notes) + Data(old(Abs()), buffer).notes
    {
      var transferSize := downloadSize - downloadBytes;
      if |buffer| < transferSize {
        transferSize := |buffer|;
      }
      CopyInto(transferBuffer, downloadBytes, buffer[..transferSize]);
      downloadBytes := downloadBytes + transferSize;
      if downloadBytes >= downloadSize {
        downloadSize := 0;
        sent := sent + [if downloadError != 0 then "ERROR" else "OKAY"];
        notes := notes + [Received(buffer), Completed];
      } else {
        notes := notes + [Received(buffer)];
      }
    }

    method DoCommand(cmd: seq<char8>)
      requires Shaped() && downloadSize == 0
      modifies this, transferBuffer
      ensures Shaped() && Abs() == Command(board, old(Abs()), cmd).state
      ensures sent == old(sent) + Command(board, old(Abs()), cmd).replies
      ensures notes == old(notes) + Command(board, old(Abs()), cmd).notes
    {
      hide Flash, Boot, Download, Magic;
      assert notes + [] == notes;
      if Starts(cmd, "reboot") {
        Reboot(cmd);
      } else if Starts(cmd, "download:") {
        StartDownload(cmd);
      } else if Starts(cmd, "boot") {
        DoBoot(cmd);
      } else if Starts(cmd, "flash:") {
        DoFlash(cmd);
      } else {
        sent := sent + board.others(cmd);
        assert notes + [] == notes;
      }
    }

    /** Leaves word for the next start, and resets the processor. */
    method Reboot(cmd: seq<char8>)
      requires Shaped() && Starts(cmd, "reboot")
      modifies this, transferBuffer
      ensures Shaped() && Abs() == State(0, 0, Over(old(transferBuffer[..]), 0, Magic(cmd)))
      ensures sent == old(sent) + ["OKAY"] && notes == old(notes) + [Cleared]
    {
      hide Magic, Over;
      CopyInto(transferBuffer, 0, Magic(cmd));
      downloadSize, downloadBytes := 0, 0;
      sent, notes := sent + ["OKAY"], notes + [Cleared];
    }

    method StartDownload(cmd: seq<char8>)
      requires Shaped() && downloadSize == 0 && |cmd| >= 9
      modifies this
      ensures var r := Download(board, Strtoul(cmd[9..], 16).0, transferBuffer[..]);
              Shaped() && Abs() == r.state && sent == old(sent) + r.replies && notes == old(notes) + r.notes
    {
      var endp;
      downloadSize, endp := SimpleStrtoul(cmd[9..], 16);
      downloadBytes, downloadError := 0, 0;
      var response;
      if downloadSize == 0 {
        response := "FAILdata invalid size";
      } else if downloadSize > board.capacity {
        downloadSize := 0;
        response := "FAILdata too large";
      } else {
        response := "DATA" + Hex8(downloadSize);
      }
      sent := sent + [response];
      notes := notes + [if downloadSize == 0 then Refused else Started(downloadSize)];
    }

    /** Copies what the header announces to where it is started. */
    method DoBoot(cmd: seq<char8>)
      requires Shaped()
      modifies this`sent, this`notes
      ensures Abs() == Boot(Abs(), cmd).state && sent == old(sent) + Boot(Abs(), cmd).replies
      ensures notes == old(notes) + Boot(Abs(), cmd).notes
    {
      hide BootSpans;
      assert notes + [] == notes;
      if downloadBytes != 0 && PAGE_SIZE < downloadBytes {
        sent := sent + ["OKAY"];
        notes := notes + [Used(cmd, BootSpans(transferBuffer[..]))];
      }
      sent := sent + ["FAILinvalid boot image"];
    }

    method DoFlash(cmd: seq<char8>)
      requires Shaped() && downloadSize == 0 && |cmd| >= 6
      modifies this, transferBuffer
      ensures Shaped() && Abs() == Flash(board, old(Abs()), cmd).state
      ensures sent == old(sent) + Flash(board, old(Abs()), cmd).replies
      ensures notes == old(notes) + Flash(board, old(Abs()), cmd).notes
    {
      hide SaveEnv, Take, FlashBoot;
      assert notes + [] == notes;
      var name := NameIn(cmd, 6);
      var response;
      if downloadBytes == 0 {
        response := "FAILno image downloaded";
      } else if name == "boot" {
        response := WriteBoot(cmd);
      } else if name !in board.parts {
        response := "FAILpartition does not exist";
      } else if downloadBytes > board.parts[name].length && board.parts[name].length != 0
                && !board.parts[name].saveenv {
        response := "FAILimage too large for partition";
      } else if board.parts[name].saveenv {
        var settings;
        ghost var text := transferBuffer[..downloadBytes];
        response, settings := SaveEnvToPtn(transferBuffer, downloadBytes);
        notes := notes + [Saved(text, transferBuffer[..downloadBytes], settings)];
      } else {
        response := if board.works(name, 0, downloadBytes, transferBuffer[..]) then "OKAY"
                    else "FAILfailed to flash partition";
        ghost var taken := board.taken(name, 0, downloadBytes, transferBuffer[..]);
        notes := notes + [Used(cmd, [Take(transferBuffer[..], 0, taken)])];
      }
      sent := sent + [response];
    }

    static lemma Listed(spans: seq<Span>)
      ensures forall a, b :: spans + [a] + [b] == spans + [a, b]
    {
      forall a: Span, b: Span ensures spans + [a] + [b] == spans + [a, b] {
        assert [a] + [b] == [a, b];
      }
    }

    /** Kernel and ramdisk to their partitions, with the sizes of the header. */
    method WriteBoot(cmd: seq<char8>) returns (response: string)
      requires Shaped() && downloadSize == 0
      modifies this`notes
      ensures Abs() == FlashBoot(board, Abs(), cmd).state && [response] == FlashBoot(board, Abs(), cmd).replies
      ensures notes == old(notes) + FlashBoot(board, Abs(), cmd).notes
    {
      hide Take, KernelSize, RamdiskSize;
      var buffer := transferBuffer[..];
      var kernelSize, ramdiskSize := KernelSize(buffer), RamdiskSize(buffer);
      ghost var spans := Header(buffer);
      Listed(spans);
      var ptn := board.parts["kernel"];
      if ptn.length != 0 && kernelSize > ptn.length {
        notes := notes + [Used(cmd, spans)];
        return "FAILimage too large for partition";
      }
      var ok := board.works("kernel", PAGE_SIZE, kernelSize, buffer);
      spans := spans + [Take(buffer, PAGE_SIZE, board.taken("kernel", PAGE_SIZE, kernelSize, buffer))];
      var at := RamdiskAt(kernelSize);
      ptn := board.parts["ramdisk"];
      if ptn.length != 0 && ramdiskSize > ptn.length {
        notes := notes + [Used(cmd, spans)];
        return "FAILimage too large for partition";
      }
      ok := board.works("ramdisk", at, ramdiskSize, buffer) && ok;
      spans := spans + [Take(buffer, at, board.taken("ramdisk", at, ramdiskSize, buffer))];
      notes := notes + [Used(cmd, spans)];
      response := if ok then "OKAY" else "FAILfailed to flash partition";
    }
  }
}
