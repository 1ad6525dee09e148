/** The download and flash machine of the fastboot protocol (common/cmd_fastboot.c). */
module Fastboot {
  import opened CText
  import opened FastbootEnv
  import opened FastbootEnvText

  const PAGE_SIZE: nat := 2048

  datatype Part = Part(length: u32, saveenv: bool)

  /** The transfer buffer's size and the partition table. A partition's driver is handed
      a place in the buffer and a size: `taken` says how many bytes it takes from there,
      `works` whether it succeeds. `others` are replies to commands outside this model. */
  datatype Board = Board(capacity: u32, parts: map<string, Part>, taken: (string, u32, u32, seq<char8>) -> nat,
                         works: (string, u32, u32, seq<char8>) -> bool, others: string -> seq<string>)

  /** Boot images are taken apart without asking whether the buffer holds a header page
      or whether there are partitions for their halves. */
  predicate ValidBoard(b: Board) {
    b.capacity >= PAGE_SIZE + 4 && "kernel" in b.parts && "ramdisk" in b.parts
  }

  /** USB reset, or a packet: data while a download is active, else a command. */
  datatype Event = Reset | Packet(data: seq<char8>)

  /** Bytes taken from the transfer buffer; those beyond it are not known. */
  datatype Span = Span(at: nat, len: nat, bytes: seq<char8>)

  /** What happened. Used is a flash or boot command, with all that it takes from the
      buffer; Saved sets variables from the text there and leaves another one. */
  datatype Note =
    | Started(size: u32)
    | Refused
    | Received(data: seq<char8>)
    | Completed
    | Used(command: string, spans: seq<Span>)
    | Saved(text: seq<char8>, left: seq<char8>, settings: seq<Setting>)
    | Cleared

  /** download_size, download_bytes, and the transfer buffer with the one byte behind it
      that saving settings assumes. */
  datatype State = State(size: u32, bytes: u32, buffer: seq<char8>)

  /** The state after an event, the replies it is given, and what happened. */
  datatype Result = Result(state: State, replies: seq<string>, notes: seq<Note>)

  // -------------------------------------------------------------- one event

  predicate Good(b: Board, s: State) {
    && ValidBoard(b) && |s.buffer| == b.capacity + 1 && s.bytes <= b.capacity
    && (s.size != 0 ==> s.bytes < s.size <= b.capacity)
  }

  function Step(b: Board, s: State, e: Event): (r: Result)
    requires Good(b, s)
    ensures Good(b, r.state)
  {
    match e
    case Reset => Result(State(0, 0, s.buffer), [], [Cleared])
    case Packet(data) => if s.size != 0 then Data(s, data) else Command(b, s, data)
  }

  function Data(s: State, data: seq<char8>): (r: Result)
    requires s.bytes < s.size < |s.buffer|
    ensures |r.state.buffer| == |s.buffer|
  {
    if data == [] then Result(s, [], []) else
      var n := Min(|data|, s.size - s.bytes);
      var buffer := Over(s.buffer, s.bytes, data[..n]);
      if s.bytes + n < s.size then Result(State(s.size, s.bytes + n, buffer), [], [Received(data)])
      else Result(State(0, s.bytes + n, buffer), ["OKAY"], [Received(data), Completed])
  }

  function Command(b: Board, s: State, cmd: seq<char8>): (r: Result)
    requires Good(b, s) && s.size == 0
    ensures Good(b, r.state)
  {
    if Starts(cmd, "reboot") then Result(State(0, 0, Over(s.buffer, 0, Magic(cmd))), ["OKAY"], [Cleared])
    else if Starts(cmd, "download:") then Download(b, Strtoul(cmd[9..], 16).0, s.buffer)
    else if Starts(cmd, "boot") then Boot(s, cmd)
    else if Starts(cmd, "flash:") then Flash(b, s, cmd)
    else Result(s, b.others(cmd), [])
  }

  /** What a reboot leaves at the start of the buffer. */
  function Magic(cmd: seq<char8>): (m: seq<char8>)
    requires Starts(cmd, "reboot")
    ensures |m| <= 16
  {
    if NameIn(cmd, 6) == "-bootloader" then "REBOOT-FASTBOOT" + ['\0'] else seq(15, i => '\0')
  }

  /** The C string in a command from i on. */
  function NameIn(cmd: seq<char8>, i: nat): string
    requires i <= |cmd|
  {
    StringAt(cmd, i)
  }

  function Download(b: Board, size: u32, buffer: seq<char8>): Result {
    if size == 0 then Result(State(0, 0, buffer), ["FAILdata invalid size"], [Refused])
    else if size > b.capacity then Result(State(0, 0, buffer), ["FAILdata too large"], [Refused])
    else Result(State(size, 0, buffer), ["DATA" + Hex8(size)], [Started(size)])
  }

  // ------------------------------------------------------------- boot images

  function Take(buffer: seq<char8>, at: nat, len: nat): Span {
    Span(at, len, buffer[Min(at, |buffer|)..Min(at + len, |buffer|)])
  }

  function LittleEndian(buffer: seq<char8>, i: nat): (v: u32)
    requires i + 4 <= |buffer|
  {
    buffer[i] as int + 0x100 * buffer[i + 1] as int + 0x1_0000 * buffer[i + 2] as int
      + 0x100_0000 * buffer[i + 3] as int
  }

  function KernelSize(buffer: seq<char8>): u32
    requires |buffer| > PAGE_SIZE
  {
    LittleEndian(buffer, 8)
  }

  function RamdiskSize(buffer: seq<char8>): u32
    requires |buffer| > PAGE_SIZE
  {
    LittleEndian(buffer, 16)
  }

  /** Where the ramdisk is, behind the pages of the kernel, in 32 bits. */
  function RamdiskAt(kernelSize: u32): u32 {
    U32(PAGE_SIZE * (1 + U32(kernelSize + PAGE_SIZE - 1) / PAGE_SIZE))
  }

  /** The two sizes in the header. */
  function Header(buffer: seq<char8>): seq<Span> {
    [Take(buffer, 8, 4), Take(buffer, 16, 4)]
  }

  const CMDLINE: nat := 64

  /** ntohl(hdr->ih_magic) == IH_MAGIC */
  predicate IsKernel(buffer: seq<char8>)
    requires |buffer| > PAGE_SIZE + 4
  {
    buffer[PAGE_SIZE..PAGE_SIZE + 4] == [0x27 as char, 0x05 as char, 0x19 as char, 0x56 as char]
  }

  /** Header, kernel and ramdisk, the kernel's magic number, and its command line. */
  function BootSpans(buffer: seq<char8>): seq<Span>
    requires |buffer| > PAGE_SIZE + 4
  {
    Header(buffer)
    + [Take(buffer, PAGE_SIZE, KernelSize(buffer)),
       Take(buffer, RamdiskAt(KernelSize(buffer)), RamdiskSize(buffer)), Take(buffer, PAGE_SIZE, 4)]
    + if IsKernel(buffer) then [Take(buffer, CMDLINE, |StringAt(buffer, CMDLINE)| + 1)] else []
  }

  /** boot only asks for more than a page; a kernel that is started and returns is
      answered like an image that is none. */
  function Boot(s: State, cmd: seq<char8>): Result
    requires |s.buffer| > PAGE_SIZE + 4
  {
    if s.bytes > PAGE_SIZE then
      Result(s, ["OKAY", "FAILinvalid boot image"], [Used(cmd, BootSpans(s.buffer))])
    else Result(s, ["FAILinvalid boot image"], [])
  }

  /** flash:boot hands kernel and ramdisk to their partitions, if they fit. */
  function FlashBoot(b: Board, s: State, cmd: seq<char8>): Result
    requires Good(b, s)
  {
    var ks, rs := KernelSize(s.buffer), RamdiskSize(s.buffer);
    var r := RamdiskAt(ks);
    var kernel := Take(s.buffer, PAGE_SIZE, b.taken("kernel", PAGE_SIZE, ks, s.buffer));
    var ramdisk := Take(s.buffer, r, b.taken("ramdisk", r, rs, s.buffer));
    if TooLarge(b.parts["kernel"], ks) then
      Result(s, ["FAILimage too large for partition"], [Used(cmd, Header(s.buffer))])
    else if TooLarge(b.parts["ramdisk"], rs) then
      Result(s, ["FAILimage too large for partition"], [Used(cmd, Header(s.buffer) + [kernel])])
    else
      Result(s, [FlashReply(b.works("kernel", PAGE_SIZE, ks, s.buffer) && b.works("ramdisk", r, rs, s.buffer))],
             [Used(cmd, Header(s.buffer) + [kernel, ramdisk])])
  }

  function FlashReply(ok: bool): string {
    if ok then "OKAY" else "FAILfailed to flash partition"
  }

  predicate TooLarge(p: Part, size: nat) {
    p.length != 0 && size > p.length
  }

  /** flash: is refused without an image, without a partition, and if the image does not
      fit; a partition for settings has them saved. */
  function Flash(b: Board, s: State, cmd: seq<char8>): (r: Result)
    requires Good(b, s) && s.size == 0 && |cmd| >= 6
    ensures Good(b, r.state)
  {
    var name := NameIn(cmd, 6);
    if s.bytes == 0 then Result(s, ["FAILno image downloaded"], [])
    else if name == "boot" then FlashBoot(b, s, cmd)
    else if name !in b.parts then Result(s, ["FAILpartition does not exist"], [])
    else if b.parts[name].saveenv then Save(s)
    else if TooLarge(b.parts[name], s.bytes) then Result(s, ["FAILimage too large for partition"], [])
    else
      Result(s, [FlashReply(b.works(name, 0, s.bytes, s.buffer))],
             [Used(cmd, [Take(s.buffer, 0, b.taken(name, 0, s.bytes, s.buffer))])])
  }

  function Save(s: State): Result
    requires s.bytes < |s.buffer|
  {
    var r := SaveEnv(s.buffer, s.bytes);
    Result(s.(buffer := r.buf), [r.reply], [Saved(s.buffer[..s.bytes], r.buf[..s.bytes], r.saved)])
  }

  // ------------------------------------------------------------------- runs

  function Run(b: Board, s: State, events: seq<Event>): (r: Result)
    requires Good(b, s)
    ensures Good(b, r.state)
    decreases |events|
  {
    if events == [] then Result(s, [], []) else
      var r := Step(b, s, events[0]);
      var rest := Run(b, r.state, events[1..]);
      Result(rest.state, r.replies + rest.replies, r.notes + rest.notes)
  }

  /** How a history of notes may go on: between downloads, in one of n bytes for which
      the data `got` has come, or with a complete image, which was `image` when it came
      and is `now` in the buffer. */
  datatype Phase = Idle | Loading(n: nat, got: seq<char8>) | Loaded(image: seq<char8>, now: seq<char8>) | Wrong

  /** Data only while some is missing; completion exactly when none is, with the first n
      bytes that came; commands take something only when there is a complete image, and
      take what is in the buffer now. */
  ghost function Next(p: Phase, note: Note): Phase {
    match note
    case Cleared => if p.Wrong? then Wrong else Idle
    case Started(n) => if p.Idle? || p.Loaded? then Loading(n, []) else Wrong
    case Refused => if p.Idle? || p.Loaded? then Idle else Wrong
    case Received(data) => if p.Loading? && |p.got| < p.n then Loading(p.n, p.got + data) else Wrong
    case Completed => if p.Loading? && |p.got| >= p.n > 0 then Loaded(p.got[..p.n], p.got[..p.n]) else Wrong
    case Used(_, spans) => if p.Loaded? && (forall span <- spans :: Shows(span, p.now)) then p else Wrong
    case Saved(text, left, _) => if p.Loaded? && text == p.now && Worn(text, left) then Loaded(p.image, left) else Wrong
  }

  /** The span has the bytes that are in the buffer, as far as the image goes. */
  ghost predicate Shows(span: Span, now: seq<char8>) {
    forall k :: 0 <= k < |span.bytes| && span.at + k < |now| ==> span.bytes[k] == now[span.at + k]
  }

  ghost function Follow(p: Phase, notes: seq<Note>): Phase
    decreases |notes|
  {
    if notes == [] then p else Follow(Next(p, notes[0]), notes[1..])
  }

  /** The variables of the handler stand for a phase. */
  ghost predicate Stands(s: State, p: Phase) {
    && s.bytes <= |s.buffer|
    && match p
       case Idle => s.size == 0 && s.bytes == 0
       case Loading(n, got) => s.size == n != 0 && got == s.buffer[..s.bytes]
       case Loaded(image, now) => s.size == 0 && s.bytes > 0 && now == s.buffer[..s.bytes] && Worn(image, now)
       case Wrong => false
  }

  lemma {:induction false} FollowBoth(p: Phase, a: seq<Note>, b: seq<Note>)
    ensures Follow(p, a + b) == Follow(Follow(p, a), b)
    decreases |a|
  {
    hide Next;
    if a == [] {
      assert a + b == b;
    } else {
      assert (a + b)[1..] == a[1..] + b;
      FollowBoth(Next(p, a[0]), a[1..], b);
    }
  }

  lemma OneNote(p: Phase, note: Note)
    ensures Follow(p, []) == p && Follow(p, [note]) == Next(p, note)
  {
    hide Next;
    assert [note][1..] == [];
  }

  lemma TakeShows(buffer: seq<char8>, n: nat, at: nat, len: nat)
    requires n <= |buffer|
    ensures Shows(Take(buffer, at, len), buffer[..n])
  {}

  lemma StepFollows(b: Board, s: State, p: Phase, e: Event)
    requires Good(b, s) && Stands(s, p)
    ensures var r := Step(b, s, e);
            Stands(r.state, Follow(p, r.notes))
  {
    hide Command, Data, Next, Follow, Stands;
    match e
    case Reset =>
      ClearFollows(s, p);
    case Packet(data) =>
      StandingSize(s, p);
      if s.size != 0 {
        DataFollows(s, data);
      } else {
        CommandFollows(b, s, p, data);
      }
  }

  lemma ClearFollows(s: State, p: Phase)
    requires Stands(s, p)
    ensures forall buffer :: Stands(State(0, 0, buffer), Follow(p, [Cleared]))
  {
    OneNote(p, Cleared);
  }

  lemma StandingSize(s: State, p: Phase)
    requires Stands(s, p)
    ensures s.size != 0 ==> p == Loading(s.size, s.buffer[..s.bytes])
    ensures s.size == 0 && s.bytes == 0 ==> p == Idle
    ensures s.size == 0 && s.bytes > 0 ==> p.Loaded? && p.now == s.buffer[..s.bytes] && Worn(p.image, p.now)
  {}

  lemma DataFollows(s: State, data: seq<char8>)
    requires s.bytes < s.size < |s.buffer|
    ensures var p, r := Loading(s.size, s.buffer[..s.bytes]), Data(s, data);
            Stands(r.state, Follow(p, r.notes))
  {
    hide Follow;
    var p := Loading(s.size, s.buffer[..s.bytes]);
    if data == [] {
      OneNote(p, Completed);
    } else {
      var n := Min(|data|, s.size - s.bytes);
      var received := Loading(s.size, s.buffer[..s.bytes] + data);
      OverPrefix(s.buffer, s.bytes, data[..n]);
      OneNote(p, Received(data));
      if s.bytes + n < s.size {
        assert data[..|data|] == data;
      } else {
        FollowBoth(p, [Received(data)], [Completed]);
        assert [Received(data)] + [Completed] == [Received(data), Completed];
        OneNote(received, Completed);
        assert (s.buffer[..s.bytes] + data)[..s.size] == s.buffer[..s.bytes] + data[..n];
      }
    }
  }

  lemma OverPrefix(buf: seq<char8>, i: nat, s: seq<char8>)
    requires i + |s| <= |buf|
    ensures Over(buf, i, s)[..i + |s|] == buf[..i] + s
  {}

  lemma CommandFollows(b: Board, s: State, p: Phase, cmd: seq<char8>)
    requires Good(b, s) && s.size == 0 && Stands(s, p)
    ensures var r := Command(b, s, cmd);
            Stands(r.state, Follow(p, r.notes))
  {
    hide Strtoul, Hex8, Follow, SaveEnv, Stands, Next, Boot, Flash, Download, Magic;
    if Starts(cmd, "reboot") {
      ClearFollows(s, p);
    } else if Starts(cmd, "download:") {
      DownloadFollows(b, s, p, Strtoul(cmd[9..], 16).0);
    } else if Starts(cmd, "boot") {
      BootFollows(s, p, cmd);
    } else if Starts(cmd, "flash:") {
      FlashFollows(b, s, p, cmd);
    } else {
      OneNote(p, Cleared);
    }
  }

  lemma DownloadFollows(b: Board, s: State, p: Phase, size: u32)
    requires s.size == 0 && Stands(s, p)
    ensures var r := Download(b, size, s.buffer); Stands(r.state, Follow(p, r.notes))
  {
    hide Hex8, Follow;
    OneNote(p, Refused);
    OneNote(p, Started(size));
  }

  /** A command that takes from the buffer what is there. */
  lemma UseFollows(s: State, p: Phase, cmd: seq<char8>, spans: seq<Span>)
    requires Stands(s, p) && s.size == 0 && s.bytes > 0
    requires forall span <- spans :: span == Take(s.buffer, span.at, span.len)
    ensures Follow(p, [Used(cmd, spans)]) == p
  {
    hide Follow, Take, Shows, Worn;
    OneNote(p, Used(cmd, spans));
    forall span | span in spans ensures Shows(span, p.now) {
      TakeShows(s.buffer, s.bytes, span.at, span.len);
    }
  }

  lemma BootFollows(s: State, p: Phase, cmd: seq<char8>)
    requires Stands(s, p) && s.size == 0 && |s.buffer| > PAGE_SIZE + 4
    ensures var r := Boot(s, cmd); Stands(r.state, Follow(p, r.notes))
  {
    hide Follow, Stands, StringAt, IsKernel, KernelSize, RamdiskSize, RamdiskAt;
    OneNote(p, Completed);
    if s.bytes > PAGE_SIZE {
      UseFollows(s, p, cmd, BootSpans(s.buffer));
    }
  }

  lemma FlashFollows(b: Board, s: State, p: Phase, cmd: seq<char8>)
    requires Good(b, s) && s.size == 0 && Stands(s, p) && |cmd| >= 6
    ensures var r := Flash(b, s, cmd); Stands(r.state, Follow(p, r.notes))
  {
    hide Follow, Stands, FlashBoot, FlashReply, TooLarge, NameIn, Save;
    OneNote(p, Completed);
    if s.bytes > 0 {
      var name := NameIn(cmd, 6);
      if name == "boot" {
        FlashBootFollows(b, s, p, cmd);
      } else if name in b.parts && b.parts[name].saveenv {
        SaveFollows(s, p);
      } else if name in b.parts {
        UseFollows(s, p, cmd, [Take(s.buffer, 0, b.taken(name, 0, s.bytes, s.buffer))]);
      }
    }
  }

  lemma FlashBootFollows(b: Board, s: State, p: Phase, cmd: seq<char8>)
    requires Good(b, s) && s.size == 0 && s.bytes > 0 && Stands(s, p)
    ensures var r := FlashBoot(b, s, cmd); r.state == s && Follow(p, r.notes) == p
  {
    hide Follow, Stands, FlashReply, TooLarge, KernelSize, RamdiskSize, RamdiskAt;
    var r := FlashBoot(b, s, cmd);
    UseFollows(s, p, cmd, r.notes[0].spans);
    assert r.notes == [Used(cmd, r.notes[0].spans)];
  }

  lemma SaveFollows(s: State, p: Phase)
    requires Stands(s, p) && s.size == 0 && 0 < s.bytes < |s.buffer|
    ensures var r := Save(s); Stands(r.state, Follow(p, r.notes))
  {
    hide Follow, SaveEnv;
    var r := SaveEnv(s.buffer, s.bytes);
    SavingWears(s.buffer, s.bytes);
    OneNote(p, Saved(s.buffer[..s.bytes], r.buf[..s.bytes], r.saved));
    WornOn(p.image, p.now, r.buf[..s.bytes], 0);
  }

  /** Every history of the handler is a right one, and its variables say how it stands:
      an active download has fewer bytes than its size, which is at most the buffer's;
      every download completes exactly once and with its first bytes; flash and boot
      commands take anything only when an image is complete. Whether what they take is
      of that image is the subject of FastbootImage. */
  lemma {:induction false} RunFollows(b: Board, s: State, p: Phase, events: seq<Event>)
    requires Good(b, s) && Stands(s, p)
    ensures var r := Run(b, s, events);
            Stands(r.state, Follow(p, r.notes))
    decreases |events|
  {
    hide Step, Stands, Follow;
    if events == [] {
      OneNote(p, Cleared);
    } else {
      var r := Step(b, s, events[0]);
      StepFollows(b, s, p, events[0]);
      RunFollows(b, r.state, Follow(p, r.notes), events[1..]);
      FollowBoth(p, r.notes, Run(b, r.state, events[1..]).notes);
    }
  }

  // --------------------------------------------------------------- chunking

  function Concat(packets: seq<seq<char8>>): seq<char8> {
    if packets == [] then [] else packets[0] + Concat(packets[1..])
  }

  function Packets(packets: seq<seq<char8>>): seq<Event> {
    if packets == [] then [] else [Packet(packets[0])] + Packets(packets[1..])
  }

  /** The state after data for an active download, in whatever packets it comes. */
  function After(s: State, data: seq<char8>): State
    requires s.bytes < s.size < |s.buffer|
  {
    var n := Min(|data|, s.size - s.bytes);
    State(if s.bytes + n < s.size then s.size else 0, s.bytes + n, Over(s.buffer, s.bytes, data[..n]))
  }

  /** One reply, once all is there. */
  function Replies(s: State, data: seq<char8>): seq<string>
    requires s.bytes < s.size
  {
    if s.bytes + |data| < s.size then [] else ["OKAY"]
  }

  /** However the missing bytes come in packets, only the last of which may bring
      more, they are appended to the image, and one reply is given once all are there. */
  lemma {:induction false} ChunksArrive(b: Board, s: State, packets: seq<seq<char8>>)
    requires Good(b, s) && s.size != 0
    requires packets != [] ==> |Concat(packets[..|packets| - 1])| < s.size - s.bytes
    ensures var r := Run(b, s, Packets(packets));
            r.state == After(s, Concat(packets)) && r.replies == Replies(s, Concat(packets))
    decreases |packets|
  {
    hide Step, After, Replies;
    if packets == [] {
      NoData(b, s);
    } else {
      var p, rest := packets[0], packets[1..];
      var r := Step(b, s, Packet(p));
      FirstPacket(b, s, packets);
      PacketArrives(b, s, p);
      if rest == [] {
        assert Concat(packets) == p + [] == p;
        assert r.replies + [] == r.replies;
      } else {
        assert packets[..|packets| - 1][1..] == rest[..|rest| - 1] && packets[..|packets| - 1][0] == p;
        AfterBoth(s, p, Concat(rest));
        ChunksArrive(b, r.state, rest);
      }
    }
  }

  lemma NoData(b: Board, s: State)
    requires Good(b, s) && s.size != 0
    ensures After(s, []) == s && Replies(s, []) == [] && Run(b, s, Packets([])) == Result(s, [], [])
  {
    assert Over(s.buffer, s.bytes, []) == s.buffer;
  }

  lemma FirstPacket(b: Board, s: State, packets: seq<seq<char8>>)
    requires Good(b, s) && packets != []
    ensures var r := Step(b, s, Packet(packets[0]));
            var rest := Run(b, r.state, Packets(packets[1..]));
            && Run(b, s, Packets(packets)).state == rest.state
            && Run(b, s, Packets(packets)).replies == r.replies + rest.replies
            && Run(b, r.state, Packets([])) == Result(r.state, [], [])
  {
    hide Step;
    assert Packets(packets)[1..] == Packets(packets[1..]);
  }

  lemma PacketArrives(b: Board, s: State, p: seq<char8>)
    requires Good(b, s) && s.size != 0
    ensures var r := Step(b, s, Packet(p));
            r.state == After(s, p) && r.replies == Replies(s, p)
  {
    assert Over(s.buffer, s.bytes, []) == s.buffer;
  }

  lemma AfterBoth(s: State, p: seq<char8>, data: seq<char8>)
    requires |p| < s.size - s.bytes && s.size < |s.buffer|
    ensures After(s, p).size == s.size && After(s, p).bytes == s.bytes + |p|
    ensures After(After(s, p), data) == After(s, p + data)
    ensures Replies(s, p) == [] && [] + Replies(After(s, p), data) == Replies(s, p + data)
  {
    hide Over;
    var m := Min(|data|, s.size - s.bytes - |p|);
    Prefixes(p, data, m);
    OverTwice(s.buffer, s.bytes, p, data[..m]);
  }

  lemma Prefixes(p: seq<char8>, data: seq<char8>, m: nat)
    requires m <= |data|
    ensures p[..|p|] == p && (p + data)[..|p| + m] == p + data[..m]
  {}

  lemma OverTwice(buf: seq<char8>, i: nat, s: seq<char8>, t: seq<char8>)
    requires i + |s| + |t| <= |buf|
    ensures Over(Over(buf, i, s), i + |s|, t) == Over(buf, i, s + t)
  {
    OverPrefix(buf, i, s);
    assert Over(buf, i, s)[i + |s| + |t|..] == buf[i + |s| + |t|..];
  }

  /** Two ways to cut the same data give the same. */
  lemma ChunkingIsFree(b: Board, s: State, some: seq<seq<char8>>, others: seq<seq<char8>>)
    requires Good(b, s) && s.size != 0 && Concat(some) == Concat(others)
    requires some != [] ==> |Concat(some[..|some| - 1])| < s.size - s.bytes
    requires others != [] ==> |Concat(others[..|others| - 1])| < s.size - s.bytes
    ensures Run(b, s, Packets(some)).state == Run(b, s, Packets(others)).state
    ensures Run(b, s, Packets(some)).replies == Run(b, s, Packets(others)).replies
  {
    ChunksArrive(b, s, some);
    ChunksArrive(b, s, others);
  }
}
