/** What the flash and boot commands take from the transfer buffer
    (common/cmd_fastboot.c): when it is of the image that was received. */
module FastbootImage {
  import opened CText
  import opened FastbootEnv
  import opened FastbootEnvText
  import opened Fastboot

  // ------------------------------------------------------------ of the image

  /** The bytes that were taken are bytes that were received for this place. */
  predicate FromImage(span: Span, image: seq<char8>) {
    span.len == 0
    || (span.at + span.len <= |image| && span.bytes == image[span.at..span.at + span.len])
  }

  ghost predicate Proper(p: Phase, note: Note) {
    match note
    case Used(_, spans) => p.Loaded? && forall span <- spans :: FromImage(span, p.image)
    case Saved(text, _, _) => p.Loaded? && text == p.image
    case _ => true
  }

  /** Every command in a history acts on the image that was received before it. */
  ghost predicate AllProper(p: Phase, notes: seq<Note>)
    decreases |notes|
  {
    notes == [] || (Proper(p, notes[0]) && AllProper(Next(p, notes[0]), notes[1..]))
  }

  lemma {:induction false} ProperBoth(p: Phase, a: seq<Note>, b: seq<Note>)
    ensures AllProper(p, a + b) <==> AllProper(p, a) && AllProper(Follow(p, a), b)
    decreases |a|
  {
    hide Next, Proper;
    if a == [] {
      assert a + b == b;
    } else {
      assert (a + b)[1..] == a[1..] + b;
      ProperBoth(Next(p, a[0]), a[1..], b);
    }
  }

  /** The image is as it came. */
  predicate Unaltered(p: Phase) {
    p.Loaded? ==> p.now == p.image
  }

  // -------------------------------------------------- what a command reaches

  predicate Within(at: nat, len: nat, n: nat) {
    len == 0 || at + len <= n
  }

  lemma TakenFromImage(buffer: seq<char8>, n: nat, at: nat, len: nat)
    requires n < |buffer|
    ensures FromImage(Take(buffer, at, len), buffer[..n]) <==> Within(at, len, n)
  {
    if len > 0 && at + len <= n {
      assert buffer[..n][at..at + len] == buffer[at..at + len];
    }
  }

  /** The n bytes received hold the kernel's magic number and all that the header
      announces, and the kernel's command line ends in them. */
  predicate BootCovered(buffer: seq<char8>, n: nat)
    requires |buffer| > PAGE_SIZE + 4 && n <= |buffer|
  {
    && PAGE_SIZE + 4 <= n
    && Within(PAGE_SIZE, KernelSize(buffer), n)
    && Within(RamdiskAt(KernelSize(buffer)), RamdiskSize(buffer), n)
    && (IsKernel(buffer) ==> exists k :: CMDLINE <= k < n && buffer[k] == '\0')
  }

  /** They hold the header's sizes, and what the drivers take for them. */
  predicate FlashBootCovered(b: Board, s: State)
    requires Good(b, s)
  {
    var ks, rs := KernelSize(s.buffer), RamdiskSize(s.buffer);
    var r := RamdiskAt(ks);
    && 20 <= s.bytes
    && (!TooLarge(b.parts["kernel"], ks) ==>
          Within(PAGE_SIZE, b.taken("kernel", PAGE_SIZE, ks, s.buffer), s.bytes))
    && (!TooLarge(b.parts["kernel"], ks) && !TooLarge(b.parts["ramdisk"], rs) ==>
          Within(r, b.taken("ramdisk", r, rs, s.buffer), s.bytes))
  }

  /** The partition that a flash command writes the whole image to. */
  predicate Whole(b: Board, s: State, name: string) {
    name != "boot" && name in b.parts && !b.parts[name].saveenv && !TooLarge(b.parts[name], s.bytes)
  }

  /** What a command takes was received since the download began. */
  predicate Covered(b: Board, s: State, cmd: seq<char8>)
    requires Good(b, s)
  {
    if Starts(cmd, "reboot") || Starts(cmd, "download:") then true
    else if Starts(cmd, "boot") then s.bytes > PAGE_SIZE ==> BootCovered(s.buffer, s.bytes)
    else if Starts(cmd, "flash:") && s.bytes > 0 then
      var name := NameIn(cmd, 6);
      if name == "boot" then FlashBootCovered(b, s)
      else Whole(b, s, name) ==> b.taken(name, 0, s.bytes, s.buffer) <= s.bytes
    else true
  }

  /** A flash command that has settings saved. */
  predicate Saves(b: Board, s: State, cmd: seq<char8>) {
    && !Starts(cmd, "reboot") && !Starts(cmd, "download:") && !Starts(cmd, "boot")
    && Starts(cmd, "flash:") && s.bytes > 0
    && var name := NameIn(cmd, 6); name != "boot" && name in b.parts && b.parts[name].saveenv
  }

  lemma {:induction false} StringEnds(buffer: seq<char8>, i: nat)
    requires i <= |buffer|
    ensures var n := |StringAt(buffer, i)|;
            && i + n <= |buffer| && (forall k :: i <= k < i + n ==> buffer[k] != '\0')
            && (i + n < |buffer| ==> buffer[i + n] == '\0')
    decreases |buffer| - i
  {
    if i < |buffer| && buffer[i] != '\0' {
      StringEnds(buffer, i + 1);
    }
  }

  /** A string with its NUL lies in front of n exactly if there is a NUL. */
  lemma StringWithin(buffer: seq<char8>, i: nat, n: nat)
    requires i <= n < |buffer|
    ensures Within(i, |StringAt(buffer, i)| + 1, n) <==> exists k :: i <= k < n && buffer[k] == '\0'
  {
    hide StringAt;
    StringEnds(buffer, i);
    var m := |StringAt(buffer, i)|;
    if i + m + 1 <= n {
      assert buffer[i + m] == '\0';
    }
  }

  lemma BootIsProper(b: Board, s: State, image: seq<char8>)
    requires Good(b, s) && s.bytes > PAGE_SIZE && image == s.buffer[..s.bytes]
    ensures (forall span <- BootSpans(s.buffer) :: FromImage(span, image)) <==> BootCovered(s.buffer, s.bytes)
  {
    hide Take, FromImage, Within, IsKernel, KernelSize, RamdiskSize, RamdiskAt, StringAt;
    var buffer, n := s.buffer, s.bytes;
    TakenFromImage(buffer, n, 8, 4);
    TakenFromImage(buffer, n, 16, 4);
    TakenFromImage(buffer, n, PAGE_SIZE, KernelSize(buffer));
    TakenFromImage(buffer, n, RamdiskAt(KernelSize(buffer)), RamdiskSize(buffer));
    TakenFromImage(buffer, n, PAGE_SIZE, 4);
    TakenFromImage(buffer, n, CMDLINE, |StringAt(buffer, CMDLINE)| + 1);
    StringWithin(buffer, CMDLINE, n);
    SmallWithin(n);
    var spans := BootSpans(buffer);
    assert spans[..5] == Header(buffer) + [Take(buffer, PAGE_SIZE, KernelSize(buffer)),
       Take(buffer, RamdiskAt(KernelSize(buffer)), RamdiskSize(buffer)), Take(buffer, PAGE_SIZE, 4)];
    SixSpans(spans, image);
  }

  lemma SmallWithin(n: nat)
    ensures Within(8, 4, n) <==> 12 <= n
    ensures Within(16, 4, n) <==> 20 <= n
    ensures Within(PAGE_SIZE, 4, n) <==> PAGE_SIZE + 4 <= n
  {}

  lemma SixSpans(spans: seq<Span>, image: seq<char8>)
    requires 5 <= |spans| <= 6
    ensures (forall span <- spans :: FromImage(span, image))
       <==> && FromImage(spans[0], image) && FromImage(spans[1], image) && FromImage(spans[2], image)
            && FromImage(spans[3], image) && FromImage(spans[4], image)
            && (|spans| == 6 ==> FromImage(spans[5], image))
  {
    hide FromImage;
    if |spans| == 6 {
      assert spans == [spans[0], spans[1], spans[2], spans[3], spans[4], spans[5]];
    } else {
      assert spans == [spans[0], spans[1], spans[2], spans[3], spans[4]];
    }
  }

  lemma FlashBootIsProper(b: Board, s: State, p: Phase, cmd: seq<char8>)
    requires Good(b, s) && s.size == 0 && p.Loaded? && p.image == s.buffer[..s.bytes]
    ensures AllProper(p, FlashBoot(b, s, cmd).notes) <==> FlashBootCovered(b, s)
  {
    hide Take, FromImage, Within, KernelSize, RamdiskSize, RamdiskAt, TooLarge, FlashReply, Next;
    var buffer, n := s.buffer, s.bytes;
    var ks, rs := KernelSize(buffer), RamdiskSize(buffer);
    var r := RamdiskAt(ks);
    TakenFromImage(buffer, n, 8, 4);
    TakenFromImage(buffer, n, 16, 4);
    TakenFromImage(buffer, n, PAGE_SIZE, b.taken("kernel", PAGE_SIZE, ks, buffer));
    TakenFromImage(buffer, n, r, b.taken("ramdisk", r, rs, buffer));
    SmallWithin(n);
    OneUse(p, cmd, FlashBoot(b, s, cmd).notes[0].spans);
  }

  lemma OneUse(p: Phase, cmd: seq<char8>, spans: seq<Span>)
    ensures AllProper(p, [Used(cmd, spans)]) <==> p.Loaded? && forall span <- spans :: FromImage(span, p.image)
    ensures AllProper(p, [])
  {
    hide FromImage, Next;
    assert [Used(cmd, spans)][1..] == [];
  }

  lemma OtherNote(p: Phase, note: Note)
    requires !note.Used?
    ensures AllProper(p, [note]) <==> Proper(p, note)
  {
    hide Next, Proper;
    assert [note][1..] == [];
  }

  /** While the image is as it came, a command acts on nothing but it exactly if all
      that it takes has been received: the header and the sizes it announces for boot
      images, and for others what the driver takes for the image's size. */
  lemma CommandIsProper(b: Board, s: State, p: Phase, cmd: seq<char8>)
    requires Good(b, s) && s.size == 0 && Stands(s, p) && Unaltered(p)
    ensures AllProper(p, Command(b, s, cmd).notes) <==> Covered(b, s, cmd)
  {
    hide Strtoul, Hex8, Next, AllProper, Magic, NameIn, BootCovered, FlashBootCovered, BootSpans, FlashBoot, Take,
         FromImage, TooLarge, Whole, Worn;
    OneUse(p, cmd, []);
    if Starts(cmd, "reboot") {
      OtherNote(p, Cleared);
    } else if Starts(cmd, "download:") {
      var size := Strtoul(cmd[9..], 16).0;
      OtherNote(p, Refused);
      OtherNote(p, Started(size));
    } else if Starts(cmd, "boot") {
      if s.bytes > PAGE_SIZE {
        OneUse(p, cmd, BootSpans(s.buffer));
        BootIsProper(b, s, p.image);
      }
    } else if Starts(cmd, "flash:") && s.bytes > 0 {
      FlashIsProper(b, s, p, cmd);
    }
  }

  lemma FlashIsProper(b: Board, s: State, p: Phase, cmd: seq<char8>)
    requires Good(b, s) && s.size == 0 && s.bytes > 0 && Stands(s, p) && Unaltered(p) && |cmd| >= 6
    ensures var name := NameIn(cmd, 6);
            (AllProper(p, Flash(b, s, cmd).notes)
             <==> if name == "boot" then FlashBootCovered(b, s)
                  else Whole(b, s, name) ==> b.taken(name, 0, s.bytes, s.buffer) <= s.bytes)
  {
    hide Next, AllProper, NameIn, FlashBootCovered, FlashBoot, Take, FromImage, TooLarge, Worn, SaveEnv, FlashReply;
    var name := NameIn(cmd, 6);
    OneUse(p, cmd, []);
    if name == "boot" {
      FlashBootIsProper(b, s, p, cmd);
    } else if Whole(b, s, name) {
      var span := Take(s.buffer, 0, b.taken(name, 0, s.bytes, s.buffer));
      OneUse(p, cmd, [span]);
      TakenFromImage(s.buffer, s.bytes, 0, b.taken(name, 0, s.bytes, s.buffer));
      assert forall x :: x in [span] <==> x == span;
    } else if name in b.parts && b.parts[name].saveenv {
      var r := SaveEnv(s.buffer, s.bytes);
      OtherNote(p, Saved(s.buffer[..s.bytes], r.buf[..s.bytes], r.saved));
    }
  }

  // ------------------------------------------------------------------- runs

  predicate EventCovered(b: Board, s: State, e: Event)
    requires Good(b, s)
  {
    s.size == 0 && e.Packet? ==> Covered(b, s, e.data)
  }

  predicate AllCovered(b: Board, s: State, events: seq<Event>)
    requires Good(b, s)
    decreases |events|
  {
    events == [] || (EventCovered(b, s, events[0]) && AllCovered(b, Step(b, s, events[0]).state, events[1..]))
  }

  /** Settings are saved from a text that is more than one name, which changes it. */
  predicate Edits(b: Board, s: State, e: Event)
    requires Good(b, s)
  {
    s.size == 0 && e.Packet? && Saves(b, s, e.data) && !OneName(s.buffer, s.bytes)
  }

  predicate NoEdits(b: Board, s: State, events: seq<Event>)
    requires Good(b, s)
    decreases |events|
  {
    events == [] || (!Edits(b, s, events[0]) && NoEdits(b, Step(b, s, events[0]).state, events[1..]))
  }

  lemma StepIsProper(b: Board, s: State, p: Phase, e: Event)
    requires Good(b, s) && Stands(s, p) && Unaltered(p)
    ensures AllProper(p, Step(b, s, e).notes) <==> EventCovered(b, s, e)
  {
    hide Command, Stands, Covered, Next, Over;
    if e.Packet? && s.size == 0 {
      CommandIsProper(b, s, p, e.data);
    } else if e.Packet? {
      var data := e.data;
      assert [Received(data), Completed][1..] == [Completed] && [Completed][1..] == [];
    }
  }

  /** What a step does to the phase: the image only changes in saving, which is edited
      exactly if it is more than one name. */
  lemma StepAlters(b: Board, s: State, p: Phase, e: Event)
    requires Good(b, s) && Stands(s, p) && Unaltered(p)
    ensures Unaltered(Follow(p, Step(b, s, e).notes)) <==> !Edits(b, s, e)
  {
    hide Stands, Next, Follow, Command, Data, Saves;
    match e
    case Reset => ClearFollows(s, p);
      StandsUnaltered(Step(b, s, e).state, Follow(p, Step(b, s, e).notes));
    case Packet(data) =>
      StandingSize(s, p);
      if s.size != 0 {
        DataIsUnaltered(s, data);
      } else {
        CommandAlters(b, s, p, data);
      }
  }

  lemma StandsUnaltered(s: State, p: Phase)
    requires Stands(s, p) && s.bytes == 0
    ensures Unaltered(p)
  {}

  lemma DataIsUnaltered(s: State, data: seq<char8>)
    requires s.bytes < s.size < |s.buffer|
    ensures Unaltered(Follow(Loading(s.size, s.buffer[..s.bytes]), Data(s, data).notes))
  {
    assert [Received(data), Completed][1..] == [Completed] && [Completed][1..] == [];
  }

  lemma CommandAlters(b: Board, s: State, p: Phase, cmd: seq<char8>)
    requires Good(b, s) && s.size == 0 && Stands(s, p) && Unaltered(p)
    ensures Unaltered(Follow(p, Command(b, s, cmd).notes)) <==> !(Saves(b, s, cmd) && !OneName(s.buffer, s.bytes))
  {
    hide Strtoul, Hex8, Next, Follow, Stands, Save, NameIn, BootSpans, FlashBoot, Take, TooLarge, Worn, OneName,
         FlashReply, Magic;
    var r := Command(b, s, cmd);
    StandingSize(s, p);
    CommandFollows(b, s, p, cmd);
    if Saves(b, s, cmd) {
      assert r == Save(s);
      SaveAlters(s, p);
    } else {
      OnlySavesChange(b, s, cmd);
      SamePhase(p, r.notes);
    }
  }

  lemma SaveAlters(s: State, p: Phase)
    requires Stands(s, p) && Unaltered(p) && s.size == 0 && 0 < s.bytes < |s.buffer|
    ensures Unaltered(Follow(p, Save(s).notes)) <==> OneName(s.buffer, s.bytes)
  {
    hide SaveEnv, Worn, OneName;
    var r := SaveEnv(s.buffer, s.bytes);
    SaveFollows(s, p);
    OneNote(p, Saved(s.buffer[..s.bytes], r.buf[..s.bytes], r.saved));
    KeptIfOneName(s.buffer, s.bytes);
  }

  lemma OnlySavesChange(b: Board, s: State, cmd: seq<char8>)
    requires Good(b, s) && s.size == 0 && !Saves(b, s, cmd)
    ensures var notes := Command(b, s, cmd).notes;
            |notes| <= 1 && forall note <- notes :: note.Used? || note.Cleared? || note.Started? || note.Refused?
  {
    hide Strtoul, Hex8, NameIn, BootSpans, Take, TooLarge, FlashReply, Magic, SaveEnv;
  }

  lemma SamePhase(p: Phase, notes: seq<Note>)
    requires Unaltered(p) && |notes| <= 1
    requires forall note <- notes :: note.Used? || note.Cleared? || note.Started? || note.Refused?
    ensures Unaltered(Follow(p, notes))
  {
    hide Follow, Shows;
    OneNote(p, Completed);
    if |notes| == 1 {
      assert notes == [notes[0]];
      OneNote(p, notes[0]);
    }
  }

  /** Over any run that begins with the image as it came and edits none: every flash and
      boot command acts on nothing but the received image, if and only if what each
      takes had been received when it came. */
  lemma {:induction false} RunIsProper(b: Board, s: State, p: Phase, events: seq<Event>)
    requires Good(b, s) && Stands(s, p) && Unaltered(p) && NoEdits(b, s, events)
    ensures AllProper(p, Run(b, s, events).notes) <==> AllCovered(b, s, events)
    ensures Unaltered(Follow(p, Run(b, s, events).notes))
    decreases |events|
  {
    hide Step, Stands, Follow, Next, Unaltered, Edits, EventCovered;
    if events == [] {
      OneNote(p, Cleared);
      OneUse(p, [], []);
    } else {
      var e := events[0];
      var r := Step(b, s, e);
      var rest := Run(b, r.state, events[1..]);
      StepFollows(b, s, p, e);
      StepIsProper(b, s, p, e);
      StepAlters(b, s, p, e);
      RunIsProper(b, r.state, Follow(p, r.notes), events[1..]);
      ProperBoth(p, r.notes, rest.notes);
      FollowBoth(p, r.notes, rest.notes);
    }
  }

  /** After any run, a packet that completes a download, and then events among which
      none edits the image, so whatever came before that download. */
  lemma CommandsAfterDownload(b: Board, s: State, p: Phase, before: seq<Event>, data: seq<char8>, events: seq<Event>)
    requires Good(b, s) && Stands(s, p)
    requires var s1 := Run(b, s, before).state;
             s1.size != 0 && Step(b, s1, Packet(data)).state.size == 0
             && NoEdits(b, Step(b, s1, Packet(data)).state, events)
    ensures var r := Run(b, s, before);
            var done := Step(b, r.state, Packet(data));
            var p1 := Follow(p, r.notes + done.notes);
            && p1.Loaded? && p1.now == p1.image
            && (AllProper(p1, Run(b, done.state, events).notes) <==> AllCovered(b, done.state, events))
  {
    hide Step, Data, Stands, Follow, Next, NoEdits, AllCovered, AllProper, Run;
    var r := Run(b, s, before);
    var s1 := r.state;
    RunFollows(b, s, p, before);
    var p0 := Follow(p, r.notes);
    var done := Step(b, s1, Packet(data));
    StandingSize(s1, p0);
    StepFollows(b, s1, p0, Packet(data));
    assert done == Data(s1, data) by { DataStep(b, s1, data); }
    DataIsUnaltered(s1, data);
    Completes(s1, data);
    FollowBoth(p, r.notes, done.notes);
    var p1 := Follow(p0, done.notes);
    StandingSize(done.state, p1);
    RunIsProper(b, done.state, p1, events);
  }

  lemma DataStep(b: Board, s: State, data: seq<char8>)
    requires Good(b, s) && s.size != 0
    ensures Step(b, s, Packet(data)) == Data(s, data)
  {}

  lemma Completes(s: State, data: seq<char8>)
    requires s.bytes < s.size < |s.buffer| && Data(s, data).state.size == 0
    ensures Data(s, data).state.bytes > 0
  {}

  predicate NoEnvPartition(b: Board) {
    forall name <- b.parts :: !b.parts[name].saveenv
  }

  /** A board whose partitions are all written to, so that no run edits the image. */
  lemma {:induction false} NothingEdits(b: Board, s: State, events: seq<Event>)
    requires Good(b, s) && NoEnvPartition(b)
    ensures NoEdits(b, s, events)
    decreases |events|
  {
    hide Step;
    if events != [] {
      NothingEdits(b, Step(b, s, events[0]).state, events[1..]);
    }
  }

  // --------------------------------------------------------- once it is edited

  /** An edited image stays edited until the next download is complete. */
  lemma {:induction false} EditedStays(p: Phase, notes: seq<Note>)
    requires p.Loaded? ==> Worn(p.image, p.now) && p.now != p.image
    requires Completed !in notes
    ensures var q := Follow(p, notes);
            q.Loaded? ==> p.Loaded? && q.image == p.image && Worn(q.image, q.now) && q.now != q.image
    decreases |notes|
  {
    hide Worn, Shows;
    if notes != [] {
      var q := Next(p, notes[0]);
      if q.Loaded? && notes[0].Saved? {
        EditedMore(p.image, p.now, q.now);
      }
      EditedStays(q, notes[1..]);
    }
  }

  lemma EditedMore(a: seq<char8>, b: seq<char8>, c: seq<char8>)
    requires Worn(a, b) && Worn(b, c) && b != a
    ensures Worn(a, c) && c != a
  {
    var k :| 0 <= k < |a| && b[k] != a[k];
    assert c[k] == b[k] || Rank(c[k]) < Rank(b[k]);
  }

  /** Then no flash command that writes or saves the whole image acts on what came. */
  lemma EditedIsNotProper(b: Board, s: State, p: Phase, cmd: seq<char8>)
    requires Good(b, s) && Stands(s, p) && p.Loaded? && p.now != p.image && |cmd| >= 6
    requires var name := NameIn(cmd, 6);
             || (Whole(b, s, name) && b.taken(name, 0, s.bytes, s.buffer) == s.bytes)
             || (name != "boot" && name in b.parts && b.parts[name].saveenv)
    ensures !AllProper(p, Flash(b, s, cmd).notes)
  {
    hide Next, AllProper, NameIn, FlashBoot, Rank, SaveEnv, FlashReply, TooLarge;
    var name := NameIn(cmd, 6);
    if b.parts[name].saveenv {
      var r := SaveEnv(s.buffer, s.bytes);
      OtherNote(p, Saved(s.buffer[..s.bytes], r.buf[..s.bytes], r.saved));
    } else {
      var span := Take(s.buffer, 0, s.bytes);
      OneUse(p, cmd, [span]);
      assert span in [span];
      assert s.buffer[0..s.bytes] == s.buffer[..s.bytes];
      assert p.image[0..|p.image|] == p.image;
    }
  }

  // ----------------------------------------------------------- failing cases

  /** flash:boot takes its sizes from a header that need not have come: after a
      download of one byte it takes bytes that were never received. */
  lemma OneByteBoot(b: Board, s: State, p: Phase)
    requires Good(b, s) && Stands(s, p) && Unaltered(p) && s.size == 0 && s.bytes == 1
    ensures !AllProper(p, Command(b, s, "flash:boot").notes)
  {
    hide Stands, Command, AllProper;
    FlashName("flash:boot", "boot");
    CommandIsProper(b, s, p, "flash:boot");
  }

  lemma {:induction false} ReadName(cmd: seq<char8>, i: nat)
    requires i <= |cmd| && '\0' !in cmd
    ensures StringAt(cmd, i) == cmd[i..]
    decreases |cmd| - i
  {
    if i < |cmd| {
      ReadName(cmd, i + 1);
      assert cmd[i] in cmd;
    }
  }

  lemma FlashName(cmd: seq<char8>, name: string)
    requires cmd == "flash:" + name && '\0' !in name
    ensures Starts(cmd, "flash:") && NameIn(cmd, 6) == name
    ensures !Starts(cmd, "reboot") && !Starts(cmd, "download:") && !Starts(cmd, "boot")
  {
    ReadName(cmd, 6);
    assert cmd[..6] == "flash:" && cmd[6..] == name;
    assert cmd[0] == 'f';
  }

  /** Settings saved from "a b" with a line feed, and then the same download written to
      another partition: what is written has a NUL for the space and the line feed. */
  lemma SavedThenFlashed(b: Board, s: State)
    requires Good(b, s) && s.size == 0
    requires "env" in b.parts && b.parts["env"].saveenv && Whole(b, State(0, 4, s.buffer), "system")
    requires forall buffer :: b.taken("system", 0, 4, buffer) == 4
    ensures var events := [Packet("download:4"), Packet("a b\n"), Packet("flash:env"), Packet("flash:system")];
            Run(b, s, events).notes
              == [Started(4), Received("a b\n"), Completed,
                  Saved("a b\n", "a\0b\0", [Setting("a", Some("b"))]), Used("flash:system", [Span(0, 4, "a\0b\0")])]
  {
    hide *;
    var r1 := Step(b, s, Packet("download:4"));
    var r2 := Step(b, r1.state, Packet("a b\n"));
    var r3 := Step(b, r2.state, Packet("flash:env"));
    FourBytes(b, s);
    SaveLine(b, r2.state);
    SameSize(b, State(0, 4, s.buffer), r3.state, "system");
    FlashLine(b, r3.state);
    FourEvents(b, s, Packet("download:4"), Packet("a b\n"), Packet("flash:env"), Packet("flash:system"));
  }

  lemma SameSize(b: Board, s: State, t: State, name: string)
    requires s.bytes == t.bytes && Whole(b, s, name)
    ensures Whole(b, t, name)
  {}

  lemma FourEvents(b: Board, s: State, e1: Event, e2: Event, e3: Event, e4: Event)
    requires Good(b, s)
    ensures var r1 := Step(b, s, e1);
            var r2 := Step(b, r1.state, e2);
            var r3 := Step(b, r2.state, e3);
            var r4 := Step(b, r3.state, e4);
            Run(b, s, [e1, e2, e3, e4]).notes == r1.notes + (r2.notes + (r3.notes + (r4.notes + [])))
  {
    hide *;
    var r1 := Step(b, s, e1);
    var r2 := Step(b, r1.state, e2);
    var r3 := Step(b, r2.state, e3);
    FirstEvent(b, s, [e1, e2, e3, e4]);
    FirstEvent(b, r1.state, [e2, e3, e4]);
    FirstEvent(b, r2.state, [e3, e4]);
    FirstEvent(b, r3.state, [e4]);
    assert [e1, e2, e3, e4][1..] == [e2, e3, e4];
    assert [e2, e3, e4][1..] == [e3, e4];
    assert [e3, e4][1..] == [e4];
    assert [e4][1..] == [];
  }

  lemma FirstEvent(b: Board, s: State, events: seq<Event>)
    requires Good(b, s) && events != []
    ensures var r := Step(b, s, events[0]);
            Run(b, s, events).notes == r.notes + Run(b, r.state, events[1..]).notes && Run(b, r.state, []).notes == []
  {
    hide Step;
  }

  /** The download. */
  lemma FourBytes(b: Board, s: State)
    requires Good(b, s) && s.size == 0
    ensures var r1 := Step(b, s, Packet("download:4"));
            var r2 := Step(b, r1.state, Packet("a b\n"));
            && r1.notes == [Started(4)] && r2.notes == [Received("a b\n"), Completed]
            && r2.state.size == 0 && r2.state.bytes == 4 && r2.state.buffer[..4] == "a b\n"
  {
    hide Hex8;
    assert "download:4"[9..] == "4" && "4"[1..] == "";
    assert Digits("4", 16, 0) == Digits("", 16, 4) == (4, "");
    assert "download:4"[..9] == "download:" && "download:4"[0] == 'd';
    assert !Starts("download:4", "reboot");
    assert "a b\n"[..4] == "a b\n";
  }

  lemma SaveLine(b: Board, s: State)
    requires Good(b, s) && s.size == 0 && s.bytes == 4 && s.buffer[..4] == "a b\n"
    requires "env" in b.parts && b.parts["env"].saveenv
    ensures var r := Step(b, s, Packet("flash:env"));
            && r.notes == [Saved("a b\n", "a\0b\0", [Setting("a", Some("b"))])]
            && r.state.size == 0 && r.state.bytes == 4 && r.state.buffer[..4] == "a\0b\0"
  {
    hide SaveEnv, Lines, NameIn;
    FlashName("flash:env", "env");
    var one := Setting("a", Some("b"));
    assert Writable(one);
    OneLine(one);
    SettingsAreSaved([one], s.buffer, 4);
  }

  lemma OneLine(s: Setting)
    requires s == Setting("a", Some("b")) && AllWritable([s])
    ensures Lines([s], ' ', '\n') == "a b\n" && Lines([s], '\0', '\0') == "a\0b\0"
  {
    assert [s][1..] == [] && Lines([], ' ', '\n') == [] && Lines([], '\0', '\0') == [];
  }

  lemma FlashLine(b: Board, s: State)
    requires Good(b, s) && s.size == 0 && s.bytes == 4 && Whole(b, s, "system")
    requires b.taken("system", 0, 4, s.buffer) == 4
    ensures Step(b, s, Packet("flash:system")).notes == [Used("flash:system", [Span(0, 4, s.buffer[..4])])]
  {
    hide NameIn;
    FlashName("flash:system", "system");
    assert s.buffer[0..4] == s.buffer[..4];
  }
}
