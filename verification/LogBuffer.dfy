/** The log buffer (common/cmd_log.c): a ring of characters in two layouts, and the
    writer that puts a level tag in front of every line. */
module LogBuffer {
  import opened CText

  const LOGBUFF_LEN: nat := 16384
  const BUF_SIZE: nat := 1024
  const DEFAULT_MESSAGE_LOGLEVEL: nat := 4

  // -------------------------------------------------------------- level tags

  /** "<0>" to "<7>". */
  predicate HasTag(s: string) {
    |s| >= 3 && s[0] == '<' && '0' <= s[1] <= '7' && s[2] == '>'
  }

  /** The length of the first line of s, with its line feed if it has one. */
  function LineLength(s: string): (n: nat)
    ensures n <= |s| && (s != "" ==> n > 0)
    ensures forall i :: 0 <= i < n - 1 ==> s[i] != '\n'
    ensures n < |s| ==> n > 0 && s[n - 1] == '\n'
  {
    if s == "" then 0 else if s[0] == '\n' then 1 else 1 + LineLength(s[1..])
  }

  /** The tag of default_message_loglevel. */
  const DEFAULT_TAG := ['<', ('0' as int + DEFAULT_MESSAGE_LOGLEVEL) as char, '>']

  /** What a line in progress is given in front: nothing when it is the rest of a
      line already begun (level >= 0) or brings its own tag. */
  function TagFor(level: int, s: string): string {
    if level >= 0 || HasTag(s) then "" else DEFAULT_TAG
  }

  /** The level of a line, given what is logged of it. */
  function LevelOf(level: int, s: string): int
    requires level >= 0 || HasTag(s)
  {
    if level >= 0 then level else s[1] as int - '0' as int
  }

  /** logbuff_printk of text s when the line in progress has the given level (-1: a
      line is about to begin): the characters logged and the level afterwards. */
  function Tagged(level: int, s: string): (r: (string, int))
    decreases |s|
  {
    if s == "" then ("", level)
    else
      var n := LineLength(s);
      var line := TagFor(level, s) + s[..n];
      if s[n - 1] == '\n' then
        var (more, level') := Tagged(-1, s[n..]);
        (line + more, level')
      else (line, LevelOf(level, TagFor(level, s) + s))
  }

  /** Every line of a log starts with a tag. */
  ghost predicate LinesTagged(s: string) {
    forall i :: 0 <= i < |s| && (i == 0 || s[i - 1] == '\n') ==> HasTag(s[i..])
  }

  /** The level is -1 exactly when the log so far ends with a whole line. */
  predicate AtLineStart(s: string) {
    s == "" || s[|s| - 1] == '\n'
  }

  lemma HasTagAppend(s: string, t: string)
    requires HasTag(s)
    ensures HasTag(s + t)
  {}

  /** Appending keeps lines tagged if what follows a whole line starts with a tag. */
  lemma TaggedAppend(s: string, t: string)
    requires LinesTagged(s)
    requires forall i :: 0 < i < |t| && t[i - 1] == '\n' ==> HasTag(t[i..])
    requires AtLineStart(s) && t != "" ==> HasTag(t)
    ensures LinesTagged(s + t)
  {
    var u := s + t;
    forall i | 0 <= i < |u| && (i == 0 || u[i - 1] == '\n') ensures HasTag(u[i..]) {
      if i < |s| {
        assert u[i..] == s[i..] + t;
        HasTagAppend(s[i..], t);
      } else {
        assert u[i..] == t[i - |s|..];
      }
    }
  }

  /** What one call logs: tagged lines, except that its first characters may go on
      with a line begun before. */
  lemma {:induction false} TaggedLines(level: int, s: string)
    requires -1 <= level
    ensures var (out, level') := Tagged(level, s);
            && (forall i :: 0 < i < |out| && out[i - 1] == '\n' ==> HasTag(out[i..]))
            && (level < 0 && out != "" ==> HasTag(out))
            && (out == "" <==> s == "")
            && (out != "" ==> (level' < 0 <==> out[|out| - 1] == '\n'))
            && -1 <= level'
    decreases |s|
  {
    hide LineLength, TagFor, HasTag;
    if s != "" {
      var n := LineLength(s);
      var line := TagFor(level, s) + s[..n];
      FirstLine(level, s);
      if s[n - 1] == '\n' {
        TaggedLines(-1, s[n..]);
        JoinLines(line, Tagged(-1, s[n..]).0);
      }
    }
  }

  lemma FirstLine(level: int, s: string)
    requires -1 <= level && s != ""
    ensures var n := LineLength(s);
            var line := TagFor(level, s) + s[..n];
            && 0 < n <= |s| && line != "" && line[|line| - 1] == s[n - 1]
            && (level < 0 ==> HasTag(line))
            && (forall i :: 0 <= i < |line| - 1 ==> line[i] != '\n')
            && (s[n - 1] != '\n' ==> n == |s| && LevelOf(level, TagFor(level, s) + s) >= 0)
  {
    var n := LineLength(s);
    if HasTag(s) {
      TagInLine(s);
    }
    var line := TagFor(level, s) + s[..n];
    assert line[|line| - 1] == s[n - 1];
  }

  lemma JoinLines(line: string, more: string)
    requires line != "" && forall i :: 0 <= i < |line| - 1 ==> line[i] != '\n'
    requires forall i :: 0 < i < |more| && more[i - 1] == '\n' ==> HasTag(more[i..])
    requires more != "" ==> HasTag(more)
    ensures var out := line + more;
            && (forall i :: 0 < i < |out| && out[i - 1] == '\n' ==> HasTag(out[i..]))
            && (HasTag(line) ==> HasTag(out))
            && out[|out| - 1] == if more == "" then line[|line| - 1] else more[|more| - 1]
  {
    var out := line + more;
    forall i | 0 < i < |out| && out[i - 1] == '\n' ensures HasTag(out[i..]) {
      assert out[i - 1] == if i - 1 < |line| then line[i - 1] else more[i - 1 - |line|];
      assert out[i..] == more[i - |line|..];
    }
  }

  /** A tag is within the first line. */
  lemma TagInLine(s: string)
    requires HasTag(s)
    ensures LineLength(s) >= 3 && HasTag(s[..LineLength(s)])
  {
    var n := LineLength(s);
    assert n < |s| ==> s[n - 1] == '\n';
  }

  /** A call of logbuff_printk, or of logbuff_reset, which leaves the level alone. */
  datatype Event = Text(text: string) | Reset

  /** The log and the level after any run of calls. */
  function Run(log: string, level: int, events: seq<Event>): (string, int)
    decreases |events|
  {
    if events == [] then (log, level)
    else match events[0]
      case Reset => Run("", level, events[1..])
      case Text(s) => var (out, level') := Tagged(level, s); Run(log + out, level', events[1..])
  }

  predicate NoReset(events: seq<Event>) {
    forall i :: 0 <= i < |events| ==> events[i].Text?
  }

  /** All text of a run. */
  function AllText(events: seq<Event>): string
    decreases |events|
  {
    if events == [] then "" else (if events[0].Text? then events[0].text else "") + AllText(events[1..])
  }

  /** Every line of a log but the first. */
  ghost predicate LaterTagged(s: string) {
    forall i :: 0 < i < |s| && s[i - 1] == '\n' ==> HasTag(s[i..])
  }

  lemma FirstAndLater(s: string)
    ensures LinesTagged(s) <==> LaterTagged(s) && (s == "" || HasTag(s))
  {
    assert s[0..] == s;
  }

  /** Through any run, resets included, every line but the first gets its tag. */
  lemma {:induction false} LaterLinesAreTagged(log: string, level: int, events: seq<Event>)
    requires -1 <= level && LaterTagged(log) && (log != "" ==> (level < 0 <==> AtLineStart(log)))
    ensures LaterTagged(Run(log, level, events).0)
    decreases |events|
  {
    hide Tagged, HasTag;
    if events != [] {
      match events[0]
      case Reset => LaterLinesAreTagged("", level, events[1..]);
      case Text(s) =>
        var (out, level') := Tagged(level, s);
        TaggedLines(level, s);
        LaterAppend(log, out);
        SilentCall(level, s);
        LaterLinesAreTagged(log + out, level', events[1..]);
    }
  }

  lemma LaterAppend(s: string, t: string)
    requires LaterTagged(s) && LaterTagged(t)
    requires s != "" && AtLineStart(s) && t != "" ==> HasTag(t)
    ensures LaterTagged(s + t)
  {
    hide HasTag;
    var u := s + t;
    forall i | 0 < i < |u| && u[i - 1] == '\n' ensures HasTag(u[i..]) {
      if i < |s| {
        assert u[i..] == s[i..] + t;
        HasTagAppend(s[i..], t);
      } else {
        assert u[i..] == t[i - |s|..];
        if i == |s| {
          assert t[0..] == t;
        }
      }
    }
  }

  /** Through any run of logbuff_printk calls, every line of the log starts with a
      level tag. */
  lemma {:induction false} EveryLineIsTagged(log: string, level: int, events: seq<Event>)
    requires -1 <= level && LinesTagged(log) && (level < 0 <==> AtLineStart(log)) && NoReset(events)
    ensures LinesTagged(Run(log, level, events).0)
    decreases |events|
  {
    hide Tagged;
    if events != [] {
      var s := events[0].text;
      var (out, level') := Tagged(level, s);
      TaggedLines(level, s);
      TaggedAppend(log, out);
      SilentCall(level, s);
      EveryLineIsTagged(log + out, level', events[1..]);
    }
  }

  /** A line is in progress exactly if the text so far does not end with a line feed. */
  lemma {:induction false} LevelIsMidLine(log: string, level: int, done: string, events: seq<Event>)
    requires -1 <= level && (level < 0 <==> AtLineStart(done))
    ensures -1 <= Run(log, level, events).1
    ensures Run(log, level, events).1 < 0 <==> AtLineStart(done + AllText(events))
    decreases |events|
  {
    hide Tagged;
    if events == [] {
      assert done + "" == done;
    } else {
      var s := if events[0].Text? then events[0].text else "";
      assert done + s + AllText(events[1..]) == done + (s + AllText(events[1..]));
      if events[0].Reset? {
        assert done + s == done;
        LevelIsMidLine("", level, done, events[1..]);
      } else {
        var (out, level') := Tagged(level, s);
        TaggedLines(level, s);
        SilentCall(level, s);
        if s == "" {
          assert done + s == done;
        } else {
          TaggedEnds(level, s);
        }
        LevelIsMidLine(log + out, level', done + s, events[1..]);
      }
    }
  }

  /** What is logged ends as the text does. */
  lemma {:induction false} TaggedEnds(level: int, s: string)
    requires -1 <= level && s != ""
    ensures var out := Tagged(level, s).0;
            out != "" && out[|out| - 1] == s[|s| - 1]
    decreases |s|
  {
    hide LineLength, TagFor, LevelOf;
    var n := LineLength(s);
    FirstLine(level, s);
    if s[n - 1] == '\n' {
      SilentCall(-1, s[n..]);
      if s[n..] != "" {
        TaggedEnds(-1, s[n..]);
      }
    }
  }

  lemma {:induction false} RunAppend(log: string, level: int, a: seq<Event>, b: seq<Event>)
    ensures Run(log, level, a + b) == var (log', level') := Run(log, level, a); Run(log', level', b)
    decreases |a|
  {
    hide Tagged;
    if a == [] {
      assert a + b == b;
    } else {
      assert (a + b)[0] == a[0] && (a + b)[1..] == a[1..] + b;
      match a[0]
      case Reset => RunAppend("", level, a[1..], b);
      case Text(s) => RunAppend(log + Tagged(level, s).0, Tagged(level, s).1, a[1..], b);
    }
  }

  /** Without resets the log only grows. */
  lemma {:induction false} RunGrows(log: string, level: int, events: seq<Event>)
    requires NoReset(events)
    ensures log <= Run(log, level, events).0
    decreases |events|
  {
    hide Tagged;
    if events != [] {
      RunGrows(log + Tagged(level, events[0].text).0, Tagged(level, events[0].text).1, events[1..]);
    }
  }

  /** Two texts that begin with the same whole line have both a tag or none. */
  lemma LineFeedDecides(line: string, a: string, b: string)
    requires line != "" && line[|line| - 1] == '\n' && line <= a && line <= b
    ensures HasTag(a) <==> HasTag(b)
  {}

  /** The rest of a line in progress is logged as it is. */
  lemma RestOfLine(level: int, s: string)
    requires level >= 0 && s != ""
    ensures var n := LineLength(s);
            if s[n - 1] == '\n' then s[..n] <= Tagged(level, s).0 else Tagged(level, s) == (s, level)
  {
    var n := LineLength(s);
    assert TagFor(level, s) + s[..n] == s[..n];
    if s[n - 1] != '\n' {
      assert n == |s| && s[..n] == s;
    }
  }

  /** A first line begun without a tag has one exactly if the text itself brings it. */
  lemma {:induction false} BegunLine(begun: string, level: int, events: seq<Event>)
    requires level >= 0 && NoReset(events)
    ensures HasTag(Run(begun, level, events).0) <==> HasTag(begun + AllText(events))
    ensures Run(begun, level, events).0 == "" <==> begun + AllText(events) == ""
    decreases |events|
  {
    hide HasTag, Tagged, LineLength;
    if events == [] {
      assert begun + "" == begun;
    } else {
      var s, rest := events[0].text, events[1..];
      assert begun + s + AllText(rest) == begun + (s + AllText(rest));
      SilentCall(level, s);
      if s != "" {
        RestOfLine(level, s);
      }
      var n := LineLength(s);
      if s != "" && s[n - 1] == '\n' {
        var out := Tagged(level, s).0;
        RunGrows(begun + out, Tagged(level, s).1, rest);
        LineFeedDecides(begun + s[..n], Run(begun, level, events).0, begun + (s + AllText(rest)));
      } else {
        BegunLine(begun + s, level, rest);
      }
    }
  }

  /** After a reset every line of the log is tagged exactly if the reset did not come
      in the middle of a line, or nothing was logged since, or what was logged since
      brings its own tag. Without a reset every line is (EveryLineIsTagged). */
  lemma TaggedAfterReset(before: seq<Event>, after: seq<Event>)
    requires NoReset(after)
    ensures LinesTagged(Run("", -1, before + [Reset] + after).0)
       <==> AtLineStart(AllText(before)) || AllText(after) == "" || HasTag(AllText(after))
  {
    hide Tagged, HasTag, AllText, AtLineStart;
    assert before + [Reset] + after == before + ([Reset] + after) && ([Reset] + after)[1..] == after;
    RunAppend("", -1, before, [Reset] + after);
    var level := Run("", -1, before).1;
    NothingLogged(before);
    LevelIsMidLine("", -1, "", before);
    if level < 0 {
      EveryLineIsTagged("", level, after);
    } else {
      LaterLinesAreTagged("", level, after);
      BegunLine("", level, after);
      assert "" + AllText(after) == AllText(after);
      FirstAndLater(Run("", level, after).0);
    }
  }

  lemma NothingLogged(before: seq<Event>)
    ensures AtLineStart("") && LinesTagged("") && LaterTagged("") && "" + AllText(before) == AllText(before)
  {}

  lemma SilentCall(level: int, s: string)
    ensures s == "" ==> Tagged(level, s) == ("", level)
  {}

  /** Text that is tagged already is logged as it is. */
  lemma {:induction false} TaggedTextIsKept(s: string)
    requires LinesTagged(s)
    ensures Tagged(-1, s).0 == s
    decreases |s|
  {
    hide HasTag, Tagged, LineLength;
    SilentCall(-1, s);
    if s != "" {
      var n := LineLength(s);
      assert s[0..] == s;
      TaggedLine(s);
      if s[n - 1] == '\n' {
        forall i | 0 <= i < |s[n..]| && (i == 0 || s[n..][i - 1] == '\n') ensures HasTag(s[n..][i..]) {
          assert s[n..][i..] == s[n + i..];
        }
        TaggedTextIsKept(s[n..]);
        assert s[..n] + s[n..] == s;
      }
    }
  }

  lemma TaggedLine(s: string)
    requires HasTag(s)
    ensures var n := LineLength(s);
            Tagged(-1, s).0 == if s[n - 1] == '\n' then s[..n] + Tagged(-1, s[n..]).0 else s
  {
    var n := LineLength(s);
    assert "" + s[..n] == s[..n];
  }
}
