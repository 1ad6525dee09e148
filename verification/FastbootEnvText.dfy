/** What environment texts do (common/cmd_fastboot.c): which are saved, which come out
    of it unchanged, and that saving one twice undoes it. */
module FastbootEnvText {
  import opened CText
  import opened FastbootEnv

  // ------------------------------------------------------------ wearing down

  /** Characters are only ever replaced by NUL, and by a space if they were neither. */
  function Rank(c: char): nat {
    if c == '\0' then 0 else if c == ' ' then 1 else 2
  }

  ghost predicate Worn(a: seq<char8>, b: seq<char8>) {
    |a| == |b| && forall k :: 0 <= k < |a| ==> b[k] == a[k] || Rank(b[k]) < Rank(a[k])
  }

  /** One of the first `size` characters is worn. */
  ghost predicate WornBefore(a: seq<char8>, b: seq<char8>, size: nat)
    requires |a| == |b|
  {
    exists k :: 0 <= k < size && k < |a| && Rank(b[k]) < Rank(a[k])
  }

  lemma WornOn(a: seq<char8>, b: seq<char8>, c: seq<char8>, size: nat)
    requires Worn(a, b) && Worn(b, c)
    ensures Worn(a, c)
    ensures WornBefore(a, b, size) || WornBefore(b, c, size) ==> WornBefore(a, c, size)
  {
    if WornBefore(a, b, size) {
      var k :| 0 <= k < size && k < |a| && Rank(b[k]) < Rank(a[k]);
      assert Rank(c[k]) < Rank(a[k]);
    }
    if WornBefore(b, c, size) {
      var k :| 0 <= k < size && k < |b| && Rank(c[k]) < Rank(b[k]);
      assert Rank(c[k]) < Rank(a[k]);
    }
  }

  lemma WornIsChanged(a: seq<char8>, b: seq<char8>, size: nat)
    requires Worn(a, b) && size <= |a|
    ensures WornBefore(a, b, size) <==> b[..size] != a[..size]
  {
    if WornBefore(a, b, size) {
      var k :| 0 <= k < size && k < |a| && Rank(b[k]) < Rank(a[k]);
      assert b[..size][k] != a[..size][k];
    } else {
      assert forall k :: 0 <= k < size ==> b[..size][k] == a[..size][k];
    }
  }

  lemma TurnWears(save: bool, e: Env, i: nat, size: nat)
    requires Sane(e, i) && i < size < |e.buf|
    ensures Worn(e.buf, Turn(save, e, i).buf)
    ensures save && Turn(save, e, i).sets > e.sets ==> WornBefore(e.buf, Turn(save, e, i).buf, size)
    ensures e.val.Some? && IsBreak(e.buf[i]) && e.buf[i - 1] == '\\' ==>
              WornBefore(e.buf, Turn(save, e, i).buf, size)
  {
    hide StringAt;
    var r := Turn(save, e, i);
    if r.buf != e.buf {
      assert IsBreak(e.buf[i]) && Rank(r.buf[i]) < Rank(e.buf[i]);
    }
  }

  lemma {:induction false} ScanWears(save: bool, e: Env, i: nat, size: nat)
    requires Sane(e, i) && i <= size < |e.buf|
    ensures Worn(e.buf, Scan(save, e, i, size).buf)
    decreases size - i
  {
    hide Turn, Sane, WornBefore;
    if i < size {
      TurnWears(save, e, i, size);
      ScanWears(save, Turn(save, e, i), i + 1, size);
      WornOn(e.buf, Turn(save, e, i).buf, Scan(save, e, i, size).buf, size);
    }
  }

  lemma LastWears(save: bool, e: Env, size: nat)
    requires Sane(e, size)
    ensures Worn(e.buf, Last(save, e, size).buf)
    ensures save && e.gap.Some? ==> WornBefore(e.buf, Last(save, e, size).buf, size)
  {
    hide StringAt;
    if save && e.gap.Some? {
      var k := e.gap.value;
      assert Rank(Last(save, e, size).buf[k]) < Rank(e.buf[k]);
    }
  }

  lemma RestWears(save: bool, e: Env, i: nat, size: nat)
    requires Sane(e, i) && i <= size < |e.buf|
    ensures Worn(e.buf, Last(save, Scan(save, e, i, size), size).buf)
  {
    hide Scan, Last, Sane, WornBefore, Worn;
    ScanWears(save, e, i, size);
    LastWears(save, Scan(save, e, i, size), size);
    WornOn(e.buf, Scan(save, e, i, size).buf, Last(save, Scan(save, e, i, size), size).buf, size);
  }

  lemma ParseWears(save: bool, buf: seq<char8>, size: nat)
    requires size < |buf|
    ensures Worn(buf, Parse(save, buf, size).buf)
  {
    hide Scan, Last, WornBefore;
    var start := if save then buf[size := '\0'] else buf;
    RestWears(save, Between(start, 0, []), 0, size);
    WornOn(buf, start, Parse(save, buf, size).buf, size);
  }

  lemma SavingWears(buf: seq<char8>, size: nat)
    requires size < |buf|
    ensures Worn(buf, SaveEnv(buf, size).buf)
  {
    hide Parse, WornBefore, Worn;
    ParseWears(false, buf, size);
    var b := Parse(false, buf, size).buf;
    ParseWears(true, b, size);
    WornOn(buf, b, Parse(true, b, size).buf, size);
  }

  // ------------------------------------------------------------ what is saved

  /** Where the first name starts, behind blanks and comments. */
  function NameStart(buf: seq<char8>, comment: bool, i: nat, size: nat): (r: Option<nat>)
    requires i <= size < |buf|
    ensures r.Some? ==> i <= r.value < size && !IsGap(buf[r.value]) && !IsBreak(buf[r.value])
    decreases size - i
  {
    if i == size then None
    else if comment || buf[i] == '#' then NameStart(buf, !IsBreak(buf[i]), i + 1, size)
    else if IsGap(buf[i]) || IsBreak(buf[i]) then NameStart(buf, false, i + 1, size)
    else Some(i)
  }

  /** Up to there nothing happens. */
  lemma {:induction false} ScanToName(save: bool, e: Env, i: nat, size: nat)
    requires Sane(e, i) && i <= size < |e.buf| && e.first == None
    ensures match NameStart(e.buf, e.comment, i, size)
            case None => Scan(save, e, i, size) in {e.(comment := true), e.(comment := false)}
            case Some(k) =>
              var e' := e.(comment := false, first := Some(k));
              Sane(e', k + 1) && Scan(save, e, i, size) == Scan(save, e', k + 1, size)
    decreases size - i
  {
    hide Turn, Sane;
    if i < size {
      var e' := Turn(save, e, i);
      BeforeName(save, e, i);
      if e'.first == None {
        ScanToName(save, e', i + 1, size);
        assert e.(comment := true) == e'.(comment := true) && e.(comment := false) == e'.(comment := false);
      }
    } else {
      assert e in {e.(comment := true), e.(comment := false)};
    }
  }

  lemma BeforeName(save: bool, e: Env, i: nat)
    requires Sane(e, i) && i + 1 < |e.buf| && e.first == None
    ensures var c := e.buf[i];
            Turn(save, e, i) == if e.comment || c == '#' then e.(comment := !IsBreak(c))
                                else if IsGap(c) || IsBreak(c) then e else e.(first := Some(i))
    ensures !e.comment ==> e.(comment := false) == e
  {
    hide Found, Joined;
  }

  function StartOf(save: bool, buf: seq<char8>, size: nat): seq<char8>
    requires size < |buf|
  {
    if save then buf[size := '\0'] else buf
  }

  /** The state when the first name has started. */
  function Named(buf: seq<char8>, k: nat): Env {
    Between(buf, 0, []).(first := Some(k))
  }

  lemma ParseFromName(save: bool, buf: seq<char8>, size: nat)
    requires size < |buf|
    ensures var start := StartOf(save, buf, size);
            match NameStart(start, false, 0, size)
            case None => Parse(save, buf, size).(comment := false) == Between(start, 0, [])
            case Some(k) =>
              && Sane(Named(start, k), k + 1)
              && Parse(save, buf, size) == Last(save, Scan(save, Named(start, k), k + 1, size), size)
  {
    hide Scan, NameStart, StringAt;
    ScanToName(save, Between(StartOf(save, buf, size), 0, []), 0, size);
  }

  /** Once a name has started there is a setting. */
  lemma {:induction false} NameIsSet(save: bool, e: Env, i: nat, size: nat)
    requires Sane(e, i) && i <= size < |e.buf|
    ensures var r := Scan(save, e, i, size);
            r.sets >= e.sets && (e.first.Some? ==> r.sets > e.sets || r.first.Some?)
    decreases size - i
  {
    hide Joined, StringAt;
    if i < size {
      NameIsSet(save, Turn(save, e, i), i + 1, size);
    }
  }

  lemma ParseSets(save: bool, buf: seq<char8>, size: nat)
    requires size < |buf|
    ensures var start := StartOf(save, buf, size);
            var r := Parse(save, buf, size);
            if NameStart(start, false, 0, size) == None then r.buf == start && r.sets == 0 && r.saved == []
            else r.sets > 0
  {
    hide Scan, NameStart, StringAt, Parse;
    var start := StartOf(save, buf, size);
    ParseFromName(save, buf, size);
    match NameStart(start, false, 0, size) {
      case None =>
      case Some(k) => NameIsSet(save, Named(start, k), k + 1, size);
    }
  }

  /** Without saving nothing before the first name's end changes. */
  lemma {:induction false} CheckingKeeps(e: Env, i: nat, size: nat, m: nat)
    requires Sane(e, i) && i <= size < |e.buf| && m <= i
    requires e.first.Some? ==> m <= e.first.value + 1
    ensures Scan(false, e, i, size).buf[..m] == e.buf[..m]
    decreases size - i
  {
    hide StringAt;
    if i < size {
      var e' := Turn(false, e, i);
      assert e'.buf[..m] == e.buf[..m];
      CheckingKeeps(e', i + 1, size, m);
    }
  }

  lemma {:induction false} NameStartIsLocal(a: seq<char8>, b: seq<char8>, comment: bool, i: nat, size: nat)
    requires i <= size < |a| && |b| == |a|
    requires NameStart(a, comment, i, size).Some?
    requires a[..NameStart(a, comment, i, size).value + 1] == b[..NameStart(a, comment, i, size).value + 1]
    ensures NameStart(b, comment, i, size) == NameStart(a, comment, i, size)
    decreases size - i
  {
    var k := NameStart(a, comment, i, size).value;
    assert a[i] == a[..k + 1][i] == b[i];
    if k != i {
      NameStartIsLocal(a, b, if comment || a[i] == '#' then !IsBreak(a[i]) else false, i + 1, size);
    }
  }

  /** The pass that only checks leaves the first name where it is. */
  lemma CheckingKeepsName(buf: seq<char8>, size: nat)
    requires size < |buf| && NameStart(buf, false, 0, size).Some?
    ensures var k := NameStart(buf, false, 0, size).value;
            var b := Parse(false, buf, size).buf;
            b[..k + 1] == buf[..k + 1] && NameStart(b[size := '\0'], false, 0, size) == Some(k)
  {
    hide Scan, NameStart, StringAt, Parse;
    var k := NameStart(buf, false, 0, size).value;
    ParseFromName(false, buf, size);
    CheckingKeeps(Named(buf, k), k + 1, size, k + 1);
    var b := Parse(false, buf, size).buf;
    assert b[size := '\0'][..k + 1] == b[..k + 1];
    NameStartIsLocal(buf, b[size := '\0'], false, 0, size);
  }

  /** A text is saved exactly if a name starts in it outside a comment; otherwise
      nothing changes. */
  lemma SavedIfNamed(buf: seq<char8>, size: nat)
    requires size < |buf|
    ensures var r := SaveEnv(buf, size);
            if NameStart(buf, false, 0, size).Some? then r.reply == "OKAY"
            else r == Saving(buf, [], NOTHING_SET)
  {
    hide Parse, NameStart;
    ParseSets(false, buf, size);
    if NameStart(buf, false, 0, size).Some? {
      CheckingKeepsName(buf, size);
      ParseSets(true, Parse(false, buf, size).buf, size);
    }
  }

  // --------------------------------------------------- what comes out unchanged

  /** All there is behind comments and blanks is one name that runs to the end. */
  predicate OneName(buf: seq<char8>, size: nat)
    requires size < |buf|
  {
    match NameStart(buf, false, 0, size)
    case None => true
    case Some(start) => forall k :: start < k < size ==> !IsGap(buf[k]) && !IsBreak(buf[k])
  }

  lemma {:induction false} NameRunsOn(save: bool, e: Env, i: nat, j: nat, size: nat)
    requires Sane(e, i) && i <= j <= size < |e.buf| && e.first.Some? && e.gap == None
    requires forall k :: i <= k < j ==> !IsGap(e.buf[k]) && !IsBreak(e.buf[k])
    ensures Sane(e, j) && Scan(save, e, i, size) == Scan(save, e, j, size)
    decreases j - i
  {
    hide Found, Joined;
    if i < j {
      assert Turn(save, e, i) == e;
      NameRunsOn(save, e, i + 1, j, size);
    }
  }

  lemma OneNameIsKept(save: bool, buf: seq<char8>, size: nat)
    requires size < |buf| && OneName(buf, size)
    ensures var r := Parse(save, buf, size);
            r.buf == StartOf(save, buf, size)
  {
    hide NameStart, StringAt, Scan, Parse;
    var start := StartOf(save, buf, size);
    SameStart(buf, start, false, 0, size);
    ParseFromName(save, buf, size);
    if NameStart(buf, false, 0, size).Some? {
      var k := NameStart(buf, false, 0, size).value;
      NameRunsOn(save, Named(start, k), k + 1, size, size);
      ScanEnd(save, Named(start, k), size);
    }
  }

  lemma ScanEnd(save: bool, e: Env, size: nat)
    requires Sane(e, size)
    ensures Scan(save, e, size, size) == e
  {}

  lemma {:induction false} SameStart(a: seq<char8>, b: seq<char8>, comment: bool, i: nat, size: nat)
    requires i <= size < |a| && |b| == |a| && a[..size] == b[..size]
    ensures NameStart(b, comment, i, size) == NameStart(a, comment, i, size)
    decreases size - i
  {
    if i < size {
      assert a[i] == a[..size][i] == b[i];
      SameStart(a, b, if comment || a[i] == '#' then !IsBreak(a[i]) else false, i + 1, size);
    }
  }

  /** A name that ends leaves a mark when it is saved. */
  lemma {:induction false} EndedNameWears(e: Env, i: nat, size: nat)
    requires Sane(e, i) && i <= size < |e.buf| && e.first.Some?
    requires e.gap.Some? || exists k :: i <= k < size && (IsGap(e.buf[k]) || IsBreak(e.buf[k]))
    ensures WornBefore(e.buf, Last(true, Scan(true, e, i, size), size).buf, size)
    decreases size - i
  {
    hide Turn, Sane, Last, WornBefore, Worn, Rank;
    if i == size {
      LastWears(true, e, size);
    } else {
      var e' := Turn(true, e, i);
      TurnWears(true, e, i, size);
      RestWears(true, e', i + 1, size);
      BehindName(e, i);
      if e'.sets == e.sets && !(e.val.Some? && IsBreak(e.buf[i]) && e.buf[i - 1] == '\\') {
        EndedNameWears(e', i + 1, size);
      } else {
        WornOn(e.buf, e'.buf, Last(true, Scan(true, e, i, size), size).buf, size);
      }
    }
  }

  lemma BehindName(e: Env, i: nat)
    requires Sane(e, i) && i + 1 < |e.buf| && e.first.Some?
    ensures var r := Turn(true, e, i);
            r.sets > e.sets || (e.val.Some? && IsBreak(e.buf[i]) && e.buf[i - 1] == '\\') || (r.buf == e.buf
              && r.sets == e.sets && r.first.Some? && (e.gap.Some? || IsGap(e.buf[i]) ==> r.gap.Some?)
              && !IsBreak(e.buf[i]))
    ensures e.val.Some? ==> i > 0
  {
    hide StringAt;
  }

  /** Saving leaves the text as it was exactly if that is one name that runs to the
      end, or no name at all. */
  lemma KeptIfOneName(buf: seq<char8>, size: nat)
    requires size < |buf|
    ensures SaveEnv(buf, size).buf[..size] == buf[..size] <==> OneName(buf, size)
  {
    hide Parse, NameStart, WornBefore, Worn;
    SavedIfNamed(buf, size);
    ParseSets(false, buf, size);
    if NameStart(buf, false, 0, size).Some? {
      var k, b := NameStart(buf, false, 0, size).value, Parse(false, buf, size).buf;
      var c := Parse(true, b, size).buf;
      if OneName(buf, size) {
        OneNameIsKept(false, buf, size);
        OneNameIsKept(true, buf, size);
      } else {
        ParseWears(false, buf, size);
        ParseWears(true, b, size);
        WornOn(buf, b, c, size);
        WornIsChanged(buf, b, size);
        WornIsChanged(buf, c, size);
        if b[..size] == buf[..size] {
          MarkIsLeft(buf, b, k, size);
        }
      }
    }
  }

  /** The saving pass, on a text that the checking pass left alone. */
  lemma MarkIsLeft(buf: seq<char8>, b: seq<char8>, k: nat, size: nat)
    requires size < |buf| && |b| == |buf| && b[..size] == buf[..size]
    requires NameStart(buf, false, 0, size) == Some(k) && !OneName(buf, size)
    ensures Worn(b, Parse(true, b, size).buf) && WornBefore(b, Parse(true, b, size).buf, size)
  {
    hide NameStart, Scan, Parse, Turn, Last, WornBefore, Worn, Sane, OneName;
    var start := b[size := '\0'];
    assert start[..size] == b[..size];
    SameStart(buf, start, false, 0, size);
    ParseFromName(true, b, size);
    NameEnds(buf, start, k, size);
    EndedNameWears(Named(start, k), k + 1, size);
    ParseWears(true, b, size);
    EndMarkOnly(b, start, Parse(true, b, size).buf, size);
  }

  lemma NameEnds(buf: seq<char8>, start: seq<char8>, k: nat, size: nat)
    requires size < |buf| && |start| == |buf| && start[..size] == buf[..size]
    requires NameStart(buf, false, 0, size) == Some(k) && !OneName(buf, size)
    ensures exists j :: k + 1 <= j < size && (IsGap(start[j]) || IsBreak(start[j]))
  {
    hide NameStart;
    var j :| k < j < size && (IsGap(buf[j]) || IsBreak(buf[j]));
    assert start[j] == start[..size][j] == buf[..size][j] == buf[j];
  }

  lemma EndMarkOnly(b: seq<char8>, start: seq<char8>, c: seq<char8>, size: nat)
    requires size < |b| && start == b[size := '\0'] && |c| == |b| && WornBefore(start, c, size)
    ensures WornBefore(b, c, size)
  {
    var k :| 0 <= k < size && k < |start| && Rank(c[k]) < Rank(start[k]);
    assert start[k] == b[k];
  }

  // -------------------------------------------------------------- round trip

  /** A setting that can be written on a line. */
  predicate Writable(s: Setting) {
    && s.name != "" && s.name[0] != '#'
    && (forall c <- s.name :: c != '\0' && !IsGap(c) && !IsBreak(c))
    && s.value.Some? && s.value.value != "" && !IsGap(s.value.value[0])
    && (forall c <- s.value.value :: c != '\0' && !IsBreak(c))
    && s.value.value[|s.value.value| - 1] != '\\'
  }

  predicate AllWritable(ss: seq<Setting>) {
    forall i :: 0 <= i < |ss| ==> Writable(ss[i])
  }

  /** A line, with what ends the name and the value. */
  function Line(s: Setting, gap: char8, end: char8): seq<char8>
    requires Writable(s)
  {
    s.name + [gap] + s.value.value + [end]
  }

  function Lines(ss: seq<Setting>, gap: char8, end: char8): seq<char8>
    requires AllWritable(ss)
  {
    if ss == [] then "" else
      assert Writable(ss[0]);
      Line(ss[0], gap, end) + Lines(ss[1..], gap, end)
  }

  /** s stands in buf from i on. */
  predicate Holds(buf: seq<char8>, i: nat, s: seq<char8>) {
    i + |s| <= |buf| && buf[i..i + |s|] == s
  }

  lemma HoldsAt(buf: seq<char8>, i: nat, s: seq<char8>, k: nat)
    requires Holds(buf, i, s) && k < |s|
    ensures buf[i + k] == s[k]
  {
    assert buf[i..i + |s|][k] == s[k];
  }

  lemma HoldsBoth(buf: seq<char8>, i: nat, s: seq<char8>, t: seq<char8>)
    requires Holds(buf, i, s + t)
    ensures Holds(buf, i, s) && Holds(buf, i + |s|, t)
  {
    assert buf[i..i + |s|] == (s + t)[..|s|] == s;
    assert buf[i + |s|..i + |s| + |t|] == (s + t)[|s|..] == t;
  }

  lemma {:induction false} StringIsRead(buf: seq<char8>, i: nat, s: seq<char8>)
    requires Holds(buf, i, s) && i + |s| < |buf| && buf[i + |s|] == '\0' && '\0' !in s
    ensures StringAt(buf, i) == s
    decreases |s|
  {
    if s != "" {
      HoldsAt(buf, i, s, 0);
      assert buf[i + 1..i + 1 + |s[1..]|] == s[1..];
      StringIsRead(buf, i + 1, s[1..]);
    }
  }

  lemma {:induction false} ValueRunsOn(save: bool, e: Env, i: nat, j: nat, size: nat)
    requires Sane(e, i) && i <= j <= size < |e.buf| && e.val.Some?
    requires forall k :: i <= k < j ==> !IsBreak(e.buf[k])
    ensures Sane(e, j) && Scan(save, e, i, size) == Scan(save, e, j, size)
    decreases j - i
  {
    hide Found, Joined;
    if i < j {
      assert Turn(save, e, i) == e;
      ValueRunsOn(save, e, i + 1, j, size);
    }
  }

  /** The name of a line, its gap, and the value up to its end. */
  lemma LineRunsOn(save: bool, buf: seq<char8>, sets: nat, saved: seq<Setting>, i: nat, size: nat, s: Setting)
    requires Writable(s) && Holds(buf, i, Line(s, ' ', '\n')) && i + |Line(s, ' ', '\n')| <= size < |buf|
    ensures var gap, end := i + |s.name|, i + |Line(s, ' ', '\n')| - 1;
            var e := Env(buf, false, Some(i), Some(gap), Some(gap + 1), sets, saved);
            Sane(e, end) && Scan(save, Between(buf, sets, saved), i, size) == Scan(save, e, end, size)
  {
    hide Scan, Holds, Sane, Turn;
    var e0 := Between(buf, sets, saved);
    var e1 := e0.(first := Some(i));
    var gap, end := i + |s.name|, i + |Line(s, ' ', '\n')| - 1;
    var e2 := e1.(gap := Some(gap));
    var e3 := e2.(val := Some(gap + 1));
    LineParts(buf, i, s);
    FirstTurns(save, buf, sets, saved, i, s);
    OneTurn(save, e0, i, size);
    NameRunsOn(save, e1, i + 1, gap, size);
    GapTurns(save, buf, sets, saved, i, gap);
    OneTurn(save, e1, gap, size);
    OneTurn(save, e2, gap + 1, size);
    ValueRunsOn(save, e3, gap + 2, end, size);
  }

  lemma OneTurn(save: bool, e: Env, i: nat, size: nat)
    requires Sane(e, i) && i < size < |e.buf|
    ensures Sane(Turn(save, e, i), i + 1) && Scan(save, e, i, size) == Scan(save, Turn(save, e, i), i + 1, size)
  {}

  lemma LineParts(buf: seq<char8>, i: nat, s: Setting)
    requires Writable(s) && Holds(buf, i, Line(s, ' ', '\n'))
    ensures var gap, end := i + |s.name|, i + |Line(s, ' ', '\n')| - 1;
            && i < gap < gap + 1 < end < |buf| && end == gap + 1 + |s.value.value|
            && Holds(buf, i, s.name) && Holds(buf, gap + 1, s.value.value)
            && buf[i] != '#' && (forall k :: i <= k < gap ==> !IsGap(buf[k]) && !IsBreak(buf[k]))
            && buf[gap] == ' ' && buf[end] == '\n' && buf[end - 1] != '\\'
            && !IsGap(buf[gap + 1]) && (forall k :: gap < k < end ==> !IsBreak(buf[k]))
  {
    var v := s.value.value;
    var gap, end := i + |s.name|, i + |Line(s, ' ', '\n')| - 1;
    HoldsBoth(buf, i, s.name + " " + v, "\n");
    HoldsBoth(buf, i, s.name + " ", v);
    HoldsBoth(buf, i, s.name, " ");
    HoldsAt(buf, gap, " ", 0);
    HoldsAt(buf, end, "\n", 0);
    assert forall k :: i <= k < gap ==> buf[k] == s.name[k - i];
    assert forall k :: gap < k < end ==> buf[k] == v[k - gap - 1];
  }

  lemma FirstTurns(save: bool, buf: seq<char8>, sets: nat, saved: seq<Setting>, i: nat, s: Setting)
    requires i + 1 < |buf| && buf[i] != '#' && !IsGap(buf[i]) && !IsBreak(buf[i])
    ensures Sane(Between(buf, sets, saved), i)
    ensures Turn(save, Between(buf, sets, saved), i) == Between(buf, sets, saved).(first := Some(i))
  {}

  lemma GapTurns(save: bool, buf: seq<char8>, sets: nat, saved: seq<Setting>, i: nat, gap: nat)
    requires i < gap && gap + 2 < |buf| && buf[gap] == ' ' && !IsGap(buf[gap + 1]) && !IsBreak(buf[gap + 1])
    ensures var e1 := Between(buf, sets, saved).(first := Some(i));
            var e2 := e1.(gap := Some(gap));
            && Sane(e1, gap) && Turn(save, e1, gap) == e2
            && Sane(e2, gap + 1) && Turn(save, e2, gap + 1) == e2.(val := Some(gap + 1))
  {}

  /** One line is one setting; its gap and its end become NULs. */
  lemma LineIsSet(save: bool, buf: seq<char8>, sets: nat, saved: seq<Setting>, i: nat, size: nat, s: Setting)
    requires Writable(s) && Holds(buf, i, Line(s, ' ', '\n')) && i + |Line(s, ' ', '\n')| <= size < |buf|
    ensures var gap, next := i + |s.name|, i + |Line(s, ' ', '\n')|;
            var e := if save then Between(buf[gap := '\0'][next - 1 := '\0'], sets + 1, saved + [s])
                     else Between(buf, sets + 1, saved);
            Sane(e, next) && Scan(save, Between(buf, sets, saved), i, size) == Scan(save, e, next, size)
  {
    hide Scan, Holds, Turn;
    LineRunsOn(save, buf, sets, saved, i, size, s);
    LineParts(buf, i, s);
    var gap, end := i + |s.name|, i + |Line(s, ' ', '\n')| - 1;
    var e := Env(buf, false, Some(i), Some(gap), Some(gap + 1), sets, saved);
    OneTurn(save, e, end, size);
    var b := buf[gap := '\0'][end := '\0'];
    EndTurn(save, e, end);
    if save {
      NamedStrings(buf, b, i, gap, end, s);
    }
  }

  lemma EndTurn(save: bool, e: Env, i: nat)
    requires Sane(e, i) && i + 1 < |e.buf| && e.val.Some? && IsBreak(e.buf[i]) && e.buf[i - 1] != '\\'
    ensures Turn(save, e, i) == Found(save, e, e.buf[e.gap.value := '\0'][i := '\0'])
  {
    hide Found;
  }

  lemma NamedStrings(buf: seq<char8>, b: seq<char8>, i: nat, gap: nat, end: nat, s: Setting)
    requires Writable(s) && i < gap && end == gap + 1 + |s.value.value| && gap == i + |s.name| && end < |buf|
    requires Holds(buf, i, s.name) && Holds(buf, gap + 1, s.value.value)
    requires b == buf[gap := '\0'][end := '\0']
    ensures Setting(StringAt(b, i), Some(StringAt(b, gap + 1))) == s
  {
    hide StringAt;
    assert b[i..gap] == buf[i..gap] && b[gap + 1..end] == buf[gap + 1..end];
    assert forall c :: c in s.name ==> c != '\0';
    StringIsRead(b, i, s.name);
    StringIsRead(b, gap + 1, s.value.value);
  }

  lemma {:induction false} SameLength(ss: seq<Setting>, gap: char8, end: char8)
    requires AllWritable(ss)
    ensures |Lines(ss, gap, end)| == |Lines(ss, ' ', '\n')|
  {
    if ss != [] {
      assert Writable(ss[0]);
      SameLength(ss[1..], gap, end);
    }
  }

  /** Every line is one setting. */
  lemma {:induction false} LinesAreSet(save: bool, buf: seq<char8>, sets: nat, saved: seq<Setting>, i: nat, size: nat,
                                       ss: seq<Setting>)
    requires AllWritable(ss) && i <= size < |buf| && Holds(buf, i, Lines(ss, ' ', '\n'))
    requires i + |Lines(ss, ' ', '\n')| == size
    ensures |Lines(ss, '\0', '\0')| == |Lines(ss, ' ', '\n')|
    ensures Sane(Between(buf, sets, saved), i)
    ensures Scan(save, Between(buf, sets, saved), i, size)
         == if save then Between(Over(buf, i, Lines(ss, '\0', '\0')), sets + |ss|, saved + ss)
            else Between(buf, sets + |ss|, saved)
    decreases |ss|
  {
    hide Holds, Turn, Sane, StringAt, Line, Over, Writable;
    SameLength(ss, '\0', '\0');
    StartIsSaneAt(buf, sets, saved, i);
    if ss == [] {
      NothingOver(buf, i);
      assert saved + [] == saved;
    } else {
      var s, rest := ss[0], ss[1..];
      assert Writable(s);
      HoldsBoth(buf, i, Line(s, ' ', '\n'), Lines(rest, ' ', '\n'));
      LineIsSet(save, buf, sets, saved, i, size, s);
      LineLength(s);
      var next := i + |Line(s, ' ', '\n')|;
      var b := buf[i + |s.name| := '\0'][next - 1 := '\0'];
      SameLength(rest, '\0', '\0');
      if save {
        LaterHolds(buf, b, next, Lines(rest, ' ', '\n'));
        LinesAreSet(save, b, sets + 1, saved + [s], next, size, rest);
        assert saved + [s] + rest == saved + ss;
        OverBoth(buf, b, i, s, Lines(rest, '\0', '\0'));
      } else {
        LinesAreSet(save, buf, sets + 1, saved, next, size, rest);
      }
    }
  }

  lemma NothingOver(buf: seq<char8>, i: nat)
    requires i <= |buf|
    ensures Over(buf, i, []) == buf
  {}

  lemma StartIsSaneAt(buf: seq<char8>, sets: nat, saved: seq<Setting>, i: nat)
    requires i < |buf|
    ensures Sane(Between(buf, sets, saved), i)
  {}

  lemma LineLength(s: Setting)
    requires Writable(s)
    ensures |Line(s, '\0', '\0')| == |Line(s, ' ', '\n')| == |s.name| + |s.value.value| + 2
  {}

  lemma LaterHolds(buf: seq<char8>, b: seq<char8>, next: nat, s: seq<char8>)
    requires |b| == |buf| && Holds(buf, next, s) && forall k :: next <= k < |buf| ==> b[k] == buf[k]
    ensures Holds(b, next, s)
  {
    assert b[next..next + |s|] == buf[next..next + |s|];
  }

  lemma OverBoth(buf: seq<char8>, b: seq<char8>, i: nat, s: Setting, more: seq<char8>)
    requires Writable(s) && Holds(buf, i, Line(s, ' ', '\n'))
    requires var next := i + |Line(s, ' ', '\n')|;
             next + |more| <= |buf| && b == buf[i + |s.name| := '\0'][next - 1 := '\0']
    ensures |Line(s, '\0', '\0')| == |Line(s, ' ', '\n')|
    ensures Over(b, i + |Line(s, ' ', '\n')|, more) == Over(buf, i, Line(s, '\0', '\0') + more)
  {
    hide Holds;
    LineLength(s);
    LineParts(buf, i, s);
    var next, line := i + |Line(s, ' ', '\n')|, Line(s, '\0', '\0');
    assert b[..next] == buf[..i] + line by {
      LineOver(buf, b, i, s);
    }
    assert b[next + |more|..] == buf[i + |line + more|..];
  }

  lemma LineOver(buf: seq<char8>, b: seq<char8>, i: nat, s: Setting)
    requires Writable(s) && Holds(buf, i, Line(s, ' ', '\n'))
    requires var next := i + |Line(s, ' ', '\n')|;
             next <= |buf| && b == buf[i + |s.name| := '\0'][next - 1 := '\0']
    ensures b[..i + |Line(s, ' ', '\n')|] == buf[..i] + Line(s, '\0', '\0')
  {
    LineLength(s);
    LineParts(buf, i, s);
    var next, gap := i + |Line(s, ' ', '\n')|, i + |s.name|;
    assert b[..i] == buf[..i];
    assert b[i..gap] == buf[i..gap] == s.name;
    assert b[gap + 1..next - 1] == buf[gap + 1..next - 1] == s.value.value;
    assert b[..next] == b[..i] + (b[i..gap] + ['\0'] + b[gap + 1..next - 1] + ['\0']);
  }

  /** A text of lines saves exactly its settings, and leaves their strings in the
      buffer, each ended by a NUL. */
  lemma SettingsAreSaved(ss: seq<Setting>, buf: seq<char8>, size: nat)
    requires AllWritable(ss) && ss != [] && size < |buf| && buf[..size] == Lines(ss, ' ', '\n')
    ensures var r := SaveEnv(buf, size);
            && r.saved == ss && r.reply == "OKAY"
            && r.buf[..size] == Lines(ss, '\0', '\0') && r.buf[size] == '\0'
  {
    hide Scan, Lines, Holds, Sane, StringAt;
    var text := Lines(ss, ' ', '\n');
    assert buf[0..size] == buf[..size];
    Placed(buf, text);
    LinesAreSet(false, buf, 0, [], 0, size, ss);
    var start := buf[size := '\0'];
    assert start[..size] == buf[..size] && start[0..size] == start[..size];
    Placed(start, text);
    LinesAreSet(true, start, 0, [], 0, size, ss);
    assert [] + ss == ss;
    var nuls := Lines(ss, '\0', '\0');
    assert Over(start, 0, nuls)[..size] == nuls;
  }

  lemma Placed(buf: seq<char8>, s: seq<char8>)
    requires |s| <= |buf| && buf[..|s|] == s
    ensures Holds(buf, 0, s)
  {
    assert buf[0..|s|] == buf[..|s|];
  }

  /** Saving the same download once more, if no value has a gap in it, unsets its first
      variable and nothing else. */
  lemma SavedTwiceUnsets(ss: seq<Setting>, buf: seq<char8>, size: nat)
    requires AllWritable(ss) && ss != [] && size < |buf| && buf[..size] == Lines(ss, '\0', '\0')
    requires forall i :: 0 <= i < |ss| ==> NoGap(ss[i].value)
    ensures var r := SaveEnv(buf, size);
            r.saved == [Setting(ss[0].name, None)] && r.reply == "OKAY" && r.buf[..size] == buf[..size]
  {
    hide Lines, Parse, StringAt, NameStart, OneName, Writable;
    NulName(ss, buf, size);
    SavedIfNamed(buf, size);
    OneNameIsKept(false, buf, size);
    OneNameIsKept(true, buf, size);
    ParseSets(false, buf, size);
    NameIsUnset(buf, size);
    var start := buf[size := '\0'];
    assert start[..size] == buf[..size];
    FirstString(ss, start, size);
  }

  lemma NameIsUnset(buf: seq<char8>, size: nat)
    requires size < |buf| && NameStart(buf, false, 0, size) == Some(0) && OneName(buf, size)
    ensures Parse(true, buf, size).saved == [Setting(StringAt(buf[size := '\0'], 0), None)]
  {
    hide Parse, Scan, StringAt, NameStart;
    var start := buf[size := '\0'];
    assert start[..size] == buf[..size];
    SameStart(buf, start, false, 0, size);
    ParseFromName(true, buf, size);
    NameRunsOn(true, Named(start, 0), 1, size, size);
    ScanEnd(true, Named(start, 0), size);
  }

  lemma NulName(ss: seq<Setting>, buf: seq<char8>, size: nat)
    requires AllWritable(ss) && ss != [] && size < |buf| && buf[..size] == Lines(ss, '\0', '\0')
    requires forall i :: 0 <= i < |ss| ==> NoGap(ss[i].value)
    ensures NameStart(buf, false, 0, size) == Some(0) && OneName(buf, size)
    ensures forall k :: 0 <= k < size ==> !IsGap(buf[k]) && !IsBreak(buf[k])
  {
    hide Lines;
    NulLines(ss);
    var text := Lines(ss, '\0', '\0');
    assert forall k :: 0 <= k < size ==> buf[k] == buf[..size][k] && text[k] in text;
  }

  predicate NoGap(value: Option<seq<char8>>) {
    value.Some? && forall c <- value.value :: !IsGap(c)
  }

  lemma {:induction false} NulLines(ss: seq<Setting>)
    requires AllWritable(ss) && forall i :: 0 <= i < |ss| ==> NoGap(ss[i].value)
    ensures var text := Lines(ss, '\0', '\0');
            && (forall c <- text :: !IsGap(c) && !IsBreak(c))
            && (ss != [] ==> text != "" && text[0] != '#' && text[0] == ss[0].name[0])
  {
    if ss != [] {
      assert Writable(ss[0]) && NoGap(ss[0].value);
      NulLines(ss[1..]);
    }
  }

  lemma FirstString(ss: seq<Setting>, buf: seq<char8>, size: nat)
    requires AllWritable(ss) && ss != [] && size < |buf| && buf[..size] == Lines(ss, '\0', '\0')
    ensures StringAt(buf, 0) == ss[0].name
  {
    hide StringAt;
    var s, more := ss[0], Lines(ss[1..], '\0', '\0');
    assert Writable(s);
    Placed(buf, Lines(ss, '\0', '\0'));
    HoldsBoth(buf, 0, Line(s, '\0', '\0'), more);
    HoldsBoth(buf, 0, s.name + ['\0'] + s.value.value, ['\0']);
    HoldsBoth(buf, 0, s.name + ['\0'], s.value.value);
    HoldsBoth(buf, 0, s.name, ['\0']);
    HoldsAt(buf, |s.name|, ['\0'], 0);
    StringIsRead(buf, 0, s.name);
  }
}
