/** Environment settings from a downloaded text (common/cmd_fastboot.c): parse_env,
    which ends the strings it finds in the transfer buffer itself, and saveenv_to_ptn,
    which runs it twice. */
module FastbootEnv {
  import opened CText

  /** What save_env is given; a variable without a value is unset. */
  datatype Setting = Setting(name: seq<char8>, value: Option<seq<char8>>)

  /** The buffer and the variables of parse_env; `first`, `gap` and `val` are the places
      of var, var_end and val. */
  datatype Env = Env(buf: seq<char8>, comment: bool, first: Option<nat>, gap: Option<nat>, val: Option<nat>,
                     sets: nat, saved: seq<Setting>)

  predicate IsBreak(c: char) {
    c == '\r' || c == '\n'
  }

  predicate IsGap(c: char) {
    c == ' ' || c == '\t'
  }

  /** buf with the text s from i on. */
  function Over(buf: seq<char8>, i: nat, s: seq<char8>): (r: seq<char8>)
    requires i + |s| <= |buf|
    ensures |r| == |buf|
  {
    buf[..i] + s + buf[i + |s|..]
  }

  /** The C string that starts at i. */
  function StringAt(buf: seq<char8>, i: nat): seq<char8>
    requires i <= |buf|
    decreases |buf| - i
  {
    if i == |buf| || buf[i] == '\0' then [] else [buf[i]] + StringAt(buf, i + 1)
  }

  /** The state between two settings. */
  function Between(buf: seq<char8>, sets: nat, saved: seq<Setting>): Env {
    Env(buf, false, None, None, None, sets, saved)
  }

  /** The places are in order, and what ends the name is a gap. */
  predicate Sane(e: Env, i: nat) {
    && i < |e.buf|
    && (e.first.Some? ==> e.first.value < i && !e.comment)
    && (e.gap.Some? ==> e.first.Some? && e.first.value < e.gap.value < i && IsGap(e.buf[e.gap.value]))
    && (e.val.Some? ==> e.gap.Some? && e.gap.value < e.val.value < i)
  }

  /** The setting found is saved, if this is the pass that saves. */
  function Found(save: bool, e: Env, buf: seq<char8>): (r: Env)
    requires e.first.Some? && e.first.value <= |buf| && (e.val.Some? ==> e.val.value <= |buf|)
  {
    var setting := Setting(StringAt(buf, e.first.value),
                           if e.val == None then None else Some(StringAt(buf, e.val.value)));
    if save then Between(buf, e.sets + 1, e.saved + [setting]) else Between(e.buf, e.sets + 1, e.saved)
  }

  /** An escaped line break becomes spaces, with its backslash. */
  function Joined(buf: seq<char8>, i: nat): (r: seq<char8>)
    requires 0 < i < |buf| - 1
    ensures |r| == |buf|
  {
    var b := if buf[i] == '\r' && buf[i + 1] == '\n' then buf[i + 1 := ' '] else buf;
    b[i - 1 := ' '][i := ' ']
  }

  /** One turn of the loop, at character i. */
  function Turn(save: bool, e: Env, i: nat): (r: Env)
    requires Sane(e, i) && i + 1 < |e.buf|
    ensures Sane(r, i + 1) && |r.buf| == |e.buf|
  {
    var c := e.buf[i];
    if e.first == None then
      if e.comment || c == '#' then e.(comment := !IsBreak(c))
      else if IsGap(c) || IsBreak(c) then e else e.(first := Some(i))
    else if e.val == None && IsBreak(c) then Found(save, e, e.buf[i := '\0'])
    else if e.gap == None then if IsGap(c) then e.(gap := Some(i)) else e
    else if e.val == None then if IsGap(c) then e else e.(val := Some(i))
    else if !IsBreak(c) then e
    else if e.buf[i - 1] == '\\' then e.(buf := Joined(e.buf, i))
    else Found(save, e, e.buf[e.gap.value := '\0'][i := '\0'])
  }

  function Scan(save: bool, e: Env, i: nat, size: nat): (r: Env)
    requires Sane(e, i) && i <= size < |e.buf|
    ensures Sane(r, size) && |r.buf| == |e.buf|
    decreases size - i
  {
    if i == size then e else Scan(save, Turn(save, e, i), i + 1, size)
  }

  /** A setting without a line break behind it. */
  function Last(save: bool, e: Env, size: nat): (r: Env)
    requires Sane(e, size)
    ensures |r.buf| == |e.buf|
  {
    if e.first == None then e
    else Found(save, e, if e.gap.Some? then e.buf[e.gap.value := '\0'] else e.buf)
  }

  /** parse_env */
  function Parse(save: bool, buf: seq<char8>, size: nat): (r: Env)
    requires size < |buf|
    ensures |r.buf| == |buf|
  {
    Last(save, Scan(save, Between(if save then buf[size := '\0'] else buf, 0, []), 0, size), size)
  }

  /** What saveenv_to_ptn leaves in the buffer, what it saves, and its reply. */
  datatype Saving = Saving(buf: seq<char8>, saved: seq<Setting>, reply: string)

  function SaveEnv(buf: seq<char8>, size: nat): (r: Saving)
    requires size < |buf|
    ensures |r.buf| == |buf|
  {
    var e := Parse(false, buf, size);
    if e.sets == 0 then Saving(e.buf, [], NOTHING_SET)
    else
      var e' := Parse(true, e.buf, size);
      Saving(e'.buf, e'.saved, if e'.sets == 0 then NOTHING_SET else "OKAY")
  }

  const NOTHING_SET := "FAILNo variables set"

  // ------------------------------------------------------------- the methods

  /** A position as a pointer: -1 stands for NULL. */
  predicate Points(p: int, o: Option<nat>) {
    if p < 0 then o == None else o == Some(p)
  }

  /** parse_env on the buffer in place. */
  method ParseEnv(save: bool, buff: array<char8>, size: nat) returns (sets: nat, saved: seq<Setting>)
    requires size < buff.Length
    modifies buff
    ensures var e := Parse(save, old(buff[..]), size);
            buff[..] == e.buf && sets == e.sets && saved == e.saved
  {
    hide Turn, Found, Last, Sane;
    sets, saved := 0, [];
    var comment, first, gap, val := false, -1, -1, -1;
    if save {
      buff[size] := '\0';
    }
    ghost var e := Between(buff[..], 0, []);
    StartIsSane(buff[..], size);
    for i := 0 to size
      invariant Sane(e, i) && |e.buf| == buff.Length && i <= size
      invariant Follows(e, buff[..], comment, first, gap, val, sets, saved)
      invariant Last(save, Scan(save, e, i, size), size) == Parse(save, old(buff[..]), size)
    {
      ghost var was := e;
      e := Turn(save, e, i);
      comment, first, gap, val, sets, saved :=
        ParseChar(save, buff, i, comment, first, gap, val, sets, saved, was);
    }
    sets, saved := ParseEnd(save, buff, size, first, gap, val, sets, saved, e);
  }

  lemma StartIsSane(buf: seq<char8>, size: nat)
    requires size < |buf|
    ensures Sane(Between(buf, 0, []), 0)
  {}

  /** The variables stand for the state. */
  ghost predicate Follows(e: Env, buf: seq<char8>, comment: bool, first: int, gap: int, val: int, sets: nat,
                          saved: seq<Setting>)
  {
    && e.buf == buf && e.comment == comment && e.sets == sets && e.saved == saved
    && Points(first, e.first) && Points(gap, e.gap) && Points(val, e.val)
  }

  function Taken(buf: seq<char8>, first: int, val: int): Setting
    requires 0 <= first <= |buf| && val <= |buf|
  {
    Setting(StringAt(buf, first), if val < 0 then None else Some(StringAt(buf, val)))
  }

  /** The end of the text closes a setting, too. */
  method ParseEnd(save: bool, buff: array<char8>, ghost size: nat, first: int, gap: int, val: int, sets0: nat,
                  saved0: seq<Setting>, ghost e: Env)
    returns (sets: nat, saved: seq<Setting>)
    requires Sane(e, size) && |e.buf| == buff.Length
    requires exists comment :: Follows(e, buff[..], comment, first, gap, val, sets0, saved0)
    modifies buff
    ensures var r := Last(save, e, size);
            buff[..] == r.buf && sets == r.sets && saved == r.saved
  {
    hide StringAt;
    sets, saved := sets0, saved0;
    if first >= 0 {
      if save {
        if gap >= 0 {
          buff[gap] := '\0';
        }
        saved := saved + [Taken(buff[..], first, val)];
      }
      sets := sets + 1;
    }
  }

  /** The body of the loop. */
  method ParseChar(save: bool, buff: array<char8>, i: nat, comment0: bool, first0: int, gap0: int, val0: int,
                   sets0: nat, saved0: seq<Setting>, ghost e: Env)
    returns (comment: bool, first: int, gap: int, val: int, sets: nat, saved: seq<Setting>)
    requires Sane(e, i) && i + 1 < |e.buf| == buff.Length
    requires Follows(e, buff[..], comment0, first0, gap0, val0, sets0, saved0)
    modifies buff
    ensures Follows(Turn(save, e, i), buff[..], comment, first, gap, val, sets, saved)
  {
    hide StringAt;
    comment, first, gap, val, sets, saved := comment0, first0, gap0, val0, sets0, saved0;
    var c, valEnd := buff[i], -1;
    if first < 0 {
      if c == '#' {
        comment := true;
      }
      if comment {
        comment := !IsBreak(c);
      } else if !IsGap(c) && !IsBreak(c) {
        first := i;
      }
    } else if (gap < 0 || val < 0) && IsBreak(c) {
      if save {
        buff[i] := '\0';
        saved := saved + [Taken(buff[..], first, val)];
      }
      first, gap, sets := -1, -1, sets + 1;
    } else if gap < 0 {
      if IsGap(c) {
        gap := i;
      }
    } else if val < 0 {
      if !IsGap(c) {
        val := i;
      }
    } else if IsBreak(c) {
      if buff[i - 1] == '\\' {
        if c == '\r' && buff[i + 1] == '\n' {
          buff[i + 1] := ' ';
        }
        buff[i - 1], buff[i] := ' ', ' ';
      } else {
        valEnd := i;
      }
    }
    if valEnd >= 0 {
      if save {
        buff[gap], buff[valEnd] := '\0', '\0';
        saved := saved + [Taken(buff[..], first, val)];
      }
      first, gap, val, sets := -1, -1, -1, sets + 1;
    }
  }

  /** saveenv_to_ptn: the text is parsed twice, and only saved if that finds something. */
  method SaveEnvToPtn(buff: array<char8>, size: nat) returns (reply: string, saved: seq<Setting>)
    requires size < buff.Length
    modifies buff
    ensures Saving(buff[..], saved, reply) == SaveEnv(old(buff[..]), size)
  {
    hide Parse;
    var sets, none := ParseEnv(false, buff, size);
    if sets == 0 {
      return NOTHING_SET, [];
    }
    sets, saved := ParseEnv(true, buff, size);
    reply := if sets == 0 then NOTHING_SET else "OKAY";
  }
}
