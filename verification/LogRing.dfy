/** The log buffer's ring and its writer in place (common/cmd_log.c). */
module LogRing {
  import opened Arithmetic
  import opened CText
  import opened LogBuffer

  /** The two layouts of the header. */
  datatype Version = V1 | V2

  /** What a ring of LOGBUFF_LEN characters holds after `written`. */
  function Held(written: string): string {
    if |written| <= LOGBUFF_LEN then written else written[|written| - LOGBUFF_LEN..]
  }

  /** How many that are. */
  function HeldCount(n: nat): nat {
    if n <= LOGBUFF_LEN then n else LOGBUFF_LEN
  }

  // 32-bit counters, and the mask that makes a cell number of them.

  lemma MaskOfWrapped(x: int)
    ensures U32(x) % LOGBUFF_LEN == x % LOGBUFF_LEN
  {
    var q := x / TWO32;
    Quotient(x, TWO32);
    DropMultiple(LOGBUFF_LEN, 262144 * q, U32(x));
  }

  lemma Distance(n: nat, d: nat)
    requires d <= n && d < TWO32
    ensures U32(U32(n) - U32(n - d)) == d
  {
    var a, b := n / TWO32, (n - d) / TWO32;
    assert n == TWO32 * a + U32(n) && n - d == TWO32 * b + U32(n - d);
    assert U32(n) - U32(n - d) == d - TWO32 * (a - b);
  }

  lemma DifferentCells(i: nat, n: nat)
    requires i < n && n - i < LOGBUFF_LEN
    ensures i % LOGBUFF_LEN != n % LOGBUFF_LEN
  {}

  class Log {
    const version: Version
    const lbuf: array<char>
    var start: u32
    /** v1.size or v2.end */
    var mark: u32
    var chars: u32
    ghost var written: string
    const buf: array<char>
    var msgLevel: int

    constructor (version: Version)
      ensures this.version == version && Valid() && written == "" && msgLevel == -1
      ensures fresh(lbuf) && fresh(buf)
    {
      this.version := version;
      lbuf, buf := new char[LOGBUFF_LEN], new char[BUF_SIZE];
      start, mark, chars, written, msgLevel := 0, 0, 0, "", -1;
    }

    /** The counters stand for the number of characters written, in 32 bits. */
    ghost predicate Counted(n: nat)
      reads this`start, this`mark, this`chars
    {
      && start == U32(n - HeldCount(n)) && chars == U32(n)
      && mark == (if version == V1 then HeldCount(n) else U32(n))
    }

    /** The cells hold the last characters written. */
    ghost predicate Cells(text: string)
      reads lbuf
      requires lbuf.Length == LOGBUFF_LEN
    {
      forall i :: |text| - HeldCount(|text|) <= i < |text| ==> lbuf[i % LOGBUFF_LEN] == text[i]
    }

    ghost predicate Valid()
      reads this`start, this`mark, this`chars, this`written, lbuf
    {
      && lbuf.Length == LOGBUFF_LEN && buf.Length == BUF_SIZE && lbuf != buf
      && Counted(|written|) && Cells(written)
    }

    /** logbuff_reset */
    method Reset()
      requires lbuf.Length == LOGBUFF_LEN && buf.Length == BUF_SIZE && lbuf != buf
      modifies this`start, this`mark, this`chars, this`written
      ensures Valid() && written == ""
    {
      start, mark, chars, written := 0, 0, 0, "";
    }

    /** The body of the character loop of logbuff_printk. */
    method Put(c: char)
      requires Valid()
      modifies this`start, this`mark, this`chars, this`written, lbuf
      ensures Valid() && written == old(written) + [c]
    {
      hide Counted, Held;
      var cell := NextCell(|written|);
      ghost var before := lbuf[..];
      lbuf[cell] := c;
      CellWritten(before, lbuf[..], written, c);
      Advance(|written|);
      written := written + [c];
    }

    /** The cell of the n-th character, as either layout finds it. */
    method NextCell(ghost n: nat) returns (cell: nat)
      requires Counted(n)
      ensures cell == n % LOGBUFF_LEN
    {
      MaskOfWrapped(n);
      MaskOfWrapped(n - HeldCount(n));
      MaskOfWrapped(start + mark);
      Wraps(n - HeldCount(n), HeldCount(n));
      cell := if version == V2 then mark % LOGBUFF_LEN else U32(start + mark) % LOGBUFF_LEN;
    }

    method Advance(ghost n: nat)
      requires Counted(n)
      modifies this`start, this`mark, this`chars
      ensures Counted(n + 1)
    {
      hide U32;
      Wraps(n, 1);
      Wraps(n - HeldCount(n), 1);
      Distance(n + 1, HeldCount(n) + 1);
      chars := U32(chars + 1);
      if version == V2 {
        mark := U32(mark + 1);
        if U32(mark - start) > LOGBUFF_LEN {
          start := U32(start + 1);
        }
      } else if mark < LOGBUFF_LEN {
        mark := mark + 1;
      } else {
        start := U32(start + 1);
      }
    }

    /** Only the cell of a character too old to be held is overwritten. */
    lemma CellWritten(before: seq<char>, after: seq<char>, text: string, c: char)
      requires |before| == |after| == lbuf.Length == LOGBUFF_LEN && after == lbuf[..]
      requires after == before[|text| % LOGBUFF_LEN := c]
      requires forall i :: |text| - HeldCount(|text|) <= i < |text| ==> before[i % LOGBUFF_LEN] == text[i]
      ensures Cells(text + [c])
    {
      var n := |text|;
      forall i | n + 1 - HeldCount(n + 1) <= i < n + 1 ensures lbuf[i % LOGBUFF_LEN] == (text + [c])[i] {
        if i < n {
          DifferentCells(i, n);
        }
        assert lbuf[i % LOGBUFF_LEN] == after[i % LOGBUFF_LEN];
      }
    }

    /** `log show`: exactly what the ring holds, while it is not full; a full ring
        shows as empty, because the count is masked. */
    method Show() returns (out: string)
      requires Valid()
      ensures out == if |written| < LOGBUFF_LEN then written else ""
    {
      hide Cells;
      ghost var n := |written|;
      Distance(n, HeldCount(n));
      var size := if version == V2 then U32(mark - start) else mark;
      assert size == HeldCount(n) == |Held(written)|;
      out := "";
      var count := size % LOGBUFF_LEN;
      for i := 0 to count
        invariant out == Held(written)[..i]
      {
        ShownCell(i);
        out := out + [lbuf[U32(start + i) % LOGBUFF_LEN]];
      }
    }

    lemma ShownCell(i: nat)
      requires Valid() && i < |Held(written)|
      ensures lbuf[U32(start + i) % LOGBUFF_LEN] == Held(written)[i]
    {
      var j := |written| - HeldCount(|written|) + i;
      MaskOfWrapped(j);
      Wraps(j - i, i);
      assert lbuf[j % LOGBUFF_LEN] == written[j];
    }

    /** The text still to be logged, in place in buf. */
    ghost function Rest(p: int, end: nat): string
      reads buf
      requires 0 <= p && end < buf.Length
    {
      if p <= end then buf[p..end] else ""
    }

    /** Logs one line, or what there is of it, from p on; p ends on the line feed
        or at the end. */
    method PutLine(p0: nat, end: nat, ghost text: string) returns (p: nat, lineFeed: bool)
      requires Valid() && p0 < end < BUF_SIZE && text == buf[p0..end]
      modifies this`start, this`mark, this`chars, this`written, lbuf
      ensures Valid() && p0 <= p <= end
      ensures var n := LineLength(text);
              && written == old(written) + text[..n] && (lineFeed <==> text[n - 1] == '\n')
              && p + 1 >= p0 + n && Rest(p + 1, end) == text[n..]
    {
      hide LineLength, Held, Counted, Cells;
      p, lineFeed := p0, false;
      while p < end && !lineFeed
        invariant Valid() && p0 <= p <= end && text == buf[p0..end] && (lineFeed ==> p < end)
        invariant written == old(written) + text[..if lineFeed then p + 1 - p0 else p - p0]
        invariant '\n' !in text[..p - p0] && (lineFeed ==> text[p - p0] == '\n')
        decreases end - p, !lineFeed
      {
        assert buf[p] == text[p - p0];
        Put(buf[p]);
        if buf[p] == '\n' {
          lineFeed := true;
        } else {
          p := p + 1;
        }
      }
      LineOf(text, p - p0, lineFeed);
      assert lineFeed ==> Rest(p + 1, end) == text[p + 1 - p0..];
      assert !lineFeed ==> Rest(p + 1, end) == "" == text[end - p0..];
    }

    lemma LineOf(s: string, k: nat, lineFeed: bool)
      requires s != "" && k <= |s| && '\n' !in s[..k]
      requires if lineFeed then k < |s| && s[k] == '\n' else k == |s|
      ensures LineLength(s) == if lineFeed then k + 1 else k
      ensures s[..LineLength(s)] == s[..if lineFeed then k + 1 else k]
      ensures !lineFeed ==> s[|s| - 1] != '\n'
    {
      assert forall i :: 0 <= i < k ==> s[i] in s[..k];
      if lineFeed {
        FirstLineFeed(s, k);
      } else {
        assert s[..k] == s;
        NoLineFeed(s);
      }
    }

    lemma {:induction false} FirstLineFeed(s: string, k: nat)
      requires k < |s| && s[k] == '\n' && forall i :: 0 <= i < k ==> s[i] != '\n'
      ensures LineLength(s) == k + 1
    {
      if k > 0 {
        FirstLineFeed(s[1..], k - 1);
      }
    }

    lemma {:induction false} NoLineFeed(s: string)
      requires s != "" && '\n' !in s
      ensures LineLength(s) == |s|
    {
      if |s| > 1 {
        NoLineFeed(s[1..]);
      }
    }

    /** Writes the default tag into the three cells before p0. */
    method WriteTag(p0: nat, end: nat)
      requires 3 <= p0 < end < buf.Length
      modifies buf
      ensures buf[p0 - 3..end] == DEFAULT_TAG + old(buf[p0..end]) && buf[end] == old(buf[end])
    {
      ghost var text := buf[p0..end];
      var p := p0 - 3;
      buf[p], buf[p + 1], buf[p + 2] := '<', ('0' as int + DEFAULT_MESSAGE_LOGLEVEL) as char, '>';
      assert buf[p0..end] == text;
      assert buf[p..end] == buf[p..p0] + text && buf[p..p0] == DEFAULT_TAG;
    }

    /** Before a new line, steps back three cells and writes the default tag over
        what was logged there, unless the line has a tag. */
    method StartLine(p0: nat, end: nat) returns (p: nat)
      requires 3 <= p0 < end && end + 1 < BUF_SIZE == buf.Length && buf[end] == '\0' && lbuf != buf
      modifies buf, this`msgLevel
      ensures buf[end] == '\0' && p == p0 - |TagFor(old(msgLevel), old(buf[p0..end]))|
      ensures buf[p..end] == TagFor(old(msgLevel), old(buf[p0..end])) + old(buf[p0..end])
      ensures var t := TagFor(old(msgLevel), old(buf[p0..end])) + old(buf[p0..end]);
              (old(msgLevel) >= 0 || HasTag(t)) && msgLevel == LevelOf(old(msgLevel), t)
    {
      p := p0;
      ghost var text := buf[p0..end];
      assert "" + text == text;
      if msgLevel >= 0 {
        return;
      }
      if buf[p] != '<' || buf[p + 1] < '0' || buf[p + 1] > '7' || buf[p + 2] != '>' {
        assert !HasTag(text);
        p := p - 3;
        WriteTag(p0, end);
        assert HasTag(buf[p..end]);
      } else {
        assert HasTag(text);
      }
      assert buf[p..end][1] == buf[p + 1];
      msgLevel := buf[p + 1] as int - '0' as int;
    }

    /** The line at p0, which is s behind its tag. */
    method PutTaggedLine(p0: nat, end: nat, ghost level: int, ghost s: string) returns (p: nat, lineFeed: bool)
      requires Valid() && s != "" && buf.Length == BUF_SIZE && p0 < end < BUF_SIZE
      requires buf[p0..end] == TagFor(level, s) + s
      modifies this`start, this`mark, this`chars, this`written, lbuf
      ensures Valid() && p0 + |TagFor(level, s)| <= p <= end
      ensures var n := LineLength(s);
              && written == old(written) + (TagFor(level, s) + s[..n])
              && (lineFeed <==> s[n - 1] == '\n') && Rest(p + 1, end) == s[n..]
    {
      hide Valid, Counted, Cells, Held, HasTag, TagFor, LineLength, Rest;
      TagIsDefault(level, s);
      TagLine(TagFor(level, s), s);
      p, lineFeed := PutLine(p0, end, TagFor(level, s) + s);
    }

    lemma Shape()
      requires Valid()
      ensures lbuf.Length == LOGBUFF_LEN && buf.Length == BUF_SIZE && lbuf != buf
    {}

    /** One turn of the outer loop: the first line of what is left. */
    method PrintkLine(p0: nat, end: nat) returns (p: nat)
      requires Valid() && -1 <= msgLevel && 3 <= p0 < end && end + 1 < BUF_SIZE && buf[end] == '\0'
      modifies this, lbuf, buf
      ensures Valid() && -1 <= msgLevel && p0 < p <= end + 1 && buf[end] == '\0'
      ensures var s := old(buf[p0..end]);
              var n := LineLength(s);
              && written == old(written) + (TagFor(old(msgLevel), s) + s[..n])
              && Rest(p, end) == s[n..]
              && msgLevel == LevelAfter(old(msgLevel), s)
    {
      hide Valid, Counted, Cells, Held, HasTag, TagFor, LevelOf, LineLength, LevelAfter;
      Shape();
      ghost var s, level := buf[p0..end], msgLevel;
      p := StartLine(p0, end);
      LevelKept(level, s);
      var lineFeed;
      p, lineFeed := PutTaggedLine(p, end, level, s);
      if lineFeed {
        msgLevel := -1;
      }
      p := p + 1;
    }

    lemma TagIsDefault(level: int, s: string)
      ensures TagFor(level, s) == "" || TagFor(level, s) == DEFAULT_TAG
    {}

    lemma LevelKept(level: int, s: string)
      requires s != "" && (level >= 0 || HasTag(TagFor(level, s) + s))
      ensures LevelOf(level, TagFor(level, s) + s) >= 0
      ensures LevelAfter(level, s)
           == if s[LineLength(s) - 1] == '\n' then -1 else LevelOf(level, TagFor(level, s) + s)
    {}

    /** The tag belongs to the line it was put in front of. */
    lemma TagLine(tag: string, s: string)
      requires s != "" && (tag == "" || tag == DEFAULT_TAG)
      ensures LineLength(tag + s) == |tag| + LineLength(s)
      ensures (tag + s)[..LineLength(tag + s)] == tag + s[..LineLength(s)]
      ensures (tag + s)[LineLength(tag + s) - 1] == s[LineLength(s) - 1]
      ensures (tag + s)[LineLength(tag + s)..] == s[LineLength(s)..]
    {
      hide LineLength;
      if tag == "" {
        assert tag + s == s;
      } else {
        assert tag + s == "<" + ("4" + (">" + s));
        Letter('>', s);
        Letter('4', ">" + s);
        Letter('<', "4" + (">" + s));
      }
    }

    lemma Letter(c: char, s: string)
      requires c != '\n'
      ensures LineLength([c] + s) == 1 + LineLength(s)
    {
      assert ([c] + s)[1..] == s;
    }

    /** logbuff_printk. */
    method Printk(line: string)
      requires Valid() && -1 <= msgLevel && |line| + 4 < BUF_SIZE
      modifies this, lbuf, buf
      ensures Valid() && -1 <= msgLevel
      ensures (written, msgLevel) == (old(written) + Tagged(old(msgLevel), line).0, Tagged(old(msgLevel), line).1)
    {
      hide Valid, Counted, Cells, Held, HasTag, TagFor, LevelOf, LineLength, Tagged, Join, LevelAfter;
      Shape();
      StrCpy(line);
      var p, bufEnd := 3, 3 + |line|;
      ghost var level0, written0, done := msgLevel, written, "";
      Joined("", Tagged(level0, line));
      while p < bufEnd
        invariant Valid() && 3 <= p <= bufEnd + 1 && buf[bufEnd] == '\0' && -1 <= msgLevel
        invariant written == written0 + done
        invariant Tagged(level0, line) == Join(done, Tagged(msgLevel, Rest(p, bufEnd)))
        decreases bufEnd - p
      {
        ghost var s, level := buf[p..bufEnd], msgLevel;
        p := PrintkLine(p, bufEnd);
        ghost var n := LineLength(s);
        ghost var out := TagFor(level, s) + s[..n];
        TaggedStep(level, s);
        Joined(done, Tagged(msgLevel, Rest(p, bufEnd)));
        JoinMore(done, out, Tagged(msgLevel, Rest(p, bufEnd)));
        done := done + out;
      }
      SilentCall(msgLevel, Rest(p, bufEnd));
      Joined(done, Tagged(msgLevel, ""));
    }

    method StrCpy(line: string)
      requires |line| + 4 < BUF_SIZE == buf.Length
      modifies buf
      ensures buf[3..3 + |line|] == line && buf[3 + |line|] == '\0'
    {
      for i := 0 to |line|
        invariant buf[3..3 + i] == line[..i]
      {
        buf[3 + i] := line[i];
      }
      buf[3 + |line|] := '\0';
    }
  }

  /** Both layouts hold the same characters, found from the same start. */
  lemma LayoutsAgree(v1: Log, v2: Log)
    requires v1.Valid() && v2.Valid() && v1.version == V1 && v2.version == V2 && v1.written == v2.written
    ensures v1.start == v2.start && v1.chars == v2.chars && v1.mark == U32(v2.mark - v2.start)
    ensures v1.mark == |Held(v1.written)|
    ensures forall i :: 0 <= i < v1.mark ==> v1.lbuf[U32(v1.start + i) % LOGBUFF_LEN] == Held(v1.written)[i]
    ensures forall i :: 0 <= i < v1.mark ==> v2.lbuf[U32(v2.start + i) % LOGBUFF_LEN] == Held(v1.written)[i]
  {
    Distance(|v1.written|, HeldCount(|v1.written|));
    forall i | 0 <= i < v1.mark ensures v1.lbuf[U32(v1.start + i) % LOGBUFF_LEN] == Held(v1.written)[i] {
      v1.ShownCell(i);
    }
    forall i | 0 <= i < v1.mark ensures v2.lbuf[U32(v2.start + i) % LOGBUFF_LEN] == Held(v1.written)[i] {
      v2.ShownCell(i);
    }
  }

  function Join(done: string, r: (string, int)): (string, int) {
    (done + r.0, r.1)
  }

  lemma Joined(done: string, r: (string, int))
    ensures Join("", r) == r
    ensures r.0 == "" ==> Join(done, r) == (done, r.1)
  {
    assert "" + r.0 == r.0;
    assert done + "" == done;
  }

  /** The level in force after a line of s is logged. */
  function LevelAfter(level: int, s: string): int
    requires s != ""
  {
    if s[LineLength(s) - 1] == '\n' then -1 else LevelOf(level, TagFor(level, s) + s)
  }

  lemma JoinMore(done: string, out: string, r: (string, int))
    ensures Join(done, Join(out, r)) == Join(done + out, r)
  {
    assert done + (out + r.0) == done + out + r.0;
  }

  /** One line of text, then the rest. */
  lemma TaggedStep(level: int, s: string)
    requires -1 <= level && s != ""
    ensures var n := LineLength(s);
            Tagged(level, s) == Join(TagFor(level, s) + s[..n], Tagged(LevelAfter(level, s), s[n..]))
  {
    var n := LineLength(s);
    if s[n - 1] != '\n' {
      assert s[n..] == "";
      SilentCall(LevelOf(level, TagFor(level, s) + s), "");
      Joined(TagFor(level, s) + s[..n], Tagged(LevelOf(level, TagFor(level, s) + s), ""));
    }
  }
}
