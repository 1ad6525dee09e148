/** Cells split into arguments (common/cmd_fdt.c): when the split and the joined text
    are read alike. */
module FdtCells {
  import opened CText
  import opened FdtText

  /** The arguments without their leading spaces. */
  function Trimmed(rest: seq<string>): seq<string> {
    if rest == [] then [] else [SkipSpaces(rest[0])] + Trimmed(rest[1..])
  }

  predicate NoLeadingSpaces(rest: seq<string>) {
    forall i :: 0 <= i < |rest| ==> At(rest[i]) != ' '
  }

  lemma {:induction false} TrimmedIsSame(rest: seq<string>)
    requires NoLeadingSpaces(rest)
    ensures Trimmed(rest) == rest
  {
    if rest != [] {
      TrimmedIsSame(rest[1..]);
      assert rest == [rest[0]] + rest[1..];
    }
  }

  /** Cells stop at a space in front of a number. */
  lemma LeadingSpace(newp: string, rest: seq<string>)
    requires At(newp) == ' '
    ensures Cells(newp, rest) == Parsed(false, Cell(0))
  {}

  lemma FirstArgument(rest: seq<string>)
    requires rest != []
    ensures Cells("", rest) == Cells(rest[0], rest[1..])
  {}

  /** One number of a non-empty text that does not begin with '>'. */
  lemma NextCell(newp: string, rest: seq<string>)
    requires newp != "" && At(newp) != '>'
    ensures var (v, q) := Strtoul(newp, 0);
            Cells(newp, rest)
              == if |q| == |newp| then Parsed(false, Cell(v)) else Prepend(Cell(v), Cells(SkipSpaces(q), rest))
  {}

  lemma EndOfCells(newp: string, rest: seq<string>)
    requires At(newp) == '>'
    ensures Cells(newp, rest) == Parsed(true, [])
  {}

  /** The joined text is read like the arguments without their leading spaces, well
      formed or not, if there is text to begin with. */
  lemma {:induction false} JoinedIsTrimmed(newp: string, rest: seq<string>)
    requires newp != "" || rest == []
    ensures Cells(Text(newp, rest), []) == Cells(newp, Trimmed(rest))
    decreases |rest|, |newp|
  {
    hide Cells, Strtoul;
    if rest != [] {
      var more := " " + Text(rest[0], rest[1..]);
      assert Text(newp, rest) == newp + more && At(newp + more) == At(newp);
      if At(newp) == '>' {
        EndOfCells(newp + more, []);
        EndOfCells(newp, Trimmed(rest));
      } else {
        var q := Strtoul(newp, 0).1;
        NextCell(newp + more, []);
        NextCell(newp, Trimmed(rest));
        StrtoulStops(newp, 0, more);
        SkipJoined(q, more);
        if |q| < |newp| {
          if SkipSpaces(q) == "" {
            assert "" + more == more;
            RestIsTrimmed(rest);
          } else {
            JoinedIsTrimmed(SkipSpaces(q), rest);
          }
        }
      }
    }
  }

  /** The same where an argument has been used up. */
  lemma {:induction false} RestIsTrimmed(rest: seq<string>)
    ensures Cells(SkipSpaces(Text("", rest)), []) == Cells("", Trimmed(rest))
    decreases |rest|, 0
  {
    hide Cells;
    if rest != [] {
      var s, tail := SkipSpaces(rest[0]), rest[1..];
      var text := Text(rest[0], tail);
      assert Text("", rest) == " " + text && (" " + text)[1..] == text;
      assert SkipSpaces(" " + text) == SkipSpaces(text);
      assert Trimmed(rest)[0] == s && Trimmed(rest)[1..] == Trimmed(tail);
      FirstArgument(Trimmed(rest));
      if tail == [] {
        assert Text(s, tail) == s;
      } else {
        var more := " " + Text(tail[0], tail[1..]);
        SkipJoined(rest[0], more);
        assert Text("", tail) == more && Text(s, tail) == s + more;
      }
      if s == "" {
        RestIsTrimmed(tail);
      } else {
        JoinedIsTrimmed(s, tail);
      }
    }
  }

  /** Accepted arguments are accepted without leading spaces, too: those that are
      reached have none. */
  lemma {:induction false} AcceptedIsTrimmed(newp: string, rest: seq<string>)
    requires Cells(newp, rest).ok
    ensures Cells(newp, Trimmed(rest)) == Cells(newp, rest)
    decreases |rest|, |newp|
  {
    hide Cells, Strtoul;
    if At(newp) == '>' {
      EndOfCells(newp, rest);
      EndOfCells(newp, Trimmed(rest));
    } else if newp == "" {
      if rest != [] {
        FirstArgument(rest);
        FirstArgument(Trimmed(rest));
        if At(rest[0]) == ' ' {
          LeadingSpace(rest[0], rest[1..]);
        }
        assert Trimmed(rest)[1..] == Trimmed(rest[1..]);
        AcceptedIsTrimmed(rest[0], rest[1..]);
      }
    } else {
      NextCell(newp, rest);
      NextCell(newp, Trimmed(rest));
      AcceptedIsTrimmed(SkipSpaces(Strtoul(newp, 0).1), rest);
    }
  }

  /** When splitting does not matter. Accepted arguments are read like the joined text
      exactly if the first one has text behind its bracket or is the only one. The
      same holds of arguments that are refused, unless one has leading spaces, which
      the joined text forgives. */
  lemma CellsReadAlike(newp: string, rest: seq<string>)
    ensures Cells(newp, rest).ok ==>
      (Cells(Text(newp, rest), []) == Cells(newp, rest) <==> newp != "" || rest == [])
    ensures NoLeadingSpaces(rest) && (newp != "" || rest == []) ==>
      Cells(Text(newp, rest), []) == Cells(newp, rest)
  {
    hide Cells;
    if newp != "" || rest == [] {
      JoinedIsTrimmed(newp, rest);
      if Cells(newp, rest).ok {
        AcceptedIsTrimmed(newp, rest);
      }
      if NoLeadingSpaces(rest) {
        TrimmedIsSame(rest);
      }
    } else {
      assert At(Text(newp, rest)) == ' ';
      LeadingSpace(Text(newp, rest), []);
    }
  }

  // ----------------------------------------------------------------- words

  predicate NoDoubleSpace(s: string) {
    forall i :: 0 <= i < |s| - 1 && s[i] == ' ' ==> s[i + 1] != ' '
  }

  /** Splitting a text at its spaces leaves none in front, if they come one by one. */
  lemma {:induction false} SplitAtSpaces(newp: string, rest: seq<string>)
    requires NoDoubleSpace(Text(newp, rest))
    ensures NoLeadingSpaces(rest)
    decreases |rest|
  {
    if rest != [] {
      var s, text := Text(newp, rest), Text(rest[0], rest[1..]);
      assert s == newp + (" " + text);
      assert forall i :: 0 <= i < |text| ==> text[i] == s[|newp| + 1 + i];
      SplitAtSpaces(rest[0], rest[1..]);
      assert s[|newp|] == ' ' && (text != "" ==> s[|newp| + 1] == text[0]);
      assert At(rest[0]) == ' ' ==> At(text) == ' ';
      assert forall i :: 0 < i < |rest| ==> rest[i] == rest[1..][i - 1];
    }
  }

  /** Words are printed with single spaces between them. */
  lemma {:induction false} WordsAreSpaced(data: seq<char8>)
    requires |data| % 4 == 0
    ensures NoDoubleSpace(Words(data) + ">") && At(Words(data) + ">") != ' '
    decreases |data|
  {
    hide Numeral, Word;
    if data != [] {
      var n := Numeral(Word(data), 16);
      assert forall i :: 0 <= i < |n| ==> n[i] in n;
      assert forall c <- n :: c != ' ';
      var word := "0x" + n;
      if |data| > 4 {
        WordsAreSpaced(data[4..]);
        var more := Words(data[4..]) + ">";
        assert Words(data) + ">" == word + (" " + more);
        Spaced(word, more);
      }
    }
  }

  lemma Spaced(word: string, more: string)
    requires word != "" && (forall i :: 0 <= i < |word| ==> word[i] != ' ') && At(more) != ' ' && NoDoubleSpace(more)
    ensures NoDoubleSpace(word + (" " + more))
  {
    var s := word + (" " + more);
    forall i | 0 <= i < |s| - 1 && s[i] == ' ' ensures s[i + 1] != ' ' {
      if i == |word| {
        assert s[i + 1] == more[0];
      } else {
        assert s[i] == more[i - |word| - 1] && s[i + 1] == more[i - |word|];
      }
    }
  }

  /** Printed words, split at their spaces in any way, are read back with the bytes of
      every word reversed. */
  lemma WordsReadBackSwapped(data: seq<char8>, newp: string, rest: seq<string>)
    requires |data| % 4 == 0 && Text(newp, rest) == Words(data) + ">"
    ensures Cells(newp, rest) == Parsed(true, Swapped(data))
  {
    hide Cells, Words, Swapped;
    WordsAreSpaced(data);
    SplitAtSpaces(newp, rest);
    assert newp == "" && rest != [] ==> At(Text(newp, rest)) == ' ';
    CellsReadAlike(newp, rest);
    WordsReadBack(data);
  }
}
