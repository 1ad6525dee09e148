/** The commands' parser and printer of property values (common/cmd_fdt.c), and what
    becomes of a value that is set and printed, or printed and set. */
module FdtProp {
  import opened CText
  import opened FdtCells
  import opened FdtText

  // ----------------------------------------------------------------- parse

  /** Only the first argument tells what kind of value is meant. */
  function ParseProp(newval: seq<seq<char8>>): Parsed
    requires newval != []
  {
    if At(newval[0]) == '<' then Cells(newval[0][1..], newval[1..])
    else if At(newval[0]) == '[' then ByteStream(newval[0][1..], newval[1..])
    else Parsed(true, Strings(newval))
  }

  /** The arguments behind number stridx. */
  function Behind(newval: seq<string>, stridx: nat): seq<string> {
    if stridx < |newval| then newval[stridx + 1..] else []
  }

  lemma PrependMore(a: seq<char8>, b: seq<char8>, r: Parsed)
    ensures Prepend(a, Prepend(b, r)) == Prepend(a + b, r) && Prepend([], r) == r
  {
    assert a + (b + r.data) == a + b + r.data;
    assert [] + r.data == r.data;
  }

  /** fdt_parse_prop; behind the last argument there is no text. */
  method FdtParseProp(newval: seq<seq<char8>>) returns (ret: nat, data: seq<char8>)
    requires newval != []
    ensures Parsed(ret == 0, data) == ParseProp(newval)
  {
    if At(newval[0]) == '<' {
      ret, data := ParseCells(newval);
    } else if At(newval[0]) == '[' {
      ret, data := ParseBytes(newval);
    } else {
      ret, data := 0, [];
      assert newval[0..] == newval;
      for stridx := 0 to |newval|
        invariant ret == 0 && data + Strings(newval[stridx..]) == Strings(newval)
      {
        NextString(data, newval[stridx..]);
        assert newval[stridx..][1..] == newval[stridx + 1..];
        data := data + newval[stridx] + ['\0'];
      }
      assert data + [] == data;
    }
  }

  lemma NextString(data: seq<char8>, strs: seq<seq<char8>>)
    requires strs != []
    ensures data + Strings(strs) == data + strs[0] + ['\0'] + Strings(strs[1..])
  {}

  method ParseCells(newval: seq<seq<char8>>) returns (ret: nat, data: seq<char8>)
    requires newval != [] && At(newval[0]) == '<'
    ensures Parsed(ret == 0, data) == Cells(newval[0][1..], newval[1..])
  {
    hide Strtoul, Cell, SkipSpaces;
    var newp: string, stridx := newval[0][1..], 0;
    data := [];
    ghost var all := Cells(newp, newval[1..]);
    PrependMore([], [], all);
    while At(newp) != '>' && stridx < |newval|
      invariant stridx <= |newval| && (stridx == |newval| ==> newp == "")
      invariant Prepend(data, Cells(newp, Behind(newval, stridx))) == all
      decreases |newval| - stridx, |newp|
    {
      if newp == "" {
        stridx := stridx + 1;
        newp := if stridx < |newval| then newval[stridx] else "";
        continue;
      }
      var (tmp, endp) := Strtoul(newp, 0);
      PrependMore(data, Cell(tmp), Cells(SkipSpaces(endp), Behind(newval, stridx)));
      data := data + Cell(tmp);
      if |endp| == |newp| {
        ret := 1;
        return;
      }
      newp := SkipSpaces(endp);
    }
    assert data + [] == data;
    ret := if At(newp) != '>' then 1 else 0;
  }

  method ParseBytes(newval: seq<seq<char8>>) returns (ret: nat, data: seq<char8>)
    requires newval != [] && At(newval[0]) == '['
    ensures Parsed(ret == 0, data) == ByteStream(newval[0][1..], newval[1..])
  {
    hide Strtoul;
    var newp: string, stridx := newval[0][1..], 0;
    data := [];
    ghost var all := ByteStream(newp, newval[1..]);
    PrependMore([], [], all);
    while stridx < |newval| && At(newp) != ']'
      invariant stridx <= |newval| && (stridx == |newval| ==> newp == "")
      invariant Prepend(data, ByteStream(newp, Behind(newval, stridx))) == all
      decreases |newval| - stridx, |newp|
    {
      var p := SkipSpaces(newp);
      if p == "" {
        stridx := stridx + 1;
        newp := if stridx < |newval| then newval[stridx] else "";
        continue;
      }
      if !IsXDigit(p[0]) {
        newp := p;
        break;
      }
      StrtoulAdvances(p);
      var (tmp, endp) := Strtoul(p, 16);
      PrependMore(data, [ByteOf(tmp)], ByteStream(endp, Behind(newval, stridx)));
      data := data + [ByteOf(tmp)];
      newp := endp;
    }
    assert data + [] == data;
    ret := if At(newp) != ']' then 1 else 0;
  }

  // ----------------------------------------------------------------- print

  const SEPARATOR := "\", \""

  function Shown(data: seq<char8>): string {
    if data == [] then ""
    else if Printable(data) then "\"" + Joined(Split(data), SEPARATOR) + "\""
    else if |data| % 4 == 0 then "<" + Words(data) + ">"
    else "[" + Dump(data) + "]"
  }

  /** is_printable_string. */
  method IsPrintableString(data: seq<char8>) returns (r: bool)
    ensures r <==> Printable(data)
  {
    if data == [] || data[|data| - 1] != '\0' {
      return false;
    }
    var s := 0;
    while s < |data| && (data[s] == '\0' || IsPrint(data[s]))
      invariant s < |data|
      invariant forall i :: 0 <= i < s ==> data[i] == '\0' || IsPrint(data[i])
      invariant forall i :: 0 <= i < s && data[i] == '\0' ==> data[i + 1] != '\0'
    {
      if data[s] == '\0' {
        if s == |data| - 1 {
          return true;
        }
        if data[s + 1] == '\0' {
          return false;
        }
      }
      s := s + 1;
    }
    return false;
  }

  /** print_data. */
  method PrintData(data: seq<char8>) returns (out: string)
    ensures out == Shown(data)
  {
    if data == [] {
      return "";
    }
    var printable := IsPrintableString(data);
    if printable {
      out := PrintStrings(data);
    } else if |data| % 4 == 0 {
      out := PrintWords(data);
    } else {
      out := PrintBytes(data);
    }
  }

  method PrintStrings(data: seq<char8>) returns (out: string)
    requires data != [] && data[|data| - 1] == '\0'
    ensures out == "\"" + Joined(Split(data), SEPARATOR) + "\""
  {
    hide IndexOf, Joined, Split, More;
    out := "\"";
    var j := 0;
    assert data[0..] == data;
    NoMore();
    ghost var all := "\"" + Joined(Split(data), SEPARATOR);
    while j < |data|
      invariant j <= |data|
      invariant out + (if j == 0 then Joined(Split(data), SEPARATOR) else More(data[j..])) == all
    {
      var s := data[j..];
      LastNul(s);
      var k := IndexOf(s, '\0');
      MoreStrings(s);
      assert s[k + 1..] == data[j + k + 1..];
      if j > 0 {
        Assoc(out, SEPARATOR, s[..k] + More(s[k + 1..]));
        out := out + SEPARATOR;
      }
      Assoc(out, s[..k], More(s[k + 1..]));
      out := out + s[..k];
      j := j + k + 1;
    }
    assert data[j..] == [];
    Assoc(out, "", "");
    out := out + "\"";
  }

  /** What is printed of the rest behind a first string. */
  function More(s: seq<char8>): string {
    if s == [] then "" else SEPARATOR + Joined(Split(s), SEPARATOR)
  }

  lemma NoMore()
    ensures More([]) == ""
  {}

  /** The first string and what follows it, for a text that is the rest behind another
      (and so has a separator before it) or the whole. */
  lemma MoreStrings(s: seq<char8>)
    requires s != [] && IndexOf(s, '\0') < |s|
    ensures var k := IndexOf(s, '\0');
            Joined(Split(s), SEPARATOR) == s[..k] + More(s[k + 1..])
    ensures More(s) == SEPARATOR + Joined(Split(s), SEPARATOR)
  {
    hide IndexOf;
    var k := IndexOf(s, '\0');
    var first, rest := s[..k], Split(s[k + 1..]);
    assert Split(s) == [first] + rest && Split(s)[1..] == rest;
    if s[k + 1..] == [] {
      Assoc(first, "", "");
    } else {
      Assoc(first, SEPARATOR, Joined(rest, SEPARATOR));
    }
  }

  method PrintWords(data: seq<char8>) returns (out: string)
    requires |data| % 4 == 0
    ensures out == "<" + Words(data) + ">"
  {
    hide Word, Numeral;
    out := "<";
    assert data[0..] == data;
    for j := 0 to |data| / 4
      invariant out + Words(data[4 * j..]) == "<" + Words(data)
    {
      var rest := data[4 * j..];
      assert rest[4..] == data[4 * (j + 1)..];
      var word := "0x" + Numeral(Word(rest), 16) + if j < |data| / 4 - 1 then " " else "";
      WordsStep(rest);
      Assoc(out, word, Words(rest[4..]));
      out := out + word;
    }
    Assoc(out, "", "");
    out := out + ">";
  }

  lemma WordsStep(data: seq<char8>)
    requires |data| % 4 == 0 && data != []
    ensures Words(data) == "0x" + Numeral(Word(data), 16) + (if |data| > 4 then " " else "") + Words(data[4..])
  {
    WordsOf(data, "0x" + Numeral(Word(data), 16), data[4..]);
  }

  lemma WordsOf(data: seq<char8>, n: string, rest: seq<char8>)
    requires |data| % 4 == 0 && data != [] && rest == data[4..] && n == "0x" + Numeral(Word(data), 16)
    ensures Words(data) == n + (if |data| > 4 then " " else "") + Words(rest)
  {
    hide Word, Numeral;
    if |data| == 4 {
      assert rest == [];
      Assoc(n, "", "");
    } else {
      assert Words(data) == n + (" " + Words(rest));
      Assoc(n, " ", Words(rest));
    }
  }

  method PrintBytes(data: seq<char8>) returns (out: string)
    ensures out == "[" + Dump(data) + "]"
  {
    hide Hex2;
    out := "[";
    assert data[0..] == data;
    for j := 0 to |data|
      invariant out + Dump(data[j..]) == "[" + Dump(data)
    {
      var rest := data[j..];
      assert rest[1..] == data[j + 1..];
      var pair := Hex2(rest[0]) + if j < |data| - 1 then " " else "";
      DumpStep(rest);
      Assoc(out, pair, Dump(rest[1..]));
      out := out + pair;
    }
    Assoc(out, "", "");
    out := out + "]";
  }

  lemma DumpStep(data: seq<char8>)
    requires data != []
    ensures Dump(data) == Hex2(data[0]) + (if |data| > 1 then " " else "") + Dump(data[1..])
  {
    hide Hex2;
    var n, rest := Hex2(data[0]), Dump(data[1..]);
    if |data| == 1 {
      assert rest == "";
      Assoc(n, "", "");
    } else {
      assert Dump(data) == n + (" " + rest);
      Assoc(n, " ", rest);
    }
  }

  // ----------------------------------------------------------- round trips

  /** A list of strings whose first does not start with < or [ is printed as given
      exactly if it is presentable. */
  lemma StringsRoundTrip(strs: seq<seq<char8>>)
    requires strs != [] && CStrings(strs) && At(strs[0]) != '<' && At(strs[0]) != '['
    ensures var r := ParseProp(strs);
            && r.ok && Split(r.data) == strs && (Printable(r.data) <==> Presentable(strs))
            && (Presentable(strs) ==> Shown(r.data) == "\"" + Joined(strs, SEPARATOR) + "\"")
  {
    StringsArePrintable(strs);
    StringsSplit(strs);
  }

  /** A hexdump, split into arguments in any way, is read as the bytes it shows. */
  lemma HexdumpRoundTrip(data: seq<char8>, args: seq<seq<char8>>)
    requires args != [] && Text(args[0], args[1..]) == "[" + Dump(data) + "]"
    ensures ParseProp(args) == Parsed(true, data)
  {
    var text := Text(args[0], args[1..]);
    assert text[0] == '[';
    assert args[0] != [];
    assert text[0] == args[0][0];
    TextTail(args[0], args[1..]);
    assert text[1..] == Dump(data) + "]";
    SplittingIsFree(args[0][1..], args[1..]);
    DumpReadsBack(data);
  }

  lemma TextTail(newp: string, rest: seq<string>)
    requires newp != ""
    ensures Text(newp, rest)[1..] == Text(newp[1..], rest)
  {
    if rest != [] {
      var more := " " + Text(rest[0], rest[1..]);
      assert (newp + more)[1..] == newp[1..] + more;
    }
  }

  /** What is printed as words, split into arguments at its spaces in any way, comes
      back with every word's bytes reversed: unchanged exactly if each word reads the
      same from both ends. */
  lemma WordsRoundTrip(data: seq<char8>, args: seq<seq<char8>>)
    requires |data| % 4 == 0 && args != [] && Text(args[0], args[1..]) == "<" + Words(data) + ">"
    ensures ParseProp(args) == Parsed(true, Swapped(data))
    ensures ParseProp(args).data == data <==> Symmetric(data)
  {
    hide Words, Swapped, Cells, Symmetric;
    var text := Text(args[0], args[1..]);
    assert text[0] == '<' && args[0] != [] && args[0][0] == text[0];
    TextTail(args[0], args[1..]);
    assert text[1..] == Words(data) + ">";
    WordsReadBackSwapped(data, args[0][1..], args[1..]);
    SwappedIsSame(data);
  }

  /** When cells are read the same however they are split: the joined text of accepted
      arguments is read alike exactly if the first is not the bare bracket or is the
      only one; that of refused ones, too, unless one has leading spaces. */
  lemma CellsSplitting(args: seq<seq<char8>>, joined: seq<char8>)
    requires args != [] && At(args[0]) == '<' && joined == Text(args[0], args[1..])
    ensures ParseProp(args).ok ==> (ParseProp([joined]) == ParseProp(args) <==> args[0] != "<" || |args| == 1)
    ensures NoLeadingSpaces(args[1..]) && (args[0] != "<" || |args| == 1) ==> ParseProp([joined]) == ParseProp(args)
  {
    hide Cells, NoLeadingSpaces;
    TextTail(args[0], args[1..]);
    assert joined[0] == '<' && [joined][1..] == [];
    assert args[0] == "<" <==> args[0][1..] == "";
    CellsReadAlike(args[0][1..], args[1..]);
  }

  /** Both ways in which splitting matters: a bare bracket is only accepted alone, and
      leading spaces are only accepted joined. */
  lemma CellsDependOnSplitting()
    ensures ParseProp(["<", "5>"]) == Parsed(true, Cell(5)) && !ParseProp(["< 5>"]).ok
    ensures !ParseProp(["<5", " 6>"]).ok && ParseProp(["<5  6>"]) == Parsed(true, Cell(5) + Cell(6))
  {
    hide Cells;
    FiveReads();
    assert ["<", "5>"][1..] == ["5>"] && ["5>"][1..] == [] && "<"[1..] == "";
    FirstArgument(["5>"]);
    assert ["< 5>"][1..] == [] && "< 5>"[1..] == " 5>";
    LeadingSpace(" 5>", []);
    assert ["<5", " 6>"][1..] == [" 6>"] && [" 6>"][1..] == [] && "<5"[1..] == "5";
    assert ["<5  6>"][1..] == [] && "<5  6>"[1..] == "5  6>";
    NextCell("5", [" 6>"]);
    FirstArgument([" 6>"]);
    LeadingSpace(" 6>", []);
    NextCell("5  6>", []);
  }

  lemma FiveReads()
    ensures Cells("5>", []) == Parsed(true, Cell(5)) && Cells("6>", []) == Parsed(true, Cell(6))
    ensures Strtoul("5", 0) == (5, "") && Strtoul("5  6>", 0) == (5, "  6>")
    ensures SkipSpaces("") == "" && SkipSpaces("  6>") == "6>"
  {
    OneDigit(5, ">");
    OneDigit(6, ">");
    OneDigit(5, "");
    OneDigit(5, "  6>");
    assert "5" + ">" == "5>" && "6" + ">" == "6>" && "5" + "" == "5" && "5" + "  6>" == "5  6>";
    assert SkipSpaces(">") == ">" && Cell(5) + [] == Cell(5) && Cell(6) + [] == Cell(6);
    assert "  6>"[1..] == " 6>" && " 6>"[1..] == "6>";
  }

  lemma OneDigit(d: nat, more: string)
    requires 0 < d < 10 && !IsXDigit(At(more))
    ensures Strtoul([('0' as int + d) as char] + more, 0) == (d, more)
  {
    var s := [('0' as int + d) as char] + more;
    assert s[1..] == more;
    assert Digits(s, 10, 0) == Digits(more, 10, d) == (d, more);
  }
}
