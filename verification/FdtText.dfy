/** Property values as text: what `fdt set` reads and `fdt print` writes (common/cmd_fdt.c). */
module FdtText {
  import opened CText

  function ByteOf(n: nat): char8 {
    (n % 256) as char
  }

  /** isprint of lib_generic/ctype.c. */
  predicate IsPrint(c: char8) {
    ' ' <= c <= '~' || 160 <= c as int
  }

  function SkipSpaces(p: string): (q: string)
    ensures |q| <= |p| && At(q) != ' '
  {
    if At(p) == ' ' then SkipSpaces(p[1..]) else p
  }

  function Joined(strs: seq<string>, separator: string): string {
    if strs == [] then "" else if |strs| == 1 then strs[0] else strs[0] + separator + Joined(strs[1..], separator)
  }

  // ---------------------------------------------------------------- strings

  function Strings(strs: seq<seq<char8>>): (data: seq<char8>) {
    if strs == [] then [] else strs[0] + ['\0'] + Strings(strs[1..])
  }

  /** The strings that data holds, as strlen finds their ends. */
  function Split(data: seq<char8>): seq<seq<char8>>
    decreases |data|
  {
    if data == [] then [] else
      var k := IndexOf(data, '\0');
      [data[..k]] + if k < |data| then Split(data[k + 1..]) else []
  }

  predicate NoDoubleNul(data: seq<char8>) {
    forall i :: 0 <= i < |data| - 1 && data[i] == '\0' ==> data[i + 1] != '\0'
  }

  predicate AllPrint(data: seq<char8>) {
    forall i :: 0 <= i < |data| ==> IsPrint(data[i])
  }

  /** What is printed as strings. */
  predicate Printable(data: seq<char8>) {
    data != [] && data[|data| - 1] == '\0' && NoDoubleNul(data) && TextOnly(data)
  }

  predicate TextOnly(data: seq<char8>) {
    forall i :: 0 <= i < |data| ==> data[i] == '\0' || IsPrint(data[i])
  }

  predicate CStrings(strs: seq<seq<char8>>) {
    forall i :: 0 <= i < |strs| ==> '\0' !in strs[i]
  }

  /** Non-empty but for the first, and printing characters only. */
  predicate Presentable(strs: seq<seq<char8>>) {
    && strs != [] && (forall i :: 0 < i < |strs| ==> strs[i] != [])
    && forall i :: 0 <= i < |strs| ==> AllPrint(strs[i])
  }

  /** A string list is recognised as one exactly if it is presentable. */
  lemma {:induction false} StringsArePrintable(strs: seq<seq<char8>>)
    requires CStrings(strs)
    ensures Printable(Strings(strs)) <==> Presentable(strs)
  {
    if strs != [] {
      var rest := strs[1..];
      FirstString(strs[0], Strings(rest));
      StringsArePrintable(rest);
      assert forall i :: 0 < i < |strs| ==> strs[i] == rest[i - 1];
      assert forall i :: 0 <= i < |rest| ==> rest[i] == strs[i + 1];
      if rest != [] {
        assert Strings(rest)[0] == (if rest[0] == [] then '\0' else rest[0][0]);
        assert rest[0] == strs[1];
      }
    }
  }

  lemma FirstString(s: seq<char8>, rest: seq<char8>)
    requires '\0' !in s
    ensures Printable(s + ['\0'] + rest)
       <==> AllPrint(s) && (rest == [] || (rest[0] != '\0' && Printable(rest)))
  {
    hide NoDoubleNul, TextOnly, AllPrint;
    FirstStringEnds(s, rest);
    FirstStringChars(s, rest);
  }

  lemma FirstStringEnds(s: seq<char8>, rest: seq<char8>)
    requires '\0' !in s
    ensures NoDoubleNul(s + ['\0'] + rest) <==> rest == [] || (rest[0] != '\0' && NoDoubleNul(rest))
  {
    var data := s + ['\0'] + rest;
    assert forall i :: 0 <= i < |s| ==> data[i] == s[i] && s[i] in s;
    assert data[|s|] == '\0' && forall i :: 0 <= i < |rest| ==> rest[i] == data[i + |s| + 1];
  }

  lemma FirstStringChars(s: seq<char8>, rest: seq<char8>)
    requires '\0' !in s
    ensures TextOnly(s + ['\0'] + rest) <==> AllPrint(s) && TextOnly(rest)
    ensures TextOnly([])
  {
    var data := s + ['\0'] + rest;
    assert forall i :: 0 <= i < |s| ==> data[i] == s[i] && s[i] in s;
    assert data[|s|] == '\0' && forall i :: 0 <= i < |rest| ==> rest[i] == data[i + |s| + 1];
  }

  /** Printing finds the strings that were given. */
  lemma {:induction false} StringsSplit(strs: seq<seq<char8>>)
    requires CStrings(strs)
    ensures Split(Strings(strs)) == strs
  {
    if strs != [] {
      var data, rest := Strings(strs), Strings(strs[1..]);
      IndexOfFirst(strs[0], '\0', rest);
      assert data[..|strs[0]|] == strs[0] && data[|strs[0]| + 1..] == rest;
      StringsSplit(strs[1..]);
    }
  }

  /** Everything printed as strings is the image of its strings. */
  lemma {:induction false} SplitJoins(data: seq<char8>)
    requires data != [] ==> data[|data| - 1] == '\0'
    ensures Strings(Split(data)) == data && CStrings(Split(data))
    decreases |data|
  {
    hide Split, Strings, CStrings, IndexOf;
    if data == [] {
      NothingSplit();
    } else {
      var k := IndexOf(data, '\0');
      LastNul(data);
      assert data == data[..k] + ['\0'] + data[k + 1..];
      assert data[k + 1..] != [] ==> data[k + 1..][|data[k + 1..]| - 1] == data[|data| - 1];
      SplitJoins(data[k + 1..]);
      FirstSplit(data, data[..k], data[k + 1..]);
    }
  }

  lemma NothingSplit()
    ensures Split([]) == [] && Strings([]) == [] && CStrings([])
  {}

  lemma FirstSplit(data: seq<char8>, s: seq<char8>, rest: seq<char8>)
    requires '\0' !in s && data == s + ['\0'] + rest
    requires Strings(Split(rest)) == rest && CStrings(Split(rest))
    ensures Split(data) == [s] + Split(rest) && Strings(Split(data)) == data && CStrings(Split(data))
  {
    IndexOfFirst(s, '\0', rest);
    assert data[..|s|] == s && data[|s| + 1..] == rest;
    assert ([s] + Split(rest))[1..] == Split(rest);
  }

  lemma LastNul(data: seq<char8>)
    requires data != [] && data[|data| - 1] == '\0'
    ensures IndexOf(data, '\0') < |data|
  {
    assert data[..|data|] == data;
  }

  // ------------------------------------------------------------ byte stream

  /** Parsed values: whether the text was accepted, and the bytes up to there. */
  datatype Parsed = Parsed(ok: bool, data: seq<char8>)

  function Prepend(bs: seq<char8>, r: Parsed): Parsed {
    r.(data := bs + r.data)
  }

  lemma StrtoulAdvances(p: string)
    requires IsXDigit(At(p))
    ensures |Strtoul(p, 16).1| < |p|
  {}

  /** The byte stream from newp on, where rest are the arguments behind newp's. */
  function ByteStream(newp: string, rest: seq<string>): Parsed
    decreases |rest|, |newp|
  {
    if At(newp) == ']' then Parsed(true, []) else
      var p := SkipSpaces(newp);
      if p == "" then if rest == [] then Parsed(false, []) else ByteStream(rest[0], rest[1..])
      else if !IsXDigit(p[0]) then Parsed(p[0] == ']', [])
      else
        StrtoulAdvances(p);
        var (v, q) := Strtoul(p, 16);
        Prepend([ByteOf(v)], ByteStream(q, rest))
  }

  /** The text of the remaining arguments. */
  function Text(newp: string, rest: seq<string>): string
    decreases |rest|
  {
    if rest == [] then newp else newp + (" " + Text(rest[0], rest[1..]))
  }

  lemma {:induction false} SkipJoined(p: string, more: string)
    ensures SkipSpaces(p + more) == if SkipSpaces(p) == "" then SkipSpaces(more) else SkipSpaces(p) + more
  {
    if p == "" {
      assert p + more == more;
    } else if p[0] == ' ' {
      assert (p + more)[1..] == p[1..] + more;
      SkipJoined(p[1..], more);
    }
  }

  lemma {:induction false} DigitsStop(p: string, base: nat, acc: u32, more: string)
    requires At(more) == ' ' || At(more) == ']'
    ensures Digits(p + more, base, acc) == (Digits(p, base, acc).0, Digits(p, base, acc).1 + more)
    decreases |p|
  {
    if p == "" {
      assert p + more == more && "" + more == more;
    } else {
      assert (p + more)[1..] == p[1..] + more && (p + more)[0] == p[0];
      if TakesDigit(p, base) {
        DigitsStop(p[1..], base, U32(acc * base + DigitValue(p[0])), more);
      }
    }
  }

  lemma StrtoulStops(p: string, base: nat, more: string)
    requires At(more) == ' ' || At(more) == ']'
    ensures Strtoul(p + more, base) == (Strtoul(p, base).0, Strtoul(p, base).1 + more)
  {
    hide Digits;
    var (q, b) := Prefix(p, base);
    PrefixStops(p, base, more);
    DigitsStop(q, b, 0, more);
  }

  lemma PrefixStops(p: string, base: nat, more: string)
    requires At(more) == ' ' || At(more) == ']'
    ensures Prefix(p + more, base) == (Prefix(p, base).0 + more, Prefix(p, base).1)
  {
    if p == "" {
      assert p + more == more && "" + more == more;
    } else {
      assert (p + more)[1..] == p[1..] + more;
      assert |p| >= 2 ==> (p + more)[2..] == p[2..] + more;
    }
  }

  /** However a byte stream is split into arguments at its spaces, it is read like
      one argument, well-formed or not. */
  lemma {:induction false} SplittingIsFree(newp: string, rest: seq<string>)
    ensures ByteStream(newp, rest) == ByteStream(Text(newp, rest), [])
    decreases |rest|, |newp|
  {
    if rest != [] && At(newp) != ']' {
      var text := Text(rest[0], rest[1..]);
      var more := " " + text;
      var p := SkipSpaces(newp);
      SkipJoined(newp, more);
      assert more[1..] == text && SkipSpaces(more) == SkipSpaces(text);
      assert At(newp + more) != ']';
      if p == "" {
        SplittingIsFree(rest[0], rest[1..]);
        SpacesAreFree(newp + more, text);
      } else if IsXDigit(p[0]) {
        StrtoulAdvances(p);
        StrtoulStops(p, 16, more);
        assert At(p + more) == p[0];
        SplittingIsFree(Strtoul(p, 16).1, rest);
      }
    }
  }

  lemma SpacesAreFree(p: string, q: string)
    requires At(p) != ']' && SkipSpaces(p) == SkipSpaces(q)
    ensures ByteStream(p, []) == ByteStream(q, [])
  {}

  /** "%02x". */
  function Hex2(c: char8): (s: string)
    ensures |s| == 2
  {
    [Digit(c as int / 16), Digit(c as int % 16)]
  }

  /** The hexdump of data, without its brackets. */
  function Dump(data: seq<char8>): string {
    if data == [] then "" else if |data| == 1 then Hex2(data[0]) else Hex2(data[0]) + (" " + Dump(data[1..]))
  }

  lemma Hex2ReadsBack(c: char8, more: string)
    requires At(more) == ' ' || At(more) == ']'
    ensures Strtoul(Hex2(c) + more, 16) == (c as int, more)
  {
    var s := Hex2(c) + more;
    assert s[1..] == [Digit(c as int % 16)] + more && s[2..] == more && s[1..][1..] == more;
    assert Digits(more, 16, c as int) == (c as int, more);
    assert Digits(s[1..], 16, c as int / 16) == (c as int, more);
  }

  lemma NextByte(c: char8, more: string)
    requires At(more) == ' ' || At(more) == ']'
    ensures ByteStream(Hex2(c) + more, []) == Prepend([c], ByteStream(more, []))
  {
    hide Strtoul, DigitValue;
    var p := Hex2(c) + more;
    Hex2ReadsBack(c, more);
    assert At(p) == Digit(c as int / 16) && SkipSpaces(p) == p;
  }

  lemma {:induction false} DumpReadsBack(data: seq<char8>)
    ensures ByteStream(Dump(data) + "]", []) == Parsed(true, data)
  {
    hide Hex2, ByteStream, SkipSpaces;
    EndOfStream();
    if data == [] {
      assert "" + "]" == "]";
    } else if |data| == 1 {
      NextByte(data[0], "]");
      assert data == [data[0]] + [];
    } else {
      var text := Dump(data[1..]) + "]";
      DumpText(data, text);
      NextByte(data[0], " " + text);
      DumpReadsBack(data[1..]);
      OneSpace(text);
      assert data == [data[0]] + data[1..];
    }
  }

  lemma DumpText(data: seq<char8>, text: string)
    requires |data| > 1 && text == Dump(data[1..]) + "]"
    ensures Dump(data) + "]" == Hex2(data[0]) + (" " + text)
  {
    hide Hex2;
    Assoc(Hex2(data[0]), " " + Dump(data[1..]), "]");
    Assoc(" ", Dump(data[1..]), "]");
  }

  lemma OneSpace(text: string)
    ensures ByteStream(" " + text, []) == ByteStream(text, [])
  {
    assert (" " + text)[1..] == text;
    SpacesAreFree(" " + text, text);
  }

  lemma EndOfStream()
    ensures ByteStream("]", []) == Parsed(true, [])
  {}

  // ----------------------------------------------------------------- cells

  /** The bytes of a 32-bit number, most significant first. */
  function Cell(v: u32): seq<char8> {
    [ByteOf(v / 0x100_0000), ByteOf(v / 0x1_0000), ByteOf(v / 0x100), ByteOf(v)]
  }

  function Cells(newp: string, rest: seq<string>): Parsed
    decreases |rest|, |newp|
  {
    if At(newp) == '>' then Parsed(true, [])
    else if newp == "" then if rest == [] then Parsed(false, []) else Cells(rest[0], rest[1..])
    else
      var (v, q) := Strtoul(newp, 0);
      if |q| == |newp| then Parsed(false, Cell(v)) else Prepend(Cell(v), Cells(SkipSpaces(q), rest))
  }

  /** What the processor of this tree, with its least significant byte first, reads. */
  function Word(data: seq<char8>): u32
    requires |data| >= 4
  {
    data[0] as int + 0x100 * (data[1] as int) + 0x1_0000 * (data[2] as int) + 0x100_0000 * (data[3] as int)
  }

  /** The words of data, without their brackets: "0x%x". */
  function Words(data: seq<char8>): string
    requires |data| % 4 == 0
    decreases |data|
  {
    if data == [] then "" else
      "0x" + Numeral(Word(data), 16) + if |data| == 4 then "" else " " + Words(data[4..])
  }

  /** Every group of four bytes back to front. */
  function Swapped(data: seq<char8>): seq<char8>
    requires |data| % 4 == 0
    decreases |data|
  {
    if data == [] then [] else [data[3], data[2], data[1], data[0]] + Swapped(data[4..])
  }

  lemma CellOfWord(data: seq<char8>)
    requires |data| >= 4
    ensures Cell(Word(data)) == [data[3], data[2], data[1], data[0]]
  {
    var v := Word(data);
    assert v / 0x100 == data[1] as int + 0x100 * (data[2] as int) + 0x1_0000 * (data[3] as int);
    assert v / 0x1_0000 == data[2] as int + 0x100 * (data[3] as int);
    assert v / 0x100_0000 == data[3] as int;
  }

  lemma WordReadsBack(v: u32, more: string)
    requires At(more) == ' ' || At(more) == '>'
    ensures Strtoul("0x" + Numeral(v, 16) + more, 0) == (v, more)
  {
    hide Numeral, Digits;
    var p := "0x" + Numeral(v, 16) + more;
    assert p[1..][0] == 'x' && p[2..] == Numeral(v, 16) + more;
    DigitsOfNumeral(v, 16, more);
    NoDigits(v, more);
  }

  lemma NoDigits(v: u32, more: string)
    requires !IsXDigit(At(more))
    ensures Digits(more, 16, v) == (v, more)
  {
  }

  /** Printed words are read back, from one argument, with the bytes of every word
      reversed. */
  lemma {:induction false} WordsReadBack(data: seq<char8>)
    requires |data| % 4 == 0
    ensures Cells(Words(data) + ">", []) == Parsed(true, Swapped(data))
    decreases |data|
  {
    if data == [] {
      assert "" + ">" == ">";
    } else {
      var v, more := Word(data), if |data| == 4 then ">" else " " + (Words(data[4..]) + ">");
      assert Words(data) + ">" == "0x" + Numeral(v, 16) + more;
      WordReadsBack(v, more);
      CellOfWord(data);
      WordsReadBack(data[4..]);
      if |data| > 4 {
        assert more[1..] == Words(data[4..]) + ">";
        assert SkipSpaces(more) == more[1..];
      } else {
        assert Words([]) + ">" == ">" == more;
      }
    }
  }

  predicate Symmetric(data: seq<char8>)
    requires |data| % 4 == 0
  {
    forall k :: 0 <= k < |data| / 4 ==> data[4 * k] == data[4 * k + 3] && data[4 * k + 1] == data[4 * k + 2]
  }

  /** They come back unchanged exactly if every word reads the same from both ends. */
  lemma {:induction false} SwappedIsSame(data: seq<char8>)
    requires |data| % 4 == 0
    ensures Swapped(data) == data <==> Symmetric(data)
    decreases |data|
  {
    hide Symmetric;
    if data == [] {
      SymmetricEmpty();
    } else {
      SwappedIsSame(data[4..]);
      SymmetricFirst(data);
      var first := [data[3], data[2], data[1], data[0]];
      assert Swapped(data) == first + Swapped(data[4..]);
      SameFirst(data, first, Swapped(data[4..]));
    }
  }

  lemma SameFirst(data: seq<char8>, first: seq<char8>, rest: seq<char8>)
    requires |data| >= |first| == 4
    ensures first + rest == data <==> data[..4] == first && data[4..] == rest
  {
    assert (first + rest)[..4] == first && (first + rest)[4..] == rest;
  }

  lemma SymmetricEmpty()
    ensures Symmetric([])
  {}

  lemma SymmetricFirst(data: seq<char8>)
    requires |data| % 4 == 0 && data != []
    ensures Symmetric(data) <==> data[0] == data[3] && data[1] == data[2] && Symmetric(data[4..])
  {
    var rest := data[4..];
    if Symmetric(data) {
      assert data[4 * 0] == data[4 * 0 + 3];
      forall k | 0 <= k < |rest| / 4 ensures rest[4 * k] == rest[4 * k + 3] && rest[4 * k + 1] == rest[4 * k + 2] {
        assert data[4 * (k + 1)] == data[4 * (k + 1) + 3];
      }
    }
    if data[0] == data[3] && data[1] == data[2] && Symmetric(rest) {
      forall k | 0 <= k < |data| / 4 ensures data[4 * k] == data[4 * k + 3] && data[4 * k + 1] == data[4 * k + 2] {
        if k > 0 {
          assert rest[4 * (k - 1)] == rest[4 * (k - 1) + 3];
        }
      }
    }
  }
}
