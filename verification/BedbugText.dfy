/** Lines of assembly text for branches (common/bedbug.c): what disppc prints of an
    instruction, and asmppc, which reads it word by word. */
module BedbugText {
  import opened CText
  import opened Bedbug

  // ------------------------------------------------------------------ words

  /** isspace of lib_generic/ctype.c. */
  predicate IsBlank(c: char) {
    9 <= c as int <= 13 || c == ' ' || c as int == 160
  }

  function SkipBlanks(p: string): (q: string)
    ensures |q| <= |p| && !IsBlank(At(q))
  {
    if IsBlank(At(p)) then SkipBlanks(p[1..]) else p
  }

  /** The characters of p up to a blank or a comma. */
  function Leading(p: string): (w: string)
    ensures w <= p
  {
    if p == "" || IsBlank(p[0]) || p[0] == ',' then "" else [p[0]] + Leading(p[1..])
  }

  /** The next word, and the text behind it and behind one comma. */
  function GetWord(src: string): (r: (string, string))
    ensures |r.1| <= |src|
  {
    var p := SkipBlanks(src);
    var rest := p[|Leading(p)|..];
    (Leading(p), if At(rest) == ',' then rest[1..] else rest)
  }

  /** get_word. */
  method ReadWord(src: string) returns (dest: string, rest: string)
    ensures (dest, rest) == GetWord(src)
  {
    hide IsBlank, Leading, SkipBlanks;
    rest := src;
    while rest != "" && IsBlank(rest[0])
      invariant SkipBlanks(rest) == SkipBlanks(src)
      decreases |rest|
    {
      OneBlank(rest);
      rest := rest[1..];
    }
    NoBlanks(rest);
    ghost var p := rest;
    dest := "";
    assert "" + Leading(p) == Leading(p);
    while rest != "" && !IsBlank(rest[0]) && rest[0] != ','
      invariant |dest| <= |p| && rest == p[|dest|..] && Leading(p) == dest + Leading(rest)
      decreases |rest|
    {
      OneLetter(dest, rest);
      dest := dest + [rest[0]];
      rest := rest[1..];
    }
    NoLetter(rest);
    assert dest + "" == dest;
    if At(rest) == ',' {
      rest := rest[1..];
    }
  }

  lemma OneBlank(p: string)
    requires p != "" && IsBlank(p[0])
    ensures SkipBlanks(p[1..]) == SkipBlanks(p)
  {}

  lemma OneLetter(dest: string, p: string)
    requires p != "" && !IsBlank(p[0]) && p[0] != ','
    ensures dest + Leading(p) == dest + [p[0]] + Leading(p[1..])
  {
    Assoc(dest, [p[0]], Leading(p[1..]));
  }

  lemma NoLetter(p: string)
    requires p == "" || IsBlank(p[0]) || p[0] == ','
    ensures Leading(p) == ""
  {}

  lemma NoBlanks(p: string)
    requires p == "" || !IsBlank(p[0])
    ensures SkipBlanks(p) == p
  {}

  predicate IsWord(w: string) {
    w != "" && forall i :: 0 <= i < |w| ==> !IsBlank(w[i]) && w[i] != ','
  }

  lemma {:induction false} LeadingWord(w: string, more: string)
    requires forall i :: 0 <= i < |w| ==> !IsBlank(w[i]) && w[i] != ','
    requires more == "" || IsBlank(more[0]) || more[0] == ','
    ensures Leading(w + more) == w
  {
    if w == "" {
      assert w + more == more;
    } else {
      assert (w + more)[1..] == w[1..] + more;
      LeadingWord(w[1..], more);
    }
  }

  /** A word is read from in front of a comma, a blank or the end. */
  lemma WordIsRead(w: string, more: string)
    requires IsWord(w) && (more == "" || IsBlank(more[0]) || more[0] == ',')
    ensures GetWord(w + more) == (w, if At(more) == ',' then more[1..] else more)
    ensures GetWord(" " + (w + more)) == GetWord(w + more)
  {
    LeadingWord(w, more);
    assert (w + more)[|w|..] == more && !IsBlank((w + more)[0]);
    assert (" " + (w + more))[1..] == w + more;
  }

  // --------------------------------------------------------------- printing

  datatype Radix = Hex | Unsigned | SignedDecimal | Octal

  function OctalDigits(n: nat): (s: string)
    ensures s != "" && forall i :: 0 <= i < |s| ==> IsDigit(s[i])
  {
    if n < 8 then [Digit(n)] else OctalDigits(n / 8) + [Digit(n % 8)]
  }

  /** A small operand in the radix of the listing: "0x%x", "%u", "%d" or "O%o". */
  function NumberText(radix: Radix, v: nat): string {
    match radix
    case Hex => "0x" + Numeral(v, 16)
    case Unsigned => Numeral(v, 10)
    case SignedDecimal => Numeral(v, 10)
    case Octal => "O" + OctalDigits(v)
  }

  function Name(op: Op): string
    requires op.Conditional? || op.Unconditional?
  {
    if op.Unconditional? then
      if op.link then if op.absolute then "bla" else "bl" else if op.absolute then "ba" else "b"
    else
      if op.link then if op.absolute then "bcla" else "bcl" else if op.absolute then "bca" else "bc"
  }

  function Spaces(n: nat): string {
    if n == 0 then "" else " " + Spaces(n - 1)
  }

  /** "%-7s ". */
  function Padded(name: string): string {
    name + (Spaces(if |name| < 7 then 7 - |name| else 0) + " ")
  }

  /** What is printed of a branch with an address field. */
  function Shown(radix: Radix, pc: u32, instr: u32): string
    requires OpOf(instr).Conditional? || OpOf(instr).Unconditional?
  {
    var op := OpOf(instr);
    var f := if op.Conditional? then BD else LI;
    var address := PrintedText(f, !op.absolute, pc, instr);
    Padded(Name(op)) +
      if op.Unconditional? then address
      else NumberText(radix, Bo(instr)) + ("," + (NumberText(radix, Bi(instr)) + ("," + address)))
  }

  // -------------------------------------------------------------- assembler

  /** Silent operands, the AA and LK bits, are in the opcode already. */
  datatype Operand = BoOperand | BiOperand | Address(f: Field) | Silent

  function Operands(op: Op): seq<Operand> {
    match op
    case Conditional(_, _) => [BoOperand, BiOperand, Address(BD), Silent, Silent]
    case Unconditional(_, _) => [Address(LI), Silent, Silent]
    case _ => []
  }

  function Opcode(op: Op): nat
    requires op.Conditional? || op.Unconditional?
  {
    (if op.Conditional? then 16 else 18) * BIT26 + BIT1 * Bit(op.absolute) + Bit(op.link)
  }

  /** parse_operand, shifted into place. */
  function ParseOperand(op: Op, o: Operand, memaddr: u32, txt: string): nat
    requires op.Conditional? || op.Unconditional?
  {
    match o
    case BoOperand => BIT21 * (ReadNumber(txt) % 32)
    case BiOperand => BIT16 * (ReadNumber(txt) % 32)
    case Address(f) => BIT2 * AddressField(f, !op.absolute, memaddr, ReadNumber(txt))
    case Silent => 0
  }

  datatype Asm = Assembled(instr: nat) | NoText | BadOpcode | NumOperands

  /** The operands still to be read from the text; they do not overlap. */
  function AddOperands(op: Op, todo: seq<Operand>, memaddr: u32, text: string, instr: nat): Asm
    requires op.Conditional? || op.Unconditional?
    decreases |todo|
  {
    if todo == [] then Assembled(instr)
    else if todo[0].Silent? then AddOperands(op, todo[1..], memaddr, text, instr)
    else
      var (word, rest) := GetWord(text);
      if word == "" then NumOperands
      else AddOperands(op, todo[1..], memaddr, rest, instr + ParseOperand(op, todo[0], memaddr, word))
  }

  predicate IsUpper(c: char) {
    'A' <= c <= 'Z' || (192 <= c as int <= 222 && c as int != 215)
  }

  function Lower(s: string): string {
    if s == "" then "" else [if IsUpper(s[0]) then (s[0] as int + 32) as char else s[0]] + Lower(s[1..])
  }

  /** The branches with an address field among the opcodes. */
  function ByName(name: string): Option<Op> {
    if name == "b" then Some(Unconditional(false, false))
    else if name == "bl" then Some(Unconditional(false, true))
    else if name == "ba" then Some(Unconditional(true, false))
    else if name == "bla" then Some(Unconditional(true, true))
    else if name == "bc" then Some(Conditional(false, false))
    else if name == "bcl" then Some(Conditional(false, true))
    else if name == "bca" then Some(Conditional(true, false))
    else if name == "bcla" then Some(Conditional(true, true))
    else None
  }

  function Assembly(memaddr: u32, text: string): Asm {
    var (name, rest) := GetWord(text);
    if name == "" then NoText
    else match ByName(Lower(name))
      case None => BadOpcode
      case Some(op) =>
        assert op.Conditional? || op.Unconditional?;
        AddOperands(op, Operands(op), memaddr, rest, Opcode(op))
  }

  /** asmppc for these branches. */
  method AsmPpc(memaddr: u32, asmBuf: string) returns (r: Asm)
    ensures r == Assembly(memaddr, asmBuf)
  {
    hide GetWord, ParseOperand;
    var scratch, ptr := ReadWord(asmBuf);
    if scratch == "" {
      return NoText;
    }
    var opc := ByName(Lower(scratch));
    if opc == None {
      return BadOpcode;
    }
    var op := opc.value;
    var fields, instr: nat := Operands(op), Opcode(op);
    assert fields[0..] == fields;
    for n := 0 to |fields|
      invariant Assembly(memaddr, asmBuf) == AddOperands(op, fields[n..], memaddr, ptr, instr)
    {
      assert fields[n..][1..] == fields[n + 1..];
      if fields[n].Silent? {
        continue;
      }
      scratch, ptr := ReadWord(ptr);
      if scratch == "" {
        return NumOperands;
      }
      instr := instr + ParseOperand(op, fields[n], memaddr, scratch);
    }
    r := Assembled(instr);
  }

  // ------------------------------------------------------------- round trip

  lemma {:induction false} BlanksInFront(n: nat, text: string)
    ensures GetWord(Spaces(n) + text) == GetWord(text)
  {
    if n == 0 {
      assert "" + text == text;
    } else {
      BlanksInFront(n - 1, text);
      assert " " + Spaces(n - 1) + text == " " + (Spaces(n - 1) + text);
      assert (" " + (Spaces(n - 1) + text))[1..] == Spaces(n - 1) + text;
    }
  }

  /** The name of a printed line is found, and the first operand behind it. */
  lemma NameIsRead(op: Op, text: string)
    requires op.Conditional? || op.Unconditional?
    ensures var (name, rest) := GetWord(Padded(Name(op)) + text);
            name != "" && ByName(Lower(name)) == Some(op) && GetWord(rest) == GetWord(text)
  {
    hide GetWord, Spaces, Name, IsWord, ByName, Lower;
    var name, n := Name(op), 7 - |Name(op)|;
    NameIsWord(op);
    PaddedText(name, text);
    FirstBlank(n, " " + text);
    WordIsRead(name, Spaces(n) + (" " + text));
    BlanksInFront(n, " " + text);
    OneSpace();
    BlanksInFront(1, text);
    assert name != "" by {
      FirstOfWord(name);
    }
  }

  lemma PaddedText(name: string, text: string)
    requires |name| <= 4
    ensures Padded(name) + text == name + (Spaces(7 - |name|) + (" " + text))
  {
    hide Spaces;
    Assoc(name, Spaces(7 - |name|) + " ", text);
    Assoc(Spaces(7 - |name|), " ", text);
  }

  lemma OneSpace()
    ensures Spaces(1) == " "
  {
    assert Spaces(1) == " " + Spaces(0) == " " + "";
  }

  lemma FirstBlank(n: nat, more: string)
    requires At(more) == ' '
    ensures At(Spaces(n) + more) == ' '
  {
    if n == 0 {
      assert "" + more == more;
    }
  }

  lemma NameIsWord(op: Op)
    requires op.Conditional? || op.Unconditional?
    ensures IsWord(Name(op)) && |Name(op)| <= 4 && ByName(Lower(Name(op))) == Some(op)
  {
    hide Lower;
    LowerKeeps(Name(op));
  }

  lemma {:induction false} LowerKeeps(s: string)
    requires forall i :: 0 <= i < |s| ==> !IsUpper(s[i])
    ensures Lower(s) == s
  {
    if s != "" {
      LowerKeeps(s[1..]);
      assert s == [s[0]] + s[1..];
    }
  }

  // ------------------------------------------------------- printed operands

  lemma DigitsAreWord(s: string)
    requires s != "" && forall i :: 0 <= i < |s| ==> IsXDigit(s[i])
    ensures IsWord(s) && IsWord("0x" + s) && IsWord("O" + s)
  {}

  lemma NumeralIsWord(v: nat)
    ensures IsWord(Numeral(v, 10)) && IsWord("0x" + Numeral(v, 16))
  {
    hide Numeral, IsWord;
    assert forall i :: 0 <= i < |Numeral(v, 10)| ==> Numeral(v, 10)[i] in Numeral(v, 10);
    assert forall i :: 0 <= i < |Numeral(v, 16)| ==> Numeral(v, 16)[i] in Numeral(v, 16);
    DigitsAreWord(Numeral(v, 10));
    DigitsAreWord(Numeral(v, 16));
  }

  lemma NumberIsWord(radix: Radix, v: nat)
    ensures IsWord(NumberText(radix, v))
  {
    hide IsWord, Numeral, OctalDigits;
    NumeralIsWord(v);
    DigitsAreWord(OctalDigits(v));
  }

  /** A printed number is read back in every radix but octal, whose letter O stops the
      reader at once. */
  lemma NumberTextReadsBack(radix: Radix, v: nat)
    requires v < 0x8000
    ensures ReadNumber(NumberText(radix, v)) == if radix == Octal then 0 else v
  {
    hide Numeral, OctalDigits;
    match radix
    case Hex => NumberReadsBack(v);
    case Octal =>
      assert Digits("O" + OctalDigits(v), 10, 0).0 == 0;
    case _ => DecimalTextReadsBack(v);
  }

  lemma DecimalTextReadsBack(v: nat)
    requires v < 0x8000
    ensures ReadNumber(Numeral(v, 10)) == v
  {
    hide Numeral, Digits;
    var s := Numeral(v, 10);
    assert s[0] in s;
    assert s + "" == s;
    DigitsOfNumeral(v, 10, "");
    NoMoreDigits(v);
    if v == 0 {
      ZeroIsShort();
    }
  }

  lemma NoMoreDigits(v: u32)
    ensures Digits("", 10, v) == (v, "")
  {}

  lemma ZeroIsShort()
    ensures Numeral(0, 10) == "0"
  {
  }

  /** One operand of a printed list. */
  lemma OperandIsAdded(op: Op, todo: seq<Operand>, memaddr: u32, w: string, more: string, instr: nat)
    requires op.Conditional? || op.Unconditional?
    requires todo != [] && !todo[0].Silent? && IsWord(w) && (more == "" || more[0] == ',')
    ensures AddOperands(op, todo, memaddr, w + more, instr)
         == AddOperands(op, todo[1..], memaddr, if more == "" then "" else more[1..],
                        instr + ParseOperand(op, todo[0], memaddr, w))
  {
    hide GetWord, ParseOperand, IsWord;
    WordIsRead(w, more);
    FirstOfWord(w);
  }

  lemma FirstOfWord(w: string)
    requires IsWord(w)
    ensures w != ""
  {}

  lemma SilentIsSkipped(op: Op, memaddr: u32, text: string, instr: nat)
    requires op.Conditional? || op.Unconditional?
    ensures AddOperands(op, [Silent, Silent], memaddr, text, instr) == Assembled(instr)
  {
    assert [Silent, Silent][1..] == [Silent] && [Silent][1..] == [];
    assert AddOperands(op, [Silent], memaddr, text, instr) == AddOperands(op, [], memaddr, text, instr);
  }

  /** A line is read through its first operand on, whatever blanks come before. */
  lemma LineIsRead(op: Op, memaddr: u32, text: string)
    requires op.Conditional? || op.Unconditional?
    ensures Assembly(memaddr, Padded(Name(op)) + text) == AddOperands(op, Operands(op), memaddr, text, Opcode(op))
  {
    hide GetWord, Padded, Name, ByName, Lower, Opcode, ParseOperand;
    NameIsRead(op, text);
    var rest := GetWord(Padded(Name(op)) + text).1;
    assert !Operands(op)[0].Silent?;
  }

  /** A line of an unconditional branch assembles to the word with its address. */
  lemma AddressLine(op: Op, memaddr: u32, txt: string)
    requires op.Unconditional? && IsWord(txt)
    ensures Assembly(memaddr, Padded(Name(op)) + txt)
         == Assembled(Assemble(LI, 0, 0, op.absolute, op.link, memaddr, txt))
  {
    hide Assembly, Padded, Name, AddOperands, ReadNumber, AddressField, IsWord;
    LineIsRead(op, memaddr, txt);
    assert txt + "" == txt;
    OperandIsAdded(op, Operands(op), memaddr, txt, "", Opcode(op));
    assert Operands(op)[1..] == [Silent, Silent];
    SilentIsSkipped(op, memaddr, "", Opcode(op) + ParseOperand(op, Address(LI), memaddr, txt));
  }

  /** A line of a conditional branch assembles to the word with its three operands. */
  lemma ConditionalLine(op: Op, memaddr: u32, bo: string, bi: string, txt: string)
    requires op.Conditional? && IsWord(bo) && IsWord(bi) && IsWord(txt)
    ensures Assembly(memaddr, Padded(Name(op)) + (bo + ("," + (bi + ("," + txt)))))
         == Assembled(Assemble(BD, ReadNumber(bo) % 32, ReadNumber(bi) % 32, op.absolute, op.link, memaddr, txt))
  {
    hide Assembly, Padded, Name, AddOperands, ReadNumber, AddressField, IsWord;
    var third := txt + "";
    var second := bi + ("," + third);
    assert third == txt && ("," + third)[1..] == third && ("," + second)[1..] == second;
    LineIsRead(op, memaddr, bo + ("," + second));
    var todo := Operands(op);
    assert todo[1..] == [BiOperand, Address(BD), Silent, Silent];
    assert todo[1..][1..] == [Address(BD), Silent, Silent] && todo[1..][1..][1..] == [Silent, Silent];
    var one := Opcode(op) + ParseOperand(op, BoOperand, memaddr, bo);
    var two := one + ParseOperand(op, BiOperand, memaddr, bi);
    OperandIsAdded(op, todo, memaddr, bo, "," + second, Opcode(op));
    OperandIsAdded(op, todo[1..], memaddr, bi, "," + third, one);
    OperandIsAdded(op, todo[1..][1..], memaddr, txt, "", two);
    SilentIsSkipped(op, memaddr, "", two + ParseOperand(op, Address(BD), memaddr, txt));
  }

  /** What the disassembler prints of any branch with an address field, name, BO, BI
      and address, assembles to the same word at the same place: in every radix but
      octal, and in octal exactly if there is no number but 0 to be printed in it. */
  lemma BranchReassembles(radix: Radix, pc: u32, instr: u32)
    requires OpOf(instr).Conditional? || OpOf(instr).Unconditional?
    ensures Assembly(pc, Shown(radix, pc, instr)) == Assembled(instr)
       <==> radix != Octal || OpOf(instr).Unconditional? || (Bo(instr) == 0 && Bi(instr) == 0)
  {
    hide Assembly, Padded, Name, NumberText, PrintedText, Assemble, IsWord, ReadNumber, OpOf, Bo, Bi;
    var op := OpOf(instr);
    FieldsReassemble(pc, instr);
    if op.Unconditional? {
      AddressIsWord(LI, !op.absolute, pc, instr);
      AddressLine(op, pc, PrintedText(LI, !op.absolute, pc, instr));
    } else {
      var address := PrintedText(BD, !op.absolute, pc, instr);
      AddressIsWord(BD, !op.absolute, pc, instr);
      NumberIsWord(radix, Bo(instr));
      NumberIsWord(radix, Bi(instr));
      NumberTextReadsBack(radix, Bo(instr));
      NumberTextReadsBack(radix, Bi(instr));
      ConditionalLine(op, pc, NumberText(radix, Bo(instr)), NumberText(radix, Bi(instr)), address);
      if radix == Octal {
        OtherOperands(op, pc, address, Bo(instr), Bi(instr));
      }
    }
  }

  lemma AddressIsWord(f: Field, relative: bool, pc: u32, instr: u32)
    ensures IsWord(PrintedText(f, relative, pc, instr))
  {
    hide Printed, Numeral, IsWord;
    NumeralIsWord(Printed(f, relative, pc, instr));
  }

  /** Words that differ in BO or BI are different. */
  lemma OtherOperands(op: Op, pc: u32, txt: string, bo: nat, bi: nat)
    requires op.Conditional? && bo < 32 && bi < 32
    ensures Assemble(BD, 0, 0, op.absolute, op.link, pc, txt) == Assemble(BD, bo, bi, op.absolute, op.link, pc, txt)
       <==> bo == 0 && bi == 0
  {
    hide ReadNumber, AddressField;
  }
}
