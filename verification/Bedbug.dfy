/** Branch instructions in the BedBug debugger (common/bedbug.c): the assembler, the
    disassembler and the stepper each treat the same address field in their own way.
    Processors of this debugger are big-endian, so htonl changes nothing. */
module Bedbug {
  import opened Octets
  import opened CText

  /** A number as a 32-bit long. */
  function Signed(x: int): (r: int)
    ensures U32(r) == U32(x)
    ensures -0x8000_0000 <= r < 0x8000_0000
  {
    if U32(x) < 0x8000_0000 then U32(x) else U32(x) - TWO32
  }

  // ---------------------------------------------------- instruction words

  /** The address fields: LI of b, bl, ba and bla, BD of bc, bcl, bca and bcla. */
  datatype Field = LI | BD

  /** Half of the values of a field of 24 or 14 bits. */
  function Half(f: Field): nat {
    if f == LI then 0x80_0000 else 0x2000
  }

  const BIT1: nat := 2
  const BIT2: nat := 4
  const BIT16: nat := 0x1_0000
  const BIT21: nat := 0x20_0000
  const BIT26: nat := 0x400_0000

  datatype Op = Conditional(absolute: bool, link: bool) | Unconditional(absolute: bool, link: bool)
              | ToCtr(link: bool) | ToLr(link: bool) | SystemCall | ReturnFromInterrupt | Other

  /** What a word is, by its primary and extended opcode. */
  function OpOf(instr: u32): Op {
    var primary, link := instr / BIT26, instr % 2 == 1;
    if primary == 16 then Conditional(instr / BIT1 % 2 == 1, link)
    else if primary == 18 then Unconditional(instr / BIT1 % 2 == 1, link)
    else if primary == 19 && instr / BIT1 % 1024 == 528 then ToCtr(link)
    else if primary == 19 && instr / BIT1 % 1024 == 16 then ToLr(link)
    else if primary == 17 && instr / BIT1 % 2 == 1 then SystemCall
    else if primary == 19 && instr / BIT1 % 1024 == 50 && !link then ReturnFromInterrupt
    else Other
  }

  function Bo(instr: u32): (bo: nat)
    ensures bo < 32
  {
    instr / BIT21 % 32
  }

  function Bi(instr: u32): (bi: nat)
    ensures bi < 32
  {
    instr / BIT16 % 32
  }

  function FieldOf(f: Field, instr: u32): (field: nat)
    ensures field < 2 * Half(f)
  {
    instr / BIT2 % (2 * Half(f))
  }

  function Bit(b: bool): nat {
    if b then 1 else 0
  }

  /** The word that asmppc puts together; the operands do not overlap. */
  function Word(f: Field, bo: nat, bi: nat, field: nat, absolute: bool, link: bool): (instr: nat)
    requires bo < 32 && bi < 32 && field < 2 * Half(f)
    ensures instr < TWO32
  {
    if f == LI then 18 * BIT26 + BIT2 * field + BIT1 * Bit(absolute) + Bit(link)
    else 16 * BIT26 + BIT21 * bo + BIT16 * bi + BIT2 * field + BIT1 * Bit(absolute) + Bit(link)
  }

  lemma WordParts(f: Field, bo: nat, bi: nat, field: nat, absolute: bool, link: bool)
    requires bo < 32 && bi < 32 && field < 2 * Half(f)
    ensures var instr := Word(f, bo, bi, field, absolute, link);
            && FieldOf(f, instr) == field
            && OpOf(instr) == (if f == LI then Unconditional(absolute, link) else Conditional(absolute, link))
            && (f == BD ==> Bo(instr) == bo && Bi(instr) == bi)
  {
    LowBits(f, bo, bi, field, absolute, link);
    var instr := Word(f, bo, bi, field, absolute, link);
    if f == LI {
      Quotients(instr, 18 * 0x100_0000 + field);
    } else {
      Quotients(instr, 0x4000 * (16 * 0x400 + 32 * bo + bi) + field);
      UpperParts(bo, bi, field);
    }
  }

  lemma UpperParts(bo: nat, bi: nat, field: nat)
    requires bo < 32 && bi < 32 && field < 0x4000
    ensures var upper := 0x4000 * (16 * 0x400 + 32 * bo + bi) + field;
            && upper % 0x4000 == field && upper / 0x4000 % 32 == bi && upper / 0x4000 / 32 % 32 == bo
            && upper / 0x100_0000 == 16
  {
    var upper := 0x4000 * (16 * 0x400 + 32 * bo + bi) + field;
    assert upper / 0x4000 == 32 * (16 * 32 + bo) + bi;
    assert upper / 0x4000 / 32 == 16 * 32 + bo;
  }

  lemma LowBits(f: Field, bo: nat, bi: nat, field: nat, absolute: bool, link: bool)
    requires bo < 32 && bi < 32 && field < 2 * Half(f)
    ensures var instr := Word(f, bo, bi, field, absolute, link);
            && instr % 2 == Bit(link) && instr / BIT1 % 2 == Bit(absolute)
            && instr / BIT2 == (if f == LI then 18 * 0x100_0000 else 0x4000 * (16 * 0x400 + 32 * bo + bi)) + field
  {}

  lemma Quotients(instr: nat, upper: nat)
    requires instr / BIT2 == upper
    ensures instr / BIT16 == upper / 0x4000 && instr / BIT21 == upper / 0x4000 / 32
    ensures instr / BIT26 == upper / 0x100_0000
  {}

  // -------------------------------------------------------------- assembler

  /** read_number. */
  function ReadNumber(txt: string): int {
    if At(txt) == '-' then Signed(-Magnitude(txt[1..])) else Signed(Magnitude(txt))
  }

  function Magnitude(txt: string): int {
    if At(txt) == '0' && (At(txt[1..]) == 'x' || At(txt[1..]) == 'X') then Strtoul(txt[2..], 16).0
    else Strtoul(txt, 10).0
  }

  /** parse_operand for an address, before it is shifted into place. */
  function AddressField(f: Field, relative: bool, memaddr: u32, number: int): (field: nat)
    ensures field < 2 * Half(f)
  {
    FieldFor(f, Signed(number - if relative then memaddr else 0))
  }

  function FieldFor(f: Field, data: int): (field: nat)
    ensures field < 2 * Half(f)
  {
    data / 4 % Half(f) + if data < 0 then Half(f) else 0
  }

  function Assemble(f: Field, bo: nat, bi: nat, absolute: bool, link: bool, memaddr: u32, txt: string): u32
    requires bo < 32 && bi < 32
  {
    Word(f, bo, bi, AddressField(f, !absolute, memaddr, ReadNumber(txt)), absolute, link)
  }

  // ----------------------------------------------------------- disassembler

  /** The address that print_operands prints. */
  function Printed(f: Field, relative: bool, virtual: u32, instr: u32): u32 {
    var operand := FieldOf(f, instr);
    var extended := if operand >= Half(f) then U32(operand - 2 * Half(f)) else operand;
    if relative then U32(U32(4 * extended) + virtual) else U32(4 * extended)
  }

  /** "0x%lx". */
  function PrintedText(f: Field, relative: bool, virtual: u32, instr: u32): string {
    "0x" + Numeral(Printed(f, relative, virtual, instr), 16)
  }

  // --------------------------------------------------------------- stepper

  datatype Regs = Regs(nip: u32, ctr: u32, ccr: u32, lr: u32)

  predicate CrBit(ccr: u32, bi: nat)
    requires bi < 32
  {
    ccr / Pow2(31 - bi) % 2 == 1
  }

  /** The switch over BO, and the counter check. */
  predicate Taken(bo: nat, ctr: u32, cr: bool) {
    var left := U32(ctr - 1);
    match bo / 2 % 16
    case 0 => left != 0 && !cr
    case 1 => left == 0 && !cr
    case 2 => !cr
    case 4 => left != 0 && cr
    case 5 => left == 0 && cr
    case 6 => cr
    case 8 => left != 0
    case 9 => left == 0
    case 10 => true
    case _ => false
  }

  /** find_next_address for the instruction at nip: no address is found for a word that
      is not listed among the opcodes. `listed` answers for the words called Other. */
  function NextAddress(instr: u32, regs: Regs, stepOver: bool, listed: bool): Option<u32> {
    if OpOf(instr).Other? && !listed then None else Some(StepAddress(instr, regs, stepOver))
  }

  function StepAddress(instr: u32, regs: Regs, stepOver: bool): u32 {
    var pc := regs.nip / 4 * 4;
    match OpOf(instr)
    case Conditional(aa, lk) =>
      Follow(pc, FieldAddress(BD, instr), aa, lk, Taken(Bo(instr), regs.ctr, CrBit(regs.ccr, Bi(instr))), stepOver)
    case Unconditional(aa, lk) => Follow(pc, FieldAddress(LI, instr), aa, lk, true, stepOver)
    case ToCtr(lk) =>
      Follow(pc, regs.ctr, true, lk, Taken(Bo(instr), regs.ctr, CrBit(regs.ccr, Bi(instr))), stepOver)
    case ToLr(lk) => Follow(pc, regs.lr, true, lk, Taken(Bo(instr), regs.ctr, CrBit(regs.ccr, Bi(instr))), stepOver)
    case _ => U32(pc + 4)
  }

  function FieldAddress(f: Field, instr: u32): u32 {
    var operand := FieldOf(f, instr);
    U32(4 * if operand >= Half(f) then U32(operand - 2 * Half(f)) else operand)
  }

  function Follow(pc: u32, addr: u32, aa: bool, lk: bool, taken: bool, stepOver: bool): u32 {
    if !taken || (stepOver && lk) then U32(pc + 4) else if aa then addr else U32(addr + pc)
  }

  // -------------------------------------------------- the three treatments

  /** The displacements that fit a field. */
  predicate Reaches(f: Field, d: int) {
    d % 4 == 0 && -4 * Half(f) <= d < 4 * Half(f)
  }

  /** What the field stands for: four times its value as a two's complement number. */
  function Displacement(f: Field, field: nat): int {
    4 * if field >= Half(f) then field - 2 * Half(f) else field
  }

  /** A displacement is kept exactly if it is a multiple of four in reach. */
  lemma DisplacementIsKept(f: Field, d: int)
    ensures Displacement(f, FieldFor(f, d)) == d <==> Reaches(f, d)
  {
    var h := Half(f);
    var q := d / 4;
    assert d == 4 * q + d % 4;
    if -h <= q < 0 {
      assert q % h == q + h;
    } else if 0 <= q < h {
      assert q % h == q;
    }
  }

  lemma FieldIsKept(f: Field, field: nat)
    requires field < 2 * Half(f)
    ensures FieldFor(f, Displacement(f, field)) == field
  {}

  lemma SignedOnce(a: int, b: int)
    requires -0x8000_0000 <= a < 0x8000_0000
    ensures Signed(U32(a + b) - b) == a
  {
    hide U32;
    Wraps(a + b, -b);
    SignedSame(U32(a + b) - b, a);
    SignedFits(a);
  }

  lemma SignedFits(a: int)
    requires -0x8000_0000 <= a < 0x8000_0000
    ensures Signed(a) == a
  {}

  /** Disassembler and stepper agree on where a field leads. */
  lemma SameTarget(f: Field, relative: bool, pc: u32, instr: u32)
    ensures var base := if relative then pc else 0;
            && Printed(f, relative, pc, instr) == U32(Displacement(f, FieldOf(f, instr)) + base)
            && U32(FieldAddress(f, instr) + base) == U32(Displacement(f, FieldOf(f, instr)) + base)
  {
    var d := Displacement(f, FieldOf(f, instr));
    Multiplied(if FieldOf(f, instr) >= Half(f) then FieldOf(f, instr) - 2 * Half(f) else FieldOf(f, instr));
    Wraps(d, if relative then pc else 0);
  }

  lemma Multiplied(x: int)
    ensures U32(4 * U32(x)) == U32(4 * x)
  {
    assert 4 * x == 4 * U32(x) + TWO32 * (4 * (x / TWO32));
    Turns(4 * U32(x), 4 * (x / TWO32));
  }

  /** Assembled at an address and disassembled there, a branch shows its target exactly
      if the field reaches it: by a signed displacement from the address for a relative
      branch, from 0 for an absolute one. */
  lemma TargetIsShown(f: Field, bo: nat, bi: nat, absolute: bool, link: bool, pc: u32, txt: string)
    requires bo < 32 && bi < 32
    ensures Printed(f, !absolute, pc, Assemble(f, bo, bi, absolute, link, pc, txt)) == U32(ReadNumber(txt))
       <==> Reaches(f, Signed(ReadNumber(txt) - if absolute then 0 else pc))
  {
    hide Word, Reaches, ReadNumber, FieldFor, Printed, Signed, Displacement, Half, FieldAddress, OpOf, FieldOf, U32;
    DisplacementIsSmall(f, FieldFor(f, Signed(ReadNumber(txt) - if absolute then 0 else pc)));
    var number, base := ReadNumber(txt), if absolute then 0 else pc;
    var d := Signed(number - base);
    var field := FieldFor(f, d);
    var instr := Assemble(f, bo, bi, absolute, link, pc, txt);
    WordParts(f, bo, bi, field, absolute, link);
    SameTarget(f, !absolute, pc, instr);
    DisplacementIsKept(f, d);
    SameSum(Displacement(f, field), d, base, number);
  }

  lemma DisplacementIsSmall(f: Field, field: nat)
    requires field < 2 * Half(f)
    ensures -0x8000_0000 <= Displacement(f, field) < 0x8000_0000
  {}

  lemma SameSum(a: int, d: int, base: int, number: int)
    requires -0x8000_0000 <= a < 0x8000_0000 && d == Signed(number - base)
    ensures U32(a + base) == U32(number) <==> a == d
  {
    hide U32, Signed;
    Wraps(number - base, base);
    Wraps(d, base);
    if U32(a + base) == U32(number) {
      SignedOnce(a, base);
      Wraps(number, -base);
      SignedSame(U32(a + base) - base, number - base);
    }
  }

  lemma SignedSame(a: int, b: int)
    requires U32(a) == U32(b)
    ensures Signed(a) == Signed(b)
  {}

  // ------------------------------------------------- back to the same word

  lemma NumberReadsBack(v: u32)
    ensures ReadNumber("0x" + Numeral(v, 16)) == Signed(v)
  {
    var s := Numeral(v, 16);
    assert ("0x" + s)[1..][0] == 'x' && ("0x" + s)[2..] == s;
    DigitsOfNumeral(v, 16, "");
    assert s + "" == s;
    if s[0] == '0' {
      assert s == "0";
    }
  }

  /** What the disassembler prints for a field assembles to the same field. */
  lemma FieldReassembles(f: Field, relative: bool, pc: u32, instr: u32)
    ensures AddressField(f, relative, pc, ReadNumber(PrintedText(f, relative, pc, instr))) == FieldOf(f, instr)
  {
    hide ReadNumber, Printed, FieldFor, Displacement, FieldAddress, Signed, U32;
    var base, printed := if relative then pc else 0, Printed(f, relative, pc, instr);
    var d := Displacement(f, FieldOf(f, instr));
    NumberReadsBack(printed);
    SameTarget(f, relative, pc, instr);
    DisplacementIsSmall(f, FieldOf(f, instr));
    FieldIsKept(f, FieldOf(f, instr));
    SignedOnce(d, base);
    Wraps(printed, -base);
    Wraps(Signed(printed), -base);
    SignedSame(Signed(printed) - base, printed - base);
  }

  /** Every branch is restored from its parts and what is shown of its address field. */
  lemma FieldsReassemble(pc: u32, instr: u32)
    ensures match OpOf(instr)
            case Unconditional(aa, lk) => Assemble(LI, 0, 0, aa, lk, pc, PrintedText(LI, !aa, pc, instr)) == instr
            case Conditional(aa, lk) =>
              Assemble(BD, Bo(instr), Bi(instr), aa, lk, pc, PrintedText(BD, !aa, pc, instr)) == instr
            case _ => true
  {
    hide PrintedText, AddressField, ReadNumber;
    var op := OpOf(instr);
    match op
    case Unconditional(aa, lk) =>
      FieldReassembles(LI, !aa, pc, instr);
      WordIsParts(instr);
    case Conditional(aa, lk) =>
      FieldReassembles(BD, !aa, pc, instr);
      WordIsParts(instr);
    case _ =>
  }

  lemma WordIsParts(instr: u32)
    ensures match OpOf(instr)
            case Unconditional(aa, lk) => Word(LI, 0, 0, FieldOf(LI, instr), aa, lk) == instr
            case Conditional(aa, lk) => Word(BD, Bo(instr), Bi(instr), FieldOf(BD, instr), aa, lk) == instr
            case _ => true
  {
    assert instr / BIT1 == instr / BIT2 * 2 + instr / BIT1 % 2;
    assert instr / BIT2 / 0x100_0000 == instr / BIT26 && instr / BIT2 / 0x4000 == instr / BIT16;
    assert instr / BIT16 / 32 == instr / BIT21 && instr / BIT21 / 32 == instr / BIT26;
  }

  // ----------------------------------------------------- taken or not taken

  /** Bit i of BO, counted from the left as in the Power ISA, Book I, section 2.4. */
  predicate BoBit(bo: nat, i: nat)
    requires i <= 4
  {
    bo / Pow2(4 - i) % 2 == 1
  }

  /** The bits of BO that the Power ISA marks z, and wants zero. */
  predicate ZBitsAreZero(bo: nat) {
    && (BoBit(bo, 0) ==> !BoBit(bo, 1))
    && (BoBit(bo, 2) ==> !BoBit(bo, 3))
  }

  /** The decision as the Power ISA defines it: the counter, once decremented, and the
      condition bit must both agree, unless BO says that they are ignored. */
  predicate IsaTaken(bo: nat, ctr: u32, cr: bool) {
    && (BoBit(bo, 2) || ((U32(ctr - 1) != 0) != BoBit(bo, 3)))
    && (BoBit(bo, 0) || cr == BoBit(bo, 1))
  }

  /** The stepper decides as the Power ISA does, whatever the counter and the condition,
      exactly for the encodings whose z bits are zero. */
  lemma DecisionMatchesIsa(bo: nat)
    requires bo < 32
    ensures (forall ctr: u32, cr: bool :: Taken(bo, ctr, cr) == IsaTaken(bo, ctr, cr)) <==> ZBitsAreZero(bo)
  {
    hide Taken, IsaTaken, ZBitsAreZero;
    if ZBitsAreZero(bo) {
      forall ctr: u32, cr: bool ensures Taken(bo, ctr, cr) == IsaTaken(bo, ctr, cr) {
        DecidesAlike(bo, ctr, cr);
      }
    } else {
      var ctr, cr := DecidesOtherwise(bo);
    }
  }

  lemma DecidesAlike(bo: nat, ctr: u32, cr: bool)
    requires bo < 32 && ZBitsAreZero(bo)
    ensures Taken(bo, ctr, cr) == IsaTaken(bo, ctr, cr)
  {
    hide BoBit;
    BoBits(bo);
    assert bo / 2 in {0, 1, 2, 4, 5, 6, 8, 9, 10};
  }

  lemma DecidesOtherwise(bo: nat) returns (ctr: u32, cr: bool)
    requires bo < 32 && !ZBitsAreZero(bo)
    ensures Taken(bo, ctr, cr) != IsaTaken(bo, ctr, cr)
  {
    hide BoBit;
    BoBits(bo);
    ctr, cr := if bo / 2 == 13 then 1 else 2, bo / 2 == 7;
    assert bo / 2 in {3, 7, 11, 12, 13, 14, 15};
  }

  lemma BoBits(bo: nat)
    requires bo < 32
    ensures BoBit(bo, 0) == (bo / 2 >= 8) && BoBit(bo, 1) == (bo / 2 % 8 >= 4)
    ensures BoBit(bo, 2) == (bo / 2 % 4 >= 2) && BoBit(bo, 3) == (bo / 2 % 2 == 1)
  {
    assert Pow2(1) == 2 && Pow2(2) == 4 && Pow2(3) == 8 && Pow2(4) == 16;
  }

  /** Where a system call goes, and where rfi returns to. */
  datatype System = System(vector: u32, srr0: u32)

  /** The next instruction as the Power ISA defines it; register targets lose their two
      lowest bits. Other instructions are taken to raise no interrupt. */
  function IsaNext(instr: u32, regs: Regs, system: System): u32 {
    match OpOf(instr)
    case Unconditional(aa, _) => U32(Displacement(LI, FieldOf(LI, instr)) + if aa then 0 else regs.nip)
    case Conditional(aa, _) =>
      if !IsaTaken(Bo(instr), regs.ctr, CrBit(regs.ccr, Bi(instr))) then U32(regs.nip + 4)
      else U32(Displacement(BD, FieldOf(BD, instr)) + if aa then 0 else regs.nip)
    case ToCtr(_) =>
      if IsaTaken(Bo(instr), regs.ctr, CrBit(regs.ccr, Bi(instr))) then regs.ctr / 4 * 4 else U32(regs.nip + 4)
    case ToLr(_) =>
      if IsaTaken(Bo(instr), regs.ctr, CrBit(regs.ccr, Bi(instr))) then regs.lr / 4 * 4 else U32(regs.nip + 4)
    case SystemCall => system.vector
    case ReturnFromInterrupt => system.srr0 / 4 * 4
    case Other => U32(regs.nip + 4)
  }

  /** A taken branch to a register finds a word address there. */
  predicate RegisterIsAligned(instr: u32, regs: Regs) {
    var taken := IsaTaken(Bo(instr), regs.ctr, CrBit(regs.ccr, Bi(instr)));
    && (OpOf(instr).ToCtr? && taken ==> regs.ctr % 4 == 0)
    && (OpOf(instr).ToLr? && taken ==> regs.lr % 4 == 0)
  }

  /** A system call or a return from interrupt happens to go to the next word. */
  predicate SystemGoesOn(instr: u32, regs: Regs, system: System) {
    && (OpOf(instr).SystemCall? ==> system.vector == U32(regs.nip + 4))
    && (OpOf(instr).ReturnFromInterrupt? ==> system.srr0 / 4 * 4 == U32(regs.nip + 4))
  }

  /** With zero z bits, stepping goes where the processor goes exactly if a register that
      is branched to holds a word address, the instruction is no system call and no return
      from interrupt that goes elsewhere than to the next word, and the word is listed
      among the opcodes. */
  lemma StepMatchesIsa(instr: u32, regs: Regs, system: System, listed: bool)
    requires regs.nip % 4 == 0
    requires OpOf(instr).Conditional? || OpOf(instr).ToCtr? || OpOf(instr).ToLr? ==> ZBitsAreZero(Bo(instr))
    ensures NextAddress(instr, regs, false, listed) == Some(IsaNext(instr, regs, system))
       <==> && RegisterIsAligned(instr, regs) && SystemGoesOn(instr, regs, system)
            && (OpOf(instr).Other? ==> listed)
    ensures IsBranch(OpOf(instr)) ==>
              NextAddress(instr, regs, true, listed)
                == if OpOf(instr).link then Some(U32(regs.nip + 4)) else NextAddress(instr, regs, false, listed)
    ensures !IsBranch(OpOf(instr)) ==> NextAddress(instr, regs, true, listed) == NextAddress(instr, regs, false, listed)
  {
    hide *;
    Listing(instr, regs, listed);
    NoSystem(instr, regs, system);
    match OpOf(instr)
    case Unconditional(_, _) => FieldStep(instr, regs, system);
    case Conditional(_, _) => FieldStep(instr, regs, system);
    case ToCtr(_) => RegisterStep(instr, regs, system);
    case ToLr(_) => RegisterStep(instr, regs, system);
    case _ => OtherStep(instr, regs, system);
  }

  predicate IsBranch(op: Op) {
    op.Unconditional? || op.Conditional? || op.ToCtr? || op.ToLr?
  }

  lemma Listing(instr: u32, regs: Regs, listed: bool)
    ensures forall over :: NextAddress(instr, regs, over, listed)
              == if OpOf(instr).Other? && !listed then None else Some(StepAddress(instr, regs, over))
    ensures IsBranch(OpOf(instr))
       <==> !OpOf(instr).SystemCall? && !OpOf(instr).ReturnFromInterrupt? && !OpOf(instr).Other?
    ensures IsBranch(OpOf(instr))
       <==> OpOf(instr).Unconditional? || OpOf(instr).Conditional? || OpOf(instr).ToCtr? || OpOf(instr).ToLr?
  {
    hide OpOf, StepAddress;
  }

  lemma NoSystem(instr: u32, regs: Regs, system: System)
    ensures IsBranch(OpOf(instr)) ==> SystemGoesOn(instr, regs, system)
  {
    hide OpOf;
  }

  lemma OtherStep(instr: u32, regs: Regs, system: System)
    requires regs.nip % 4 == 0 && !IsBranch(OpOf(instr))
    ensures StepAddress(instr, regs, false) == IsaNext(instr, regs, system) <==> SystemGoesOn(instr, regs, system)
    ensures RegisterIsAligned(instr, regs) && StepAddress(instr, regs, true) == StepAddress(instr, regs, false)
  {
    hide OpOf, IsaTaken, CrBit;
  }

  /** sc and rfi are such instructions: stepping goes to the next word. */
  lemma SystemIsPassed(regs: Regs, system: System, listed: bool)
    requires regs.nip % 4 == 0 && system.vector != U32(regs.nip + 4) && system.srr0 / 4 * 4 != U32(regs.nip + 4)
    ensures NextAddress(0x4400_0002, regs, false, listed) == Some(U32(regs.nip + 4))
         != Some(IsaNext(0x4400_0002, regs, system))
    ensures NextAddress(0x4C00_0064, regs, false, listed) == Some(U32(regs.nip + 4))
         != Some(IsaNext(0x4C00_0064, regs, system))
  {
    assert OpOf(0x4400_0002) == SystemCall && OpOf(0x4C00_0064) == ReturnFromInterrupt;
  }

  lemma RegisterStep(instr: u32, regs: Regs, system: System)
    requires regs.nip % 4 == 0 && (OpOf(instr).ToCtr? || OpOf(instr).ToLr?) && ZBitsAreZero(Bo(instr))
    ensures StepAddress(instr, regs, false) == IsaNext(instr, regs, system) <==> RegisterIsAligned(instr, regs)
    ensures StepAddress(instr, regs, true)
         == if OpOf(instr).link then U32(regs.nip + 4) else StepAddress(instr, regs, false)
  {
    hide Taken, IsaTaken, ZBitsAreZero, OpOf, CrBit, Bo, Bi;
    DecisionMatchesIsa(Bo(instr));
  }

  lemma FieldStep(instr: u32, regs: Regs, system: System)
    requires regs.nip % 4 == 0 && (OpOf(instr).Unconditional? || OpOf(instr).Conditional?)
    requires OpOf(instr).Conditional? ==> ZBitsAreZero(Bo(instr))
    ensures StepAddress(instr, regs, false) == IsaNext(instr, regs, system) && RegisterIsAligned(instr, regs)
    ensures StepAddress(instr, regs, true)
         == if OpOf(instr).link then U32(regs.nip + 4) else StepAddress(instr, regs, false)
  {
    hide Taken, IsaTaken, ZBitsAreZero, FieldAddress, Displacement, OpOf, CrBit, Printed, FieldOf, Bo, Bi, Signed;
    DecisionMatchesIsa(Bo(instr));
    var f := if OpOf(instr).Conditional? then BD else LI;
    SameTarget(f, !OpOf(instr).absolute, regs.nip, instr);
    AddressIsWord(f, instr);
  }

  lemma AddressIsWord(f: Field, instr: u32)
    ensures U32(FieldAddress(f, instr) + 0) == FieldAddress(f, instr)
  {}

  /** A branch assembled for a target in reach is shown with that target, and stepping
      into it goes there, if it is taken. */
  lemma TreatmentsAgree(f: Field, bo: nat, bi: nat, absolute: bool, link: bool, txt: string, regs: Regs,
                        listed: bool)
    requires bo < 32 && bi < 32 && regs.nip % 4 == 0
    requires Reaches(f, Signed(ReadNumber(txt) - if absolute then 0 else regs.nip))
    ensures var instr := Assemble(f, bo, bi, absolute, link, regs.nip, txt);
            var target := U32(ReadNumber(txt));
            && Printed(f, !absolute, regs.nip, instr) == target
            && NextAddress(instr, regs, false, listed)
                 == Some(if f == BD && !Taken(bo, regs.ctr, CrBit(regs.ccr, bi)) then U32(regs.nip + 4) else target)
  {
    hide *;
    var instr := Assemble(f, bo, bi, absolute, link, regs.nip, txt);
    TargetIsShown(f, bo, bi, absolute, link, regs.nip, txt);
    AssembledParts(f, bo, bi, absolute, link, regs.nip, txt);
    SameTarget(f, !absolute, regs.nip, instr);
    BranchGoes(f, instr, absolute, link, regs, listed);
  }

  lemma AssembledParts(f: Field, bo: nat, bi: nat, absolute: bool, link: bool, memaddr: u32, txt: string)
    requires bo < 32 && bi < 32
    ensures var instr := Assemble(f, bo, bi, absolute, link, memaddr, txt);
            && OpOf(instr) == (if f == LI then Unconditional(absolute, link) else Conditional(absolute, link))
            && (f == BD ==> Bo(instr) == bo && Bi(instr) == bi)
  {
    hide Word, OpOf, Bo, Bi, FieldOf;
    WordParts(f, bo, bi, AddressField(f, !absolute, memaddr, ReadNumber(txt)), absolute, link);
  }

  lemma BranchGoes(f: Field, instr: u32, absolute: bool, link: bool, regs: Regs, listed: bool)
    requires regs.nip % 4 == 0
    requires OpOf(instr) == if f == LI then Unconditional(absolute, link) else Conditional(absolute, link)
    ensures NextAddress(instr, regs, false, listed)
         == Some(if f == BD && !Taken(Bo(instr), regs.ctr, CrBit(regs.ccr, Bi(instr))) then U32(regs.nip + 4)
                 else U32(FieldAddress(f, instr) + if absolute then 0 else regs.nip))
  {
    hide OpOf, Taken, CrBit, FieldAddress, Bo, Bi;
  }
}
