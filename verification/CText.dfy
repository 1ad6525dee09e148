/** 32-bit numbers, C strings, and the number routines of lib_generic/vsprintf.c.

    A `char *` into a NUL-terminated string is modelled by the text that is left
    to read, so advancing a pointer is dropping a prefix. `unsigned long` has
    32 bits on the targets of this tree. */
module CText {
  import opened Arithmetic

  const TWO32: nat := 0x1_0000_0000

  type u32 = n: nat | n < TWO32

  function U32(n: int): (r: u32) {
    n % TWO32
  }

  lemma Wraps(a: int, b: int)
    ensures U32(U32(a) + b) == U32(a + b)
  {
    AddInside(a, b, TWO32);
  }

  lemma Turns(x: int, k: int)
    ensures U32(x + TWO32 * k) == U32(x)
  {
    DropMultiple(TWO32, k, x);
  }

  /** A character as C stores it. */
  type char8 = c: char | c as int < 256 witness '\0'

  datatype Option<+T> = None | Some(value: T)

  function Min(a: nat, b: nat): nat {
    if a < b then a else b
  }

  /** What `*p` reads: the terminating NUL once the text is used up. */
  function At(p: string): char {
    if p == "" then '\0' else p[0]
  }

  predicate Starts(s: string, prefix: string) {
    |prefix| <= |s| && s[..|prefix|] == prefix
  }

  lemma Assoc(a: string, b: string, c: string)
    ensures a + b + c == a + (b + c)
    ensures a + "" == a == "" + a
  {}

  predicate IsDigit(c: char) {
    '0' <= c <= '9'
  }

  predicate IsXDigit(c: char) {
    IsDigit(c) || 'a' <= c <= 'f' || 'A' <= c <= 'F'
  }

  function DigitValue(c: char): (v: nat)
    requires IsXDigit(c)
    ensures v < 16
  {
    if IsDigit(c) then c as int - '0' as int
    else if 'a' <= c <= 'f' then c as int - 'a' as int + 10
    else c as int - 'A' as int + 10
  }

  /** The position of the first `c`, as strchr finds it, or |s| for a null result. */
  function IndexOf(s: string, c: char): (k: nat)
    ensures k <= |s|
    ensures c !in s[..k]
    ensures k < |s| ==> s[k] == c
  {
    if s == "" || s[0] == c then 0 else
      assert s[1..][..IndexOf(s[1..], c)] == s[1..1 + IndexOf(s[1..], c)];
      1 + IndexOf(s[1..], c)
  }

  lemma IndexOfFirst(s: string, c: char, rest: string)
    requires c !in s
    ensures IndexOf(s + [c] + rest, c) == |s|
  {
    if s != "" {
      assert (s + [c] + rest)[1..] == s[1..] + [c] + rest;
      IndexOfFirst(s[1..], c, rest);
    }
  }

  // ---------------------------------------------------------------- parsing

  predicate TakesDigit(p: string, base: nat) {
    p != "" && IsXDigit(p[0]) && DigitValue(p[0]) < base
  }

  /** The digit loop of simple_strtoul: value so far and text left. */
  function Digits(p: string, base: nat, acc: u32): (r: (u32, string))
    ensures |r.1| <= |p|
    ensures r.0 != acc ==> |r.1| < |p|
  {
    if TakesDigit(p, base) then Digits(p[1..], base, U32(acc * base + DigitValue(p[0]))) else (acc, p)
  }

  /** The prefix rules of simple_strtoul: a leading zero is dropped and may fix the base. */
  function Prefix(p: string, base: nat): (r: (string, nat))
    ensures |r.0| <= |p| && r.1 != 0
  {
    if At(p) == '0' then
      if At(p[1..]) == 'x' && IsXDigit(At(p[2..])) then (p[2..], 16)
      else (p[1..], if base == 0 then 8 else base)
    else (p, if base == 0 then 10 else base)
  }

  function Strtoul(p: string, base: nat): (r: (u32, string))
    ensures |r.1| <= |p|
    ensures r.0 != 0 ==> |r.1| < |p|
  {
    var (q, b) := Prefix(p, base);
    Digits(q, b, 0)
  }

  method SimpleStrtoul(p: string, base: nat) returns (result: u32, endp: string)
    ensures (result, endp) == Strtoul(p, base)
  {
    var b := base;
    endp := p;
    result := 0;
    if At(endp) == '0' {
      endp := endp[1..];
      if At(endp) == 'x' && IsXDigit(At(endp[1..])) {
        b := 16;
        endp := endp[1..];
      }
      if b == 0 {
        b := 8;
      }
    }
    if b == 0 {
      b := 10;
    }
    assert (endp, b) == Prefix(p, base);
    while TakesDigit(endp, b)
      invariant Digits(endp, b, result) == Strtoul(p, base)
      decreases |endp|
    {
      result := U32(result * b + DigitValue(endp[0]));
      endp := endp[1..];
    }
  }

  // ------------------------------------------------------------- formatting

  /** "%08lx". */
  function Hex8(n: u32): string {
    var s := Numeral(n, 16);
    if |s| < 8 then seq(8 - |s|, _ => '0') + s else s
  }

  function Digit(v: nat): (c: char)
    requires v < 16
    ensures IsXDigit(c) && DigitValue(c) == v
    ensures v < 10 ==> IsDigit(c)
  {
    "0123456789abcdef"[v]
  }

  /** Numbers are printed in decimal or hexadecimal. */
  type Base = b: nat | b == 10 || b == 16 witness 10

  /** "%u" and "%x": no leading zeros, at least one digit. */
  function Numeral(n: nat, base: Base): (s: string)
    ensures s != ""
    ensures forall c <- s :: IsXDigit(c) && DigitValue(c) < base
    ensures s[0] == '0' ==> n == 0
  {
    if n < base then [Digit(n)]
    else if base == 10 then Numeral(n / 10, base) + [Digit(n % 10)]
    else Numeral(n / 16, base) + [Digit(n % 16)]
  }

  /** Reading the digits of a numeral is the same as having read its value. */
  lemma {:induction false} DigitsOfNumeral(n: u32, base: Base, rest: string)
    ensures Digits(Numeral(n, base) + rest, base, 0) == Digits(rest, base, n)
  {
    hide Digits, Digit, Numeral;
    LastDigit(n, base);
    if n < base {
      DigitStep(n, base, 0, n, rest);
    } else {
      var q, v := n / base, n % base;
      Assoc(Numeral(q, base), [Digit(v)], rest);
      DigitsOfNumeral(q, base, [Digit(v)] + rest);
      DigitStep(v, base, q, n, rest);
    }
  }

  lemma LastDigit(n: u32, base: Base)
    ensures if n < base then Numeral(n, base) == [Digit(n)]
            else n / base < n && n / base * base + n % base == n
                 && Numeral(n, base) == Numeral(n / base, base) + [Digit(n % base)]
  {
    hide Digit;
    if base == 10 {
      assert n == 10 * (n / 10) + n % 10;
    } else {
      assert n == 16 * (n / 16) + n % 16;
    }
  }

  lemma DigitStep(v: nat, base: Base, acc: u32, next: u32, rest: string)
    requires v < base && acc * base + v == next
    ensures Digits([Digit(v)] + rest, base, acc) == Digits(rest, base, next)
  {
    assert ([Digit(v)] + rest)[1..] == rest;
  }

  /** A numeral followed by text that cannot extend it is read back exactly. */
  lemma DecimalReadsBack(n: u32, rest: string)
    requires !IsDigit(At(rest)) && At(rest) != 'x'
    ensures Strtoul(Numeral(n, 10) + rest, 0) == (n, rest)
  {
    var p := Numeral(n, 10) + rest;
    DigitsOfNumeral(n, 10, rest);
    assert p[0] == Numeral(n, 10)[0];
    if n == 0 {
      assert p == "0" + rest;
      assert p[1..] == rest;
    }
  }
}
