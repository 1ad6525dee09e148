/** The increment, invert and verify passes of the memory test (common/cmd_mem.c,
    CONFIG_SYS_ALT_MEMTEST) on memory whose address lines may alias and whose bits
    may be stuck: no error is reported exactly when there is no such fault. */
module MemTest {
  import opened Octets

  const WIDTH: nat := 32

  /** What the data lines carry: the bits of a vu_long, lowest first. */
  type Word = w: seq<bool> | |w| == WIDTH witness seq(WIDTH, _ => false)

  datatype Fault = Free | StuckAt(value: bool)

  /** The faults of one storage cell, bit by bit. */
  type Faults = f: seq<Fault> | |f| == WIDTH witness seq(WIDTH, _ => Free)

  /** A region of words: decode[k] is the cell that offset k really selects. */
  datatype Wiring = Wiring(decode: seq<nat>, faults: seq<Faults>)

  ghost predicate Wired(m: Wiring) {
    forall k :: 0 <= k < |m.decode| ==> m.decode[k] < |m.faults|
  }

  /** What reading a cell gives when `w` was stored. */
  function Sense(f: seq<Fault>, w: seq<bool>): (r: seq<bool>)
    requires |f| == |w|
    ensures |r| == |w|
    ensures forall b :: 0 <= b < |w| ==> r[b] == if f[b].Free? then w[b] else f[b].value
  {
    if w == [] then [] else [if f[0].Free? then w[0] else f[0].value] + Sense(f[1..], w[1..])
  }

  function Invert(w: seq<bool>): (r: seq<bool>)
    ensures |r| == |w|
    ensures forall b :: 0 <= b < |w| ==> r[b] == !w[b]
  {
    if w == [] then [] else [!w[0]] + Invert(w[1..])
  }

  function Bits(n: nat, width: nat): (s: seq<bool>)
    ensures |s| == width
  {
    if width == 0 then [] else [n % 2 == 1] + Bits(n / 2, width - 1)
  }

  /** Different numbers that fit have different bits. */
  lemma {:induction false} BitsDiffer(a: nat, b: nat, width: nat)
    requires a < Pow2(width) && b < Pow2(width) && Bits(a, width) == Bits(b, width)
    ensures a == b
  {
    if width > 0 {
      assert Bits(a, width)[0] == Bits(b, width)[0];
      assert Bits(a, width)[1..] == Bits(a / 2, width - 1);
      assert Bits(b, width)[1..] == Bits(b / 2, width - 1);
      BitsDiffer(a / 2, b / 2, width - 1);
    }
  }

  /** The pattern at offset k: the passes count from 1. */
  function Pat(k: nat): Word {
    Bits(k + 1, WIDTH)
  }

  const ZERO: Word := Bits(0, WIDTH)

  /** The last offset below n that selects cell c. */
  function Last(decode: seq<nat>, n: nat, c: nat): (r: int)
    requires n <= |decode|
    ensures -1 <= r < n
    ensures r >= 0 ==> decode[r] == c
    ensures forall k :: r < k < n ==> decode[k] != c
  {
    if n == 0 then -1 else if decode[n - 1] == c then n - 1 else Last(decode, n - 1, c)
  }

  // ----------------------------------------------- what the passes must see

  /** The word stored in a selected cell after the fill pass. */
  function Filled(m: Wiring, c: nat): Word {
    PatOr(Last(m.decode, |m.decode|, c), ZERO)
  }

  function PatOr(j: int, other: Word): Word {
    if j >= 0 then Pat(j) else other
  }

  /** What the second pass reads at offset k: an alias visited before has
      already left its inverted pattern. */
  function SecondRead(m: Wiring, k: nat): Word
    requires Wired(m) && k < |m.decode|
  {
    Sense(m.faults[m.decode[k]], AfterInvert(m, k, m.decode[k]))
  }

  /** What a selected cell holds when the second pass has done k offsets. */
  function AfterInvert(m: Wiring, k: nat, c: nat): Word {
    if k > |m.decode| then ZERO
    else if Last(m.decode, k, c) >= 0 then Invert(Pat(Last(m.decode, k, c))) else Filled(m, c)
  }

  /** The same for the third pass. */
  function AfterVerify(m: Wiring, k: nat, c: nat): Word {
    if k <= |m.decode| && Last(m.decode, k, c) >= 0 then ZERO else Invert(Filled(m, c))
  }

  /** What the third pass reads at offset k: an alias visited before left zero. */
  function ThirdRead(m: Wiring, k: nat): Word
    requires Wired(m) && k < |m.decode|
  {
    Sense(m.faults[m.decode[k]], AfterVerify(m, k, m.decode[k]))
  }

  /** How many of the first n offsets fail a pass. */
  function SecondErrors(m: Wiring, n: nat): nat
    requires Wired(m) && n <= |m.decode|
  {
    if n == 0 then 0 else SecondErrors(m, n - 1) + if SecondRead(m, n - 1) != Pat(n - 1) then 1 else 0
  }

  function ThirdErrors(m: Wiring, n: nat): nat
    requires Wired(m) && n <= |m.decode|
  {
    if n == 0 then 0 else ThirdErrors(m, n - 1) + if ThirdRead(m, n - 1) != Invert(Pat(n - 1)) then 1 else 0
  }

  // ------------------------------------------------------------- the memory

  class Memory {
    ghost const m: Wiring
    const decode: seq<nat>
    const faults: seq<Faults>
    const cells: array<Word>

    constructor (m: Wiring, cells: array<Word>)
      requires Wired(m) && cells.Length == |m.faults|
      ensures this.m == m && this.cells == cells && Valid()
    {
      this.m := m;
      decode, faults, this.cells := m.decode, m.faults, cells;
    }

    ghost predicate Valid()
      reads this
    {
      m == Wiring(decode, faults) && Wired(m) && cells.Length == |faults|
    }

    /** start[k] = w */
    method Store(k: nat, w: Word)
      requires Valid() && k < |decode|
      modifies cells
      ensures cells[..] == old(cells[..])[decode[k] := w]
    {
      cells[decode[k]] := w;
    }

    /** start[k] */
    method Load(k: nat) returns (w: Word)
      requires Valid() && k < |decode|
      ensures w == Sense(faults[decode[k]], cells[decode[k]])
    {
      w := Sense(faults[decode[k]], cells[decode[k]]);
    }

    /** Every selected cell holds what the first k offsets of a pass left in it. */
    ghost predicate Holding(held: nat -> Word)
      reads this, cells
      requires Valid()
    {
      forall c :: 0 <= c < cells.Length && Last(decode, |decode|, c) >= 0 ==> cells[c] == held(c)
    }

    method FillPass()
      requires Valid()
      modifies cells
      ensures Holding(c => Filled(m, c))
    {
      hide Bits;
      var pattern := 1;
      for offset := 0 to |decode|
        invariant pattern == offset + 1
        invariant forall c :: 0 <= c < cells.Length && Last(decode, offset, c) >= 0 ==>
                    cells[c] == Pat(Last(decode, offset, c))
      {
        Store(offset, Bits(pattern, WIDTH));
        pattern := pattern + 1;
      }
    }

    /** One location of the second pass: check, then invert. */
    method CheckAndInvert(offset: nat, pattern: nat) returns (bad: nat)
      requires Valid() && offset < |decode| && pattern == offset + 1
      requires Holding(c => AfterInvert(m, offset, c))
      modifies cells
      ensures Holding(c => AfterInvert(m, offset + 1, c))
      ensures bad == if SecondRead(m, offset) != Pat(offset) then 1 else 0
    {
      hide Bits, Sense, Invert, Filled;
      SelectedSomewhere(decode, offset);
      var temp := Load(offset);
      bad := if temp != Bits(pattern, WIDTH) then 1 else 0;
      Store(offset, Invert(Bits(pattern, WIDTH)));
    }

    method InvertPass(errs0: nat) returns (errs: nat)
      requires Valid() && Holding(c => Filled(m, c))
      modifies cells
      ensures errs == errs0 + SecondErrors(m, |decode|)
      ensures Holding(c => Invert(Filled(m, c)))
    {
      hide Bits, Sense, Invert, SecondRead;
      var pattern := 1;
      errs := errs0;
      for offset := 0 to |decode|
        invariant pattern == offset + 1
        invariant errs == errs0 + SecondErrors(m, offset)
        invariant Holding(c => AfterInvert(m, offset, c))
      {
        var bad := CheckAndInvert(offset, pattern);
        errs := errs + bad;
        pattern := pattern + 1;
      }
    }

    /** One location of the third pass: check, then zero. */
    method CheckAndZero(offset: nat, pattern: nat) returns (bad: nat)
      requires Valid() && offset < |decode| && pattern == offset + 1
      requires Holding(c => AfterVerify(m, offset, c))
      modifies cells
      ensures Holding(c => AfterVerify(m, offset + 1, c))
      ensures bad == if ThirdRead(m, offset) != Invert(Pat(offset)) then 1 else 0
    {
      hide Bits, Sense, Invert, Filled;
      SelectedSomewhere(decode, offset);
      var temp := Load(offset);
      bad := if temp != Invert(Bits(pattern, WIDTH)) then 1 else 0;
      Store(offset, ZERO);
    }

    method VerifyPass(errs0: nat) returns (errs: nat)
      requires Valid() && Holding(c => Invert(Filled(m, c)))
      modifies cells
      ensures errs == errs0 + ThirdErrors(m, |decode|)
      ensures Holding(c => ZERO)
    {
      hide Bits, Sense, Invert, Filled, ThirdRead;
      var pattern := 1;
      errs := errs0;
      for offset := 0 to |decode|
        invariant pattern == offset + 1
        invariant errs == errs0 + ThirdErrors(m, offset)
        invariant Holding(c => AfterVerify(m, offset, c))
      {
        var bad := CheckAndZero(offset, pattern);
        errs := errs + bad;
        pattern := pattern + 1;
      }
    }

    /** The three passes of do_mem_mtest: errs grows by nothing exactly when every
        offset has a cell of its own with no stuck bit. */
    method IncrementTest(errs0: nat) returns (errs: nat)
      requires Valid() && |decode| < Pow2(WIDTH)
      modifies cells
      ensures errs == errs0 <==> Faultless(m)
      ensures forall k :: 0 <= k < |decode| ==> cells[decode[k]] == ZERO
    {
      FillPass();
      errs := InvertPass(errs0);
      errs := VerifyPass(errs);
      NoErrorMeansFaultless(m);
    }
  }

  lemma SelectedSomewhere(decode: seq<nat>, k: nat)
    requires k < |decode|
    ensures Last(decode, |decode|, decode[k]) >= 0
  {}

  // --------------------------------------------------------- what it proves

  /** No two offsets share a cell, and no bit of a selected cell is stuck. */
  ghost predicate Faultless(m: Wiring)
    requires Wired(m)
  {
    && (forall i, j :: 0 <= i < j < |m.decode| ==> m.decode[i] != m.decode[j])
    && (forall k, b :: 0 <= k < |m.decode| && 0 <= b < WIDTH ==> m.faults[m.decode[k]][b].Free?)
  }

  /** A cell that gives back a word and its complement has no stuck bit. */
  lemma BothWaysMeansFree(f: Faults, x: Word, y: Word)
    requires Sense(f, x) == y && Sense(f, Invert(x)) == Invert(y)
    ensures x == y && forall b :: 0 <= b < WIDTH ==> f[b].Free?
  {
    forall b | 0 <= b < WIDTH ensures f[b].Free? && x[b] == y[b] {
      assert Sense(f, x)[b] == y[b] && Sense(f, Invert(x))[b] == !y[b];
    }
  }

  lemma FreeSenses(f: Faults, x: Word)
    requires forall b :: 0 <= b < WIDTH ==> f[b].Free?
    ensures Sense(f, x) == x
  {}

  /** The first offset that selects the same cell as k. */
  lemma {:induction false} FirstAlias(decode: seq<nat>, k: nat) returns (i: nat)
    requires k < |decode|
    ensures i <= k && decode[i] == decode[k] && Last(decode, i, decode[k]) == -1
    decreases k
  {
    var j := Last(decode, k, decode[k]);
    if j == -1 {
      i := k;
    } else {
      i := FirstAlias(decode, j);
    }
  }

  lemma {:induction false} NoErrorsAt(m: Wiring, n: nat, k: nat)
    requires Wired(m) && k < n <= |m.decode| && SecondErrors(m, n) == 0 && ThirdErrors(m, n) == 0
    ensures SecondRead(m, k) == Pat(k) && ThirdRead(m, k) == Invert(Pat(k))
  {
    if k < n - 1 {
      NoErrorsAt(m, n - 1, k);
    }
  }

  /** With no error, the first and the last offset of any cell are the same. */
  lemma NoErrorsMeansAlone(m: Wiring, k: nat)
    requires Wired(m) && |m.decode| < Pow2(WIDTH) && k < |m.decode|
    requires SecondErrors(m, |m.decode|) == 0 && ThirdErrors(m, |m.decode|) == 0
    ensures Last(m.decode, |m.decode|, m.decode[k]) == k && Last(m.decode, k, m.decode[k]) == -1
    ensures forall b :: 0 <= b < WIDTH ==> m.faults[m.decode[k]][b].Free?
  {
    hide Bits, Sense, Invert, Pow2, Last, SecondErrors, ThirdErrors;
    var c := m.decode[k];
    var i := FirstAlias(m.decode, k);
    SelectedSomewhere(m.decode, k);
    var j := Last(m.decode, |m.decode|, c);
    NoErrorsAt(m, |m.decode|, i);
    BothWaysMeansFree(m.faults[c], Pat(j), Pat(i));
    BitsDiffer(j + 1, i + 1, WIDTH);
  }

  lemma {:induction false} FaultlessReads(m: Wiring, n: nat)
    requires Wired(m) && Faultless(m) && n <= |m.decode|
    ensures SecondErrors(m, n) == 0 && ThirdErrors(m, n) == 0
  {
    hide Sense, Invert, Pat;
    if n > 0 {
      var k := n - 1;
      FaultlessReads(m, k);
      var c := m.decode[k];
      assert Last(m.decode, k, c) == -1 && Last(m.decode, |m.decode|, c) == k;
      FreeSenses(m.faults[c], Pat(k));
      FreeSenses(m.faults[c], Invert(Pat(k)));
    }
  }

  /** The passes report no error exactly on faultless memory: any aliasing of
      addresses and any stuck bit is found. */
  lemma NoErrorMeansFaultless(m: Wiring)
    requires Wired(m) && |m.decode| < Pow2(WIDTH)
    ensures SecondErrors(m, |m.decode|) + ThirdErrors(m, |m.decode|) == 0 <==> Faultless(m)
  {
    hide SecondErrors, ThirdErrors, Last;
    if SecondErrors(m, |m.decode|) + ThirdErrors(m, |m.decode|) == 0 {
      forall k | 0 <= k < |m.decode|
        ensures Last(m.decode, |m.decode|, m.decode[k]) == k
        ensures forall b :: 0 <= b < WIDTH ==> m.faults[m.decode[k]][b].Free?
      {
        NoErrorsMeansAlone(m, k);
      }
      assert Faultless(m);
    }
    if Faultless(m) {
      FaultlessReads(m, |m.decode|);
    }
  }
}
