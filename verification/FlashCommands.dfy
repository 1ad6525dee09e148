/** The loops of common/cmd_flash.c: filling s_first and s_last, rounding, and the
    erase and protect commands that act on the result. */
module FlashCommands {
  import opened CText
  import opened Flash

  /** The chosen sectors of a bank as s_first and s_last hold them. */
  predicate Encodes(first: int, last: int, pick: Pick) {
    match pick
    case Skip => first == -1
    case Sectors(f, l) => first == f && last == l
  }

  /** The inner loop over the sectors of one bank. */
  method ScanBank(b: Bank, first: u32, last: u32) returns (f: int, l: int)
    requires b.known
    ensures f == ScanFirst(b, first, last, |b.start|) && l == ScanLast(b, first, last, |b.start|)
  {
    f, l := -1, -1;
    for sect := 0 to |b.start|
      invariant f == ScanFirst(b, first, last, sect) && l == ScanLast(b, first, last, sect)
    {
      var end := SectEnd(b, sect);
      if first > end || last < b.start[sect] {
        continue;
      }
      if first == b.start[sect] {
        f := sect;
      }
      if last == end {
        l := sect;
      }
    }
  }

  /** flash_fill_sect_ranges: 0 with both arrays filled, or 1. */
  method FillSectRanges(banks: seq<Bank>, addrFirst: u32, addrLast: u32, sFirst: array<int>, sLast: array<int>)
    returns (rcode: nat, sCount: nat)
    requires sFirst != sLast && sFirst.Length == sLast.Length == |banks|
    modifies sFirst, sLast
    ensures rcode == 0 <==> Resolve(banks, addrFirst, addrLast).Some?
    ensures rcode == 0 ==>
              var picks := Resolve(banks, addrFirst, addrLast).value;
              (forall i :: 0 <= i < |banks| ==> Encodes(sFirst[i], sLast[i], picks[i])) && sCount == CountPicks(picks)
  {
    hide ResolveBank, Resolve;
    sCount, rcode := 0, 0;
    ClearRanges(sFirst, sLast);
    var bank := 0;
    var first: u32 := addrFirst;
    ghost var picks: seq<Pick> := [];
    PrependMore([], Skip, Resolve(banks, addrFirst, addrLast));
    assert banks[0..] == banks;
    while bank < |banks| && first <= addrLast
      invariant bank <= |banks| && |picks| == bank
      invariant Resolve(banks, addrFirst, addrLast) == Prepend(picks, Resolve(banks[bank..], first, addrLast))
      invariant sCount == CountPicks(picks)
      invariant forall i :: 0 <= i < bank ==> Encodes(sFirst[i], sLast[i], picks[i])
      invariant forall i :: bank <= i < |banks| ==> sFirst[i] == -1
    {
      var ok, f, l, next := FillBank(banks[bank], first, addrLast);
      ResolveStep(banks, bank, first, addrLast);
      if !ok {
        return 1, sCount;
      }
      ghost var pick := ResolveBank(banks[bank], first, addrLast).pick;
      PrependMore(picks, pick, Resolve(banks[bank + 1..], next, addrLast));
      CountMore(picks, pick);
      sFirst[bank], sLast[bank] := f, l;
      sCount := sCount + if f >= 0 then l - f + 1 else 0;
      picks := picks + [pick];
      first := next;
      bank := bank + 1;
    }
    ResolveEnds(banks[bank..], first, addrLast);
    CountSkips(picks, |banks| - bank);
  }

  method ClearRanges(sFirst: array<int>, sLast: array<int>)
    requires sFirst != sLast && sFirst.Length == sLast.Length
    modifies sFirst, sLast
    ensures forall i :: 0 <= i < sFirst.Length ==> sFirst[i] == sLast[i] == -1
  {
    for i := 0 to sFirst.Length
      invariant forall j :: 0 <= j < i ==> sFirst[j] == sLast[j] == -1
    {
      sFirst[i], sLast[i] := -1, -1;
    }
  }

  lemma ResolveStep(banks: seq<Bank>, i: nat, first: u32, last: u32)
    requires i < |banks| && first <= last
    ensures Resolve(banks[i..], first, last) ==
            match ResolveBank(banks[i], first, last)
            case Refused => None
            case Chosen(pick, next) => Prepend([pick], Resolve(banks[i + 1..], next, last))
  {
    hide ResolveBank;
    assert banks[i..][0] == banks[i] && banks[i..][1..] == banks[i + 1..];
  }

  lemma ResolveEnds(banks: seq<Bank>, first: u32, last: u32)
    requires banks == [] || first > last
    ensures Resolve(banks, first, last) == Some(Skips(|banks|))
  {}

  /** The body of that loop for one bank. */
  method FillBank(b: Bank, first: u32, last: u32) returns (ok: bool, f: int, l: int, next: u32)
    ensures ok <==> ResolveBank(b, first, last).Chosen?
    ensures ok ==> Encodes(f, l, ResolveBank(b, first, last).pick) && next == ResolveBank(b, first, last).next
    ensures ok ==> if ResolveBank(b, first, last).pick.Sectors? then 0 <= f <= l else f == -1
  {
    if !b.known {
      return true, -1, -1, first;
    }
    var bEnd, sEnd := BankEnd(b), |b.start| - 1;
    f, l := ScanBank(b, first, last);
    next := first;
    if f >= 0 {
      if l < 0 {
        if last > bEnd {
          l := sEnd;
        } else {
          return false, f, l, next;
        }
      }
      if l < f {
        return false, f, l, next;
      }
      next := if l == sEnd then U32(bEnd as int + 1) else b.start[l + 1];
    } else if first >= b.start[0] && first < bEnd {
      return false, f, l, next;
    } else if l >= 0 {
      return false, f, l, next;
    }
    ok := true;
  }

  function PickSize(p: Pick): nat {
    if p.Sectors? && p.first <= p.last then p.last - p.first + 1 else 0
  }

  /** How many sectors are chosen. */
  function CountPicks(picks: seq<Pick>): nat {
    if picks == [] then 0 else PickSize(picks[0]) + CountPicks(picks[1..])
  }

  lemma {:induction false} CountMore(picks: seq<Pick>, p: Pick)
    ensures CountPicks(picks + [p]) == CountPicks(picks) + PickSize(p)
  {
    if picks == [] {
      assert [] + [p] == [p];
    } else {
      assert (picks + [p])[1..] == picks[1..] + [p];
      CountMore(picks[1..], p);
    }
  }

  lemma {:induction false} CountSkips(picks: seq<Pick>, n: nat)
    ensures CountPicks(picks + Skips(n)) == CountPicks(picks)
    decreases n
  {
    if n == 0 {
      assert picks + Skips(0) == picks;
    } else {
      CountSkips(picks + [Skip], n - 1);
      CountMore(picks, Skip);
      assert picks + [Skip] + Skips(n - 1) == picks + Skips(n);
    }
  }

  function Prepend(picks: seq<Pick>, r: Option<seq<Pick>>): Option<seq<Pick>> {
    if r.Some? then Some(picks + r.value) else None
  }

  lemma PrependMore(picks: seq<Pick>, pick: Pick, r: Option<seq<Pick>>)
    ensures Prepend(picks, Prepend([pick], r)) == Prepend(picks + [pick], r)
    ensures Prepend([], r) == r
  {
    if r.Some? {
      assert picks + ([pick] + r.value) == picks + [pick] + r.value;
      assert [] + r.value == r.value;
    }
  }

  // ---------------------------------------------------------------- rounding

  /** flash_sect_roundb: the nested search for the sector that holds addr. */
  method FlashSectRoundb(banks: seq<Bank>, addr: u32) returns (found: bool, rounded: u32)
    ensures found <==> Roundb(banks, addr).Some?
    ensures rounded == if found then Roundb(banks, addr).value else addr
  {
    found, rounded := false, addr;
    var bank := 0;
    while bank < |banks| && !found
      invariant bank <= |banks|
      invariant if found then Roundb(banks, addr) == Some(rounded)
                else rounded == addr && Roundb(banks, addr) == Roundb(banks[bank..], addr)
    {
      var b, i := banks[bank], 0;
      while i < |b.start| && !found
        invariant i <= |b.start|
        invariant if found then RoundInBank(b, addr, 0) == Some(rounded)
                  else rounded == addr && RoundInBank(b, addr, 0) == RoundInBank(b, addr, i)
      {
        var sectorEnd := SectEnd(b, i);
        if addr <= sectorEnd && addr >= b.start[i] {
          found := true;
          if addr < sectorEnd {
            rounded := sectorEnd;
          }
        }
        i := i + 1;
      }
      bank := bank + 1;
    }
  }

  /** addr_spec on parsed numbers: "first last", or "first +len" when lenUsed. */
  method AddrSpec(banks: seq<Bank>, first: u32, second: u32, lenUsed: bool) returns (ok: bool, last: u32)
    ensures lenUsed ==> (ok <==> Roundb(banks, U32(first as int + second - 1)).Some?)
    ensures lenUsed && ok ==> Some(last) == Roundb(banks, U32(first as int + second - 1))
    ensures !lenUsed ==> ok && last == second
  {
    ok, last := true, second;
    if lenUsed {
      ok, last := FlashSectRoundb(banks, U32(first as int + second - 1));
    }
  }

  // ---------------------------------------------------------------- commands

  class FlashBank {
    const info: Bank
    const protect: array<bool>
    const erased: array<bool>

    constructor (info: Bank)
      ensures this.info == info && Valid() && fresh(protect) && fresh(erased)
    {
      this.info := info;
      protect := new bool[|info.start|];
      erased := new bool[|info.start|];
    }

    ghost predicate Valid() {
      protect.Length == erased.Length == |info.start| && protect != erased
    }

    /** The driver's flash_erase, with the result it reports. */
    method FlashErase(first: int, last: int, result: nat) returns (rcode: nat)
      requires Valid() && 0 <= first <= last < |info.start|
      modifies erased
      ensures rcode == result
      ensures forall k :: 0 <= k < erased.Length ==> erased[k] == (first <= k <= last || old(erased[k]))
    {
      for k := first to last + 1
        invariant forall i :: 0 <= i < erased.Length ==> erased[i] == (first <= i < k || old(erased[i]))
      {
        erased[k] := true;
      }
      rcode := result;
    }

    /** The loop of flash_sect_protect over one bank. */
    method Protect(first: int, last: int, p: bool)
      requires Valid() && 0 <= first <= last < |info.start|
      modifies protect
      ensures forall k :: 0 <= k < protect.Length ==> protect[k] == if first <= k <= last then p else old(protect[k])
    {
      for k := first to last + 1
        invariant forall i :: 0 <= i < protect.Length ==> protect[i] == if first <= i < k then p else old(protect[i])
      {
        protect[k] := p;
      }
    }
  }

  function Infos(banks: seq<FlashBank>): (r: seq<Bank>)
    ensures |r| == |banks| && forall i :: 0 <= i < |banks| ==> r[i] == banks[i].info
  {
    if banks == [] then [] else [banks[0].info] + Infos(banks[1..])
  }

  ghost predicate ValidBanks(banks: seq<FlashBank>) {
    && (forall i :: 0 <= i < |banks| ==> banks[i].Valid())
    && (forall i, j :: 0 <= i < j < |banks| ==>
          banks[i].protect != banks[j].protect && banks[i].erased != banks[j].erased &&
          banks[i].protect != banks[j].erased && banks[i].erased != banks[j].protect)
  }

  /** Whether sector k of bank i is chosen for the request. */
  ghost predicate ToDo(banks: seq<FlashBank>, first: u32, last: u32, i: nat, k: nat)
    requires i < |banks|
  {
    Resolve(Infos(banks), first, last).Some? && Picked(Resolve(Infos(banks), first, last).value[i], k)
  }

  ghost predicate Filled(banks: seq<FlashBank>, sFirst: array<int>, sLast: array<int>, picks: seq<Pick>)
    reads sFirst, sLast
  {
    && sFirst.Length == sLast.Length == |banks| == |picks|
    && (forall i :: 0 <= i < |banks| ==> Encodes(sFirst[i], sLast[i], picks[i]))
    && (forall i :: 0 <= i < |banks| && picks[i].Sectors? ==>
          banks[i].info.known && picks[i].first <= picks[i].last < |banks[i].info.start|)
  }

  /** The loop of flash_sect_protect over the banks. */
  method ProtectBanks(banks: seq<FlashBank>, p: bool, sFirst: array<int>, sLast: array<int>, ghost picks: seq<Pick>)
    requires ValidBanks(banks) && Filled(banks, sFirst, sLast, picks)
    modifies set b <- banks :: b.protect
    ensures forall i, k :: 0 <= i < |banks| && 0 <= k < banks[i].protect.Length ==>
              banks[i].protect[k] == if Picked(picks[i], k) then p else old(banks[i].protect[k])
  {
    for bank := 0 to |banks|
      invariant forall i :: bank <= i < |banks| ==> banks[i].protect[..] == old(banks[i].protect[..])
      invariant forall i, k :: 0 <= i < bank && 0 <= k < banks[i].protect.Length ==>
                  banks[i].protect[k] == if Picked(picks[i], k) then p else old(banks[i].protect[k])
    {
      assert Encodes(sFirst[bank], sLast[bank], picks[bank]);
      if banks[bank].info.known && sFirst[bank] >= 0 && sFirst[bank] <= sLast[bank] {
        banks[bank].Protect(sFirst[bank], sLast[bank], p);
      }
    }
  }

  /** flash_sect_protect: exactly the chosen sectors get the new setting. */
  method FlashSectProtect(banks: seq<FlashBank>, p: bool, addrFirst: u32, addrLast: u32) returns (rcode: nat)
    requires ValidBanks(banks)
    modifies set b <- banks :: b.protect
    ensures forall i, k :: 0 <= i < |banks| && 0 <= k < banks[i].protect.Length ==>
              banks[i].protect[k] == if ToDo(banks, addrFirst, addrLast, i, k) then p else old(banks[i].protect[k])
    ensures rcode == 0 <==> SomethingToDo(banks, addrFirst, addrLast)
  {
    var sFirst, sLast;
    ghost var picks;
    rcode, sFirst, sLast, picks := Plan(banks, addrFirst, addrLast);
    if rcode == 0 {
      ProtectBanks(banks, p, sFirst, sLast, picks);
    }
  }

  ghost predicate SomethingToDo(banks: seq<FlashBank>, first: u32, last: u32) {
    exists i, k :: 0 <= i < |banks| && 0 <= k && ToDo(banks, first, last, i, k)
  }

  /** What erase and protect do first: resolve the range, and refuse a range that
      resolves to nothing. */
  method Plan(banks: seq<FlashBank>, first: u32, last: u32)
    returns (rcode: nat, sFirst: array<int>, sLast: array<int>, ghost picks: seq<Pick>)
    ensures rcode == 0 <==> SomethingToDo(banks, first, last)
    ensures rcode == 0 ==> Filled(banks, sFirst, sLast, picks) && fresh(sFirst) && fresh(sLast)
    ensures rcode == 0 ==> forall i, k :: 0 <= i < |banks| && 0 <= k ==>
              (Picked(picks[i], k) <==> ToDo(banks, first, last, i, k))
    ensures rcode != 0 ==> forall i, k :: 0 <= i < |banks| && 0 <= k ==> !ToDo(banks, first, last, i, k)
  {
    hide Resolve, CountPicks;
    sFirst, sLast, picks := new int[|banks|], new int[|banks|], [];
    var planned;
    rcode, planned := FillSectRanges(Infos(banks), first, last, sFirst, sLast);
    if rcode == 0 {
      picks := Resolve(Infos(banks), first, last).value;
      SomePicked(picks);
      PicksExist(Infos(banks), first, last);
      assert forall i, k :: 0 <= i < |banks| && 0 <= k ==> (Picked(picks[i], k) <==> ToDo(banks, first, last, i, k));
      if planned == 0 {
        rcode := 1;
      }
    }
  }

  lemma {:induction false} SomePicked(picks: seq<Pick>)
    ensures CountPicks(picks) > 0 <==> exists i, k :: 0 <= i < |picks| && 0 <= k && Picked(picks[i], k)
  {
    if picks != [] {
      SomePicked(picks[1..]);
      if PickSize(picks[0]) > 0 {
        assert Picked(picks[0], picks[0].first);
      }
      if CountPicks(picks[1..]) > 0 {
        var i, k :| 0 <= i < |picks[1..]| && 0 <= k && Picked(picks[1..][i], k);
        assert Picked(picks[i + 1], k);
      }
      if exists i, k :: 0 <= i < |picks| && 0 <= k && Picked(picks[i], k) {
        var i, k :| 0 <= i < |picks| && 0 <= k && Picked(picks[i], k);
        if i > 0 {
          assert Picked(picks[1..][i - 1], k);
        }
      }
    }
  }

  /** What erase and protect touch is inside the request: always if nothing is
      resolved, else exactly if the range starts at 0 or does not run on. */
  lemma ToDoIsRequested(banks: seq<FlashBank>, first: u32, last: u32)
    requires AllWellFormed(Infos(banks))
    ensures (forall i, k :: 0 <= i < |banks| && 0 <= k && ToDo(banks, first, last, i, k) ==>
               k < |Infos(banks)[i].start| && Inside(Infos(banks)[i], k, first, last))
       <==> Resolve(Infos(banks), first, last) == None || first == 0 || !RunsOn(Infos(banks), last)
  {
    hide Resolve, RunsOn, Inside, AllWellFormed, Picked;
    var r := Resolve(Infos(banks), first, last);
    if r.Some? {
      ChosenSectorsAreRequested(Infos(banks), first, last);
      assert forall i, k :: 0 <= i < |banks| && 0 <= k ==> (ToDo(banks, first, last, i, k) <==> Picked(r.value[i], k));
    }
  }

  /** The loop of flash_sect_erase over the banks: it stops when the driver fails. */
  method EraseBanks(
    banks: seq<FlashBank>, sFirst: array<int>, sLast: array<int>, results: seq<nat>, ghost picks: seq<Pick>)
    returns (rcode: nat)
    requires ValidBanks(banks) && Filled(banks, sFirst, sLast, picks) && |results| == |banks|
    modifies set b <- banks :: b.erased
    ensures forall i, k :: 0 <= i < |banks| && 0 <= k < banks[i].erased.Length ==>
              (old(banks[i].erased[k]) ==> banks[i].erased[k])
              && (banks[i].erased[k] ==> old(banks[i].erased[k]) || Picked(picks[i], k))
              && (rcode == 0 && Picked(picks[i], k) ==> banks[i].erased[k])
  {
    rcode := 0;
    var bank := 0;
    while bank < |banks| && rcode == 0
      invariant bank <= |banks|
      invariant forall i :: bank <= i < |banks| ==> banks[i].erased[..] == old(banks[i].erased[..])
      invariant forall i, k :: 0 <= i < bank && 0 <= k < banks[i].erased.Length ==>
                  banks[i].erased[k] == (Picked(picks[i], k) || old(banks[i].erased[k]))
    {
      assert Encodes(sFirst[bank], sLast[bank], picks[bank]);
      if sFirst[bank] >= 0 {
        rcode := banks[bank].FlashErase(sFirst[bank], sLast[bank], results[bank]);
      }
      bank := bank + 1;
    }
    forall i, k | bank <= i < |banks| && 0 <= k < banks[i].erased.Length
      ensures banks[i].erased[k] == old(banks[i].erased[k])
    {
      assert banks[i].erased[k] == banks[i].erased[..][k];
    }
  }

  /** flash_sect_erase, with the results the driver will report bank by bank. No
      sector is erased but a chosen one, and with a good driver all of them are. */
  method FlashSectErase(banks: seq<FlashBank>, addrFirst: u32, addrLast: u32, results: seq<nat>) returns (rcode: nat)
    requires ValidBanks(banks) && |results| == |banks|
    modifies set b <- banks :: b.erased
    ensures forall i, k :: 0 <= i < |banks| && 0 <= k < banks[i].erased.Length ==>
              (old(banks[i].erased[k]) ==> banks[i].erased[k])
              && (banks[i].erased[k] ==> old(banks[i].erased[k]) || ToDo(banks, addrFirst, addrLast, i, k))
              && (rcode == 0 && ToDo(banks, addrFirst, addrLast, i, k) ==> banks[i].erased[k])
    ensures rcode == 0 ==> SomethingToDo(banks, addrFirst, addrLast)
  {
    var sFirst, sLast;
    ghost var picks;
    rcode, sFirst, sLast, picks := Plan(banks, addrFirst, addrLast);
    if rcode == 0 {
      rcode := EraseBanks(banks, sFirst, sLast, results, picks);
    }
  }
}
