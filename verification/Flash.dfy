/** Resolving an address range to flash sectors (common/cmd_flash.c): which sectors
    of which banks flash_sect_erase and flash_sect_protect touch. */
module Flash {
  import opened CText

  /** What the resolver reads of a flash_info_t; the sectors are numbered by `start`. */
  datatype BankInfo = Bank(known: bool, start: seq<u32>, size: u32)

  /** A bank that was identified has sectors. */
  type Bank = b: BankInfo | b.known ==> b.start != [] witness Bank(false, [], 0)

  /** Last address of the bank. */
  function BankEnd(b: Bank): u32
    requires b.start != []
  {
    U32(b.start[0] as int + b.size - 1)
  }

  /** Last address of sector k. */
  function SectEnd(b: Bank, k: nat): u32
    requires k < |b.start|
  {
    if k == |b.start| - 1 then BankEnd(b) else U32(b.start[k + 1] as int - 1)
  }

  /** A known bank has sectors with ascending starts and does not wrap. */
  predicate WellFormed(b: Bank) {
    b.known ==>
      && b.size > 0 && b.start[0] + b.size <= TWO32
      && (forall i, j :: 0 <= i < j < |b.start| ==> b.start[i] < b.start[j])
      && b.start[|b.start| - 1] <= BankEnd(b)
  }

  // -------------------------------------------------- one bank of the resolver

  predicate Touches(b: Bank, k: nat, first: u32, last: u32)
    requires k < |b.start|
  {
    first <= SectEnd(b, k) && last >= b.start[k]
  }

  /** s_first[bank] after k sectors of the inner loop. */
  function ScanFirst(b: Bank, first: u32, last: u32, k: nat): (r: int)
    requires k <= |b.start|
    ensures -1 <= r < k
    ensures r >= 0 ==> b.start[r] == first
  {
    if k == 0 then -1
    else if Touches(b, k - 1, first, last) && first == b.start[k - 1] then k - 1
    else ScanFirst(b, first, last, k - 1)
  }

  /** s_last[bank] after k sectors of the inner loop. */
  function ScanLast(b: Bank, first: u32, last: u32, k: nat): (r: int)
    requires k <= |b.start|
    ensures -1 <= r < k
    ensures r >= 0 ==> SectEnd(b, r) == last
  {
    if k == 0 then -1
    else if Touches(b, k - 1, first, last) && last == SectEnd(b, k - 1) then k - 1
    else ScanLast(b, first, last, k - 1)
  }

  /** What is chosen of a bank, and where the range goes on behind it. */
  datatype Pick = Skip | Sectors(first: nat, last: nat)
  datatype BankResult = Refused | Chosen(pick: Pick, next: u32)

  function ResolveBank(b: Bank, first: u32, last: u32): (r: BankResult)
    ensures r.Chosen? && r.pick.Sectors? ==> r.pick.first <= r.pick.last < |b.start|
  {
    if !b.known then Chosen(Skip, first) else
    var n := |b.start|;
    var f, l := ScanFirst(b, first, last, n), ScanLast(b, first, last, n);
    if f >= 0 then
      if l < 0 && last <= BankEnd(b) then Refused            // end address not on a boundary
      else
        var l := if l < 0 then n - 1 else l;
        if l < f then Refused                                // end sector precedes start sector
        else Chosen(Sectors(f, l), if l == n - 1 then U32(BankEnd(b) + 1) else b.start[l + 1])
    else if b.start[0] <= first < BankEnd(b) then Refused    // start address not on a boundary
    else if l >= 0 then Refused                              // banks mapped in reverse order
    else Chosen(Skip, first)
  }

  function Skips(n: nat): (r: seq<Pick>)
    ensures |r| == n && forall i :: 0 <= i < n ==> r[i] == Skip
  {
    if n == 0 then [] else [Skip] + Skips(n - 1)
  }

  /** flash_fill_sect_ranges: the sectors chosen of every bank, or None. */
  ghost function Resolve(banks: seq<Bank>, first: u32, last: u32): (r: Option<seq<Pick>>)
    ensures r.Some? ==> |r.value| == |banks|
    decreases |banks|
  {
    if banks == [] || first > last then Some(Skips(|banks|))
    else match ResolveBank(banks[0], first, last)
      case Refused => None
      case Chosen(pick, next) =>
        match Resolve(banks[1..], next, last)
        case None => None
        case Some(picks) => Some([pick] + picks)
  }

  // --------------------------------------------------------- what is tiled

  /** The chosen sectors of successive banks cover, without gap or overlap, one
      interval that starts at `from`. */
  ghost predicate Tiles(banks: seq<Bank>, picks: seq<Pick>, from: int)
    requires |banks| == |picks|
    decreases |banks|
  {
    if banks == [] then true
    else match picks[0]
      case Skip => Tiles(banks[1..], picks[1..], from)
      case Sectors(f, l) =>
        && banks[0].known && f <= l < |banks[0].start| && banks[0].start[f] == from
        && Tiles(banks[1..], picks[1..], SectEnd(banks[0], l) + 1)
  }

  /** One past that interval. */
  ghost function TileEnd(banks: seq<Bank>, picks: seq<Pick>, from: int): int
    requires |banks| == |picks| && Tiles(banks, picks, from)
    decreases |banks|
  {
    if banks == [] then from
    else match picks[0]
      case Skip => TileEnd(banks[1..], picks[1..], from)
      case Sectors(f, l) => TileEnd(banks[1..], picks[1..], SectEnd(banks[0], l) + 1)
  }

  ghost predicate AllWellFormed(banks: seq<Bank>) {
    forall i :: 0 <= i < |banks| ==> WellFormed(banks[i])
  }

  const TOP: u32 := TWO32 - 1

  predicate EndsAtTop(b: Bank) {
    b.known && BankEnd(b) == TOP
  }

  predicate StartsAtZero(b: Bank) {
    b.known && b.start[0] == 0
  }

  /** The request reaches the top of the address space, and behind a bank that ends
      there a bank at address 0 is listed: there the range goes on. */
  ghost predicate RunsOn(banks: seq<Bank>, last: u32) {
    last == TOP && exists i, j :: 0 <= i < j < |banks| && EndsAtTop(banks[i]) && StartsAtZero(banks[j])
  }

  /** Only the last bank may reach the top of the address space. */
  ghost predicate NoWrap(banks: seq<Bank>) {
    AllWellFormed(banks) && forall i :: 0 <= i < |banks| - 1 ==> !EndsAtTop(banks[i])
  }

  lemma SectorsAscend(b: Bank, k: nat)
    requires b.known && WellFormed(b) && k < |b.start|
    ensures b.start[k] <= SectEnd(b, k) <= BankEnd(b)
    ensures k + 1 < |b.start| ==> b.start[k + 1] == SectEnd(b, k) + 1
    ensures forall j :: k < j < |b.start| ==> SectEnd(b, k) < b.start[j]
    ensures b.start[0] <= b.start[k]
  {
    assert k + 1 < |b.start| ==> b.start[k] < b.start[k + 1] <= b.start[|b.start| - 1];
  }

  /** What one bank contributes, and that the range goes on right behind it. */
  lemma ChosenBank(b: Bank, first: u32, last: u32)
    requires WellFormed(b) && first <= last && ResolveBank(b, first, last).Chosen?
    ensures var r := ResolveBank(b, first, last);
            if r.pick.Skip? then r.next == first
            else
              && b.known && b.start[r.pick.first] == first && SectEnd(b, r.pick.last) <= last
              && r.next == U32(SectEnd(b, r.pick.last) + 1)
              && (SectEnd(b, r.pick.last) < last ==> SectEnd(b, r.pick.last) == BankEnd(b))
  {
    var r := ResolveBank(b, first, last);
    if r.pick.Sectors? {
      SectorsAscend(b, r.pick.last);
    }
  }

  /** A request up to the top takes in the end of every bank that ends there. */
  lemma TopBank(b: Bank, first: u32)
    requires WellFormed(b) && EndsAtTop(b) && ResolveBank(b, first, TOP).Chosen?
    ensures ResolveBank(b, first, TOP) == Chosen(Sectors(ScanFirst(b, first, TOP, |b.start|), |b.start| - 1), 0)
  {
    hide SectEnd, WellFormed;
    var n := |b.start|;
    LastSectorEnd(b);
    SectorsAscend(b, n - 1);
    ScanLastFinds(b, first, TOP, n - 1, n);
  }

  /** RunsOn of a list and of its tail. */
  lemma RunsOnStep(banks: seq<Bank>, last: u32)
    requires banks != []
    ensures RunsOn(banks, last)
       <==> RunsOn(banks[1..], last) || (last == TOP && EndsAtTop(banks[0]) && !NoneAtZero(banks[1..]))
  {
    var tail := banks[1..];
    assert forall k :: 0 <= k < |tail| ==> tail[k] == banks[k + 1];
    assert forall k :: 0 < k < |banks| ==> banks[k] == tail[k - 1];
  }

  predicate NoneAtZero(banks: seq<Bank>) {
    forall j :: 0 <= j < |banks| ==> !StartsAtZero(banks[j])
  }

  /** Behind the top the range goes on at 0, up to the top again: it chooses the
      first bank that is listed there, from its first sector on, if there is one. */
  lemma {:induction false} BehindTheTop(banks: seq<Bank>) returns (i: nat)
    requires AllWellFormed(banks) && Resolve(banks, 0, TOP).Some?
    ensures var picks := Resolve(banks, 0, TOP).value;
            && (Tiles(banks, picks, TWO32) <==> NoneAtZero(banks))
            && (NoneAtZero(banks) ==> TileEnd(banks, picks, TWO32) == TWO32)
            && (!NoneAtZero(banks) ==> i < |banks| && StartsAtZero(banks[i]) && Picked(picks[i], 0))
    decreases |banks|
  {
    hide ResolveBank, WellFormed, SectEnd;
    i := 0;
    if banks != [] {
      var b, tail, picks := banks[0], banks[1..], Resolve(banks, 0, TOP).value;
      ChosenBank(b, 0, TOP);
      FromZero(b);
      if !StartsAtZero(b) {
        assert picks[0] == Skip && picks[1..] == Resolve(tail, 0, TOP).value;
        i := BehindTheTop(tail);
        assert forall k :: 0 <= k < |tail| ==> tail[k] == banks[k + 1];
        assert NoneAtZero(banks) <==> NoneAtZero(tail);
        i := i + 1;
      }
    }
  }

  lemma FromZero(b: Bank)
    requires WellFormed(b) && ResolveBank(b, 0, TOP).Chosen?
    ensures if StartsAtZero(b) then ResolveBank(b, 0, TOP).pick.Sectors? && ResolveBank(b, 0, TOP).pick.first == 0
            else ResolveBank(b, 0, TOP) == Chosen(Skip, 0)
  {
    hide SectEnd;
    if StartsAtZero(b) {
      ScanFirstFinds(b, 0, TOP, 0, |b.start|);
    }
  }

  /** When the resolver succeeds, the chosen sectors tile one interval that starts
      exactly at the requested address and ends inside the request, unless the range
      runs on behind the top of the address space. */
  lemma {:induction false} ResolvedRangeIsTiled(banks: seq<Bank>, first: u32, last: u32)
    requires AllWellFormed(banks) && Resolve(banks, first, last).Some?
    ensures var picks := Resolve(banks, first, last).value;
            && (Tiles(banks, picks, first) <==> !RunsOn(banks, last))
            && (!RunsOn(banks, last) ==>
                  && first <= TileEnd(banks, picks, first)
                  && (first <= last ==> TileEnd(banks, picks, first) <= last + 1)
                  && (first > last ==> TileEnd(banks, picks, first) == first))
    decreases |banks|
  {
    hide ResolveBank, WellFormed, SectEnd, RunsOn;
    var picks := Resolve(banks, first, last).value;
    if banks == [] || first > last {
      SkipsTile(banks, first);
      BelowTop(banks, first, last);
    } else {
      var b, tail := banks[0], banks[1..];
      assert WellFormed(b);
      ChosenBank(b, first, last);
      var Chosen(pick, next) := ResolveBank(b, first, last);
      assert picks[0] == pick && picks[1..] == Resolve(tail, next, last).value;
      RunsOnStep(banks, last);
      if last == TOP && EndsAtTop(b) {
        TopBank(b, first);
        LastSectorEnd(b);
        SectorsAscend(b, pick.first);
        RunsOnNeedsZero(tail, last);
        var i := BehindTheTop(tail);
      } else {
        ResolvedRangeIsTiled(tail, next, last);
        if pick.Sectors? {
          SectorsAscend(b, pick.last);
          SectorsAscend(b, pick.first);
          NotAtTop(b, pick.last, last);
        }
      }
    }
  }

  lemma BelowTop(banks: seq<Bank>, first: u32, last: u32)
    ensures banks == [] || first > last ==> !RunsOn(banks, last)
  {}

  lemma RunsOnNeedsZero(banks: seq<Bank>, last: u32)
    ensures RunsOn(banks, last) ==> !NoneAtZero(banks)
  {}

  lemma NotAtTop(b: Bank, k: nat, last: u32)
    requires b.known && WellFormed(b) && k < |b.start| && SectEnd(b, k) <= last && !(last == TOP && EndsAtTop(b))
    ensures SectEnd(b, k) < TOP
  {
    SectorsAscend(b, k);
  }

  lemma {:induction false} SkipsTile(banks: seq<Bank>, from: int)
    ensures Tiles(banks, Skips(|banks|), from) && TileEnd(banks, Skips(|banks|), from) == from
    decreases |banks|
  {
    if banks != [] {
      assert Skips(|banks|)[1..] == Skips(|banks| - 1);
      SkipsTile(banks[1..], from);
    }
  }

  // ------------------------------------------------ nothing outside is touched

  predicate Picked(pick: Pick, k: nat) {
    pick.Sectors? && pick.first <= k <= pick.last
  }

  /** Sector k of bank b lies inside the addresses from..to. */
  predicate Inside(b: Bank, k: nat, from: int, to: int)
    requires k < |b.start|
  {
    from <= b.start[k] && SectEnd(b, k) <= to
  }

  lemma {:induction false} TilesAreInside(banks: seq<Bank>, picks: seq<Pick>, from: int, i: nat, k: nat)
    requires |banks| == |picks| && AllWellFormed(banks) && Tiles(banks, picks, from)
    requires i < |banks| && Picked(picks[i], k)
    ensures banks[i].known && k < |banks[i].start| && Inside(banks[i], k, from, TileEnd(banks, picks, from) - 1)
    ensures from <= TileEnd(banks, picks, from)
    decreases |banks|
  {
    hide WellFormed, SectEnd;
    var b := banks[0];
    assert WellFormed(b);
    match picks[0]
    case Skip => TilesAreInside(banks[1..], picks[1..], from, i - 1, k);
    case Sectors(f, l) =>
      SectorsAscend(b, f);
      SectorsAscend(b, l);
      EndAtLeast(banks[1..], picks[1..], SectEnd(b, l) + 1);
      if i == 0 {
        SectorsAscend(b, k);
        assert f < k ==> b.start[f] < b.start[k] by { StartsAscend(b, f, k); }
        assert k < l ==> b.start[k] < b.start[l] by { StartsAscend(b, k, l); }
      } else {
        TilesAreInside(banks[1..], picks[1..], SectEnd(b, l) + 1, i - 1, k);
      }
  }

  lemma StartsAscend(b: Bank, i: nat, j: nat)
    requires b.known && WellFormed(b)
    ensures i < j < |b.start| ==> b.start[i] < b.start[j]
  {}

  lemma {:induction false} EndAtLeast(banks: seq<Bank>, picks: seq<Pick>, from: int)
    requires |banks| == |picks| && AllWellFormed(banks) && Tiles(banks, picks, from)
    ensures from <= TileEnd(banks, picks, from)
    decreases |banks|
  {
    hide WellFormed, SectEnd;
    if banks != [] {
      match picks[0]
      case Skip => EndAtLeast(banks[1..], picks[1..], from);
      case Sectors(f, l) =>
        assert WellFormed(banks[0]);
        SectorsAscend(banks[0], f);
        SectorsAscend(banks[0], l);
        StartsAscend(banks[0], f, l);
        EndAtLeast(banks[1..], picks[1..], SectEnd(banks[0], l) + 1);
    }
  }

  /** Every chosen sector lies inside the request. */
  ghost predicate AllInside(banks: seq<Bank>, picks: seq<Pick>, first: u32, last: u32)
    requires |banks| == |picks|
  {
    forall i, k :: 0 <= i < |banks| && 0 <= k && Picked(picks[i], k) ==>
      k < |banks[i].start| && Inside(banks[i], k, first, last)
  }

  /** No sector that reaches outside the request is chosen, for every request and
      every board, exactly if the range does not run on behind the top of the address
      space, or there is nothing outside the request because it starts at 0. */
  lemma ChosenSectorsAreRequested(banks: seq<Bank>, first: u32, last: u32)
    requires AllWellFormed(banks) && Resolve(banks, first, last).Some?
    ensures AllInside(banks, Resolve(banks, first, last).value, first, last) <==> first == 0 || !RunsOn(banks, last)
  {
    hide Resolve, WellFormed, RunsOn, SectEnd;
    var picks := Resolve(banks, first, last).value;
    if !RunsOn(banks, last) {
      ResolvedRangeIsTiled(banks, first, last);
      forall i, k | 0 <= i < |banks| && 0 <= k && Picked(picks[i], k)
        ensures k < |banks[i].start| && Inside(banks[i], k, first, last)
      {
        TilesAreInside(banks, picks, first, i, k);
        SectorsAscend(banks[i], k);
      }
    } else if first == 0 {
      PicksExist(banks, first, last);
      TopIsLast(banks, last);
    } else {
      var i := RunsOnPicksZero(banks, first, last);
      assert Picked(picks[i], 0) && !Inside(banks[i], 0, first, last);
    }
  }

  lemma TopIsLast(banks: seq<Bank>, last: u32)
    requires RunsOn(banks, last)
    ensures last == TOP
  {}

  lemma {:induction false} PicksExist(banks: seq<Bank>, first: u32, last: u32)
    requires Resolve(banks, first, last).Some?
    ensures var picks := Resolve(banks, first, last).value;
            forall i :: 0 <= i < |banks| && picks[i].Sectors? ==>
              banks[i].known && picks[i].first <= picks[i].last < |banks[i].start|
    decreases |banks|
  {
    if banks != [] && first <= last {
      PicksExist(banks[1..], ResolveBank(banks[0], first, last).next, last);
    }
  }

  /** A range that runs on chooses a sector at address 0. */
  lemma {:induction false} RunsOnPicksZero(banks: seq<Bank>, first: u32, last: u32) returns (i: nat)
    requires AllWellFormed(banks) && Resolve(banks, first, last).Some? && RunsOn(banks, last)
    ensures i < |banks| && StartsAtZero(banks[i]) && Picked(Resolve(banks, first, last).value[i], 0)
    decreases |banks|
  {
    hide ResolveBank, WellFormed, SectEnd, RunsOn;
    TopIsLast(banks, last);
    RunsOnNeedsZero(banks, last);
    RunsOnStep(banks, last);
    var b, tail := banks[0], banks[1..];
    if EndsAtTop(b) {
      assert WellFormed(b);
      TopBank(b, first);
      RunsOnNeedsZero(tail, last);
      i := BehindTheTop(tail);
    } else {
      i := RunsOnPicksZero(tail, ResolveBank(b, first, last).next, last);
    }
    i := i + 1;
  }

  /** With at most the last bank at the top no request runs on, nor does any request
      that ends lower, wherever the banks are. */
  lemma NothingRunsOn(banks: seq<Bank>, first: u32, last: u32)
    requires AllWellFormed(banks) && Resolve(banks, first, last).Some? && (NoWrap(banks) || last < TOP)
    ensures var picks := Resolve(banks, first, last).value;
            Tiles(banks, picks, first) && AllInside(banks, picks, first, last)
  {
    hide Resolve, WellFormed, SectEnd;
    ResolvedRangeIsTiled(banks, first, last);
    ChosenSectorsAreRequested(banks, first, last);
  }

  /** The shortest case of a range that runs on: a request that ends with a bank at
      the top of the address space chooses the bank listed next, at address 0, whole. */
  lemma WrappedRangeRunsOn(b: Bank, c: Bank)
    requires b.known && WellFormed(b) && BankEnd(b) == TOP
    requires c.known && WellFormed(c) && c.start[0] == 0 && BankEnd(c) < TOP
    ensures RunsOn([b, c], BankEnd(b))
    ensures Resolve([b, c], b.start[0], BankEnd(b))
         == Some([Sectors(0, |b.start| - 1), Sectors(0, |c.start| - 1)])
  {
    hide SectEnd, WellFormed;
    var n, m := |b.start|, |c.start|;
    assert EndsAtTop([b, c][0]) && StartsAtZero([b, c][1]);
    SectorsAscend(b, 0);
    SectorsAscend(c, 0);
    ScanFirstFinds(b, b.start[0], BankEnd(b), 0, n);
    LastSectorEnd(b);
    ScanLastFinds(b, b.start[0], BankEnd(b), n - 1, n);
    ScanFirstFinds(c, 0, BankEnd(b), 0, m);
    ScanLastMisses(c, 0, BankEnd(b), m);
    assert [b, c][1..] == [c] && [c][1..] == [];
    assert Resolve([], 0, BankEnd(b)) == Some([]);
    assert ResolveBank(b, b.start[0], BankEnd(b)) == Chosen(Sectors(0, n - 1), 0);
    assert ResolveBank(c, 0, BankEnd(b)) == Chosen(Sectors(0, m - 1), BankEnd(c) + 1);
    assert Resolve([], BankEnd(c) + 1, BankEnd(b)) == Some([]);
    assert [Sectors(0, m - 1)] + [] == [Sectors(0, m - 1)];
    assert Resolve([c], 0, BankEnd(b)) == Some([Sectors(0, m - 1)]);
    assert [Sectors(0, n - 1)] + [Sectors(0, m - 1)] == [Sectors(0, n - 1), Sectors(0, m - 1)];
  }

  lemma LastSectorEnd(b: Bank)
    requires b.start != []
    ensures SectEnd(b, |b.start| - 1) == BankEnd(b)
  {}

  lemma {:induction false} ScanFirstFinds(b: Bank, first: u32, last: u32, k: nat, n: nat)
    requires b.known && WellFormed(b) && k < n <= |b.start| && b.start[k] == first <= last
    ensures ScanFirst(b, first, last, n) == k
  {
    hide SectEnd;
    SectorsAscend(b, k);
    if n - 1 > k {
      ScanFirstFinds(b, first, last, k, n - 1);
    }
  }

  lemma {:induction false} ScanLastFinds(b: Bank, first: u32, last: u32, k: nat, n: nat)
    requires b.known && WellFormed(b) && k < n <= |b.start| && SectEnd(b, k) == last >= first
    ensures ScanLast(b, first, last, n) == k
  {
    hide SectEnd;
    SectorsAscend(b, k);
    if n - 1 > k {
      SectorsAscend(b, n - 1);
      ScanLastFinds(b, first, last, k, n - 1);
    }
  }

  /** A range that ends behind the bank has no end in it, and one that starts
      behind the bank touches nothing of it. */
  lemma {:induction false} ScanLastMisses(b: Bank, first: u32, last: u32, n: nat)
    requires b.known && WellFormed(b) && n <= |b.start| && (last > BankEnd(b) || first > BankEnd(b))
    ensures ScanLast(b, first, last, n) == -1
  {
    hide SectEnd;
    if n > 0 {
      SectorsAscend(b, n - 1);
      ScanLastMisses(b, first, last, n - 1);
    }
  }

  lemma {:induction false} ScanFirstMisses(b: Bank, first: u32, last: u32, n: nat)
    requires b.known && WellFormed(b) && n <= |b.start| && first > BankEnd(b)
    ensures ScanFirst(b, first, last, n) == -1
  {
    hide SectEnd;
    if n > 0 {
      SectorsAscend(b, n - 1);
      ScanFirstMisses(b, first, last, n - 1);
    }
  }

  // ------------------------------------------- contiguous banks, "start +len"

  /** All banks known and mapped one behind the other. */
  ghost predicate Contiguous(banks: seq<Bank>) {
    && (forall i :: 0 <= i < |banks| ==> banks[i].known && WellFormed(banks[i]))
    && (forall i :: 0 <= i < |banks| - 1 ==> banks[i + 1].start[0] == BankEnd(banks[i]) + 1)
  }

  predicate Holds(b: Bank, k: nat, a: u32)
    requires k < |b.start|
  {
    b.start[k] <= a <= SectEnd(b, k)
  }

  /** The search of flash_sect_roundb inside one bank: the end of the sector that
      holds the address. */
  function RoundInBank(b: Bank, a: u32, k: nat): Option<u32>
    requires k <= |b.start|
    decreases |b.start| - k
  {
    if k == |b.start| then None
    else if Holds(b, k, a) then Some(SectEnd(b, k))
    else RoundInBank(b, a, k + 1)
  }

  /** flash_sect_roundb. */
  function Roundb(banks: seq<Bank>, a: u32): Option<u32> {
    if banks == [] then None
    else if RoundInBank(banks[0], a, 0).Some? then RoundInBank(banks[0], a, 0)
    else Roundb(banks[1..], a)
  }

  /** The sector of contiguous banks that holds an address. */
  ghost predicate At(banks: seq<Bank>, i: nat, k: nat, a: u32) {
    i < |banks| && k < |banks[i].start| && Holds(banks[i], k, a)
  }

  lemma {:induction false} BanksAscend(banks: seq<Bank>, i: nat, j: nat)
    requires Contiguous(banks) && i < j < |banks|
    ensures BankEnd(banks[i]) < banks[j].start[0]
    decreases j
  {
    hide WellFormed;
    if i < j - 1 {
      BanksAscend(banks, i, j - 1);
      SectorsAscend(banks[j - 1], |banks[j - 1].start| - 1);
    }
  }

  /** Sectors come in the order of their addresses. */
  lemma SectorOrder(banks: seq<Bank>, i: nat, k: nat, j: nat, m: nat)
    requires Contiguous(banks) && i < |banks| && k < |banks[i].start| && j < |banks| && m < |banks[j].start|
    requires i < j || (i == j && k < m)
    ensures SectEnd(banks[i], k) < banks[j].start[m]
  {
    hide WellFormed, SectEnd;
    SectorsAscend(banks[i], k);
    SectorsAscend(banks[j], m);
    if i < j {
      BanksAscend(banks, i, j);
    }
  }

  lemma {:induction false} RoundbFinds(banks: seq<Bank>, i: nat, k: nat, a: u32)
    requires Contiguous(banks) && At(banks, i, k, a)
    ensures Roundb(banks, a) == Some(SectEnd(banks[i], k))
    decreases |banks|
  {
    hide SectEnd;
    if i == 0 {
      RoundInBankFinds(banks[0], k, a, 0);
    } else {
      RoundInBankMisses(banks, i, k, a, 0);
      RoundbFinds(banks[1..], i - 1, k, a);
    }
  }

  lemma {:induction false} RoundInBankFinds(b: Bank, k: nat, a: u32, from: nat)
    requires b.known && WellFormed(b) && from <= k < |b.start| && Holds(b, k, a)
    ensures RoundInBank(b, a, from) == Some(SectEnd(b, k))
    decreases k - from
  {
    hide SectEnd;
    if from < k {
      SectorsAscend(b, from);
      RoundInBankFinds(b, k, a, from + 1);
    }
  }

  lemma {:induction false} RoundInBankMisses(banks: seq<Bank>, i: nat, k: nat, a: u32, from: nat)
    requires Contiguous(banks) && 0 < i && At(banks, i, k, a) && from <= |banks[0].start|
    ensures RoundInBank(banks[0], a, from) == None
    decreases |banks[0].start| - from
  {
    hide SectEnd, WellFormed;
    if from < |banks[0].start| {
      SectorOrder(banks, 0, from, i, k);
      RoundInBankMisses(banks, i, k, a, from + 1);
    }
  }

  lemma ResolveMore(banks: seq<Bank>, first: u32, last: u32)
    requires banks != [] && first <= last
    ensures match ResolveBank(banks[0], first, last)
            case Refused => Resolve(banks, first, last) == None
            case Chosen(pick, next) =>
              var rest := Resolve(banks[1..], next, last);
              Resolve(banks, first, last) == if rest == None then None else Some([pick] + rest.value)
  {}

  /** With both ends on sector boundaries of contiguous banks, the resolver always
      succeeds, and chooses exactly the sectors between them. */
  lemma {:induction false} BoundaryRangeResolves(
    banks: seq<Bank>, i: nat, k: nat, j: nat, m: nat, first: u32, last: u32)
    requires Contiguous(banks) && i < |banks| && k < |banks[i].start| && j < |banks| && m < |banks[j].start|
    requires first == banks[i].start[k] && last == SectEnd(banks[j], m) && (i < j || (i == j && k <= m))
    ensures Resolve(banks, first, last).Some?
    ensures var picks := Resolve(banks, first, last).value;
            && (forall h :: 0 <= h < |banks| && !(i <= h <= j) ==> picks[h] == Skip)
            && (forall h :: i <= h <= j ==>
                  picks[h] == Sectors(if h == i then k else 0, if h == j then m else |banks[h].start| - 1))
    decreases |banks|
  {
    hide SectEnd, WellFormed, ResolveBank, Skips, BankEnd, Resolve;
    var b, tail := banks[0], banks[1..];
    RangeOrder(banks, i, k, j, m);
    ResolveMore(banks, first, last);
    if i > 0 {
      BankBefore(banks, i, k, first, last);
      BoundaryRangeResolves(tail, i - 1, k, j - 1, m, first, last);
    } else if j == 0 {
      BankOfBoth(b, k, m, first, last);
      SectorsAscend(b, m);
      var next := if m == |b.start| - 1 then U32(BankEnd(b) + 1) else b.start[m + 1];
      LastSectorEnd(b);
      NothingLeft(banks, m, next, last);
    } else {
      BankOfStart(banks, k, j, m, first, last);
      SectorsAscend(tail[0], 0);
      BoundaryRangeResolves(tail, 0, 0, j - 1, m, tail[0].start[0], last);
    }
  }

  lemma RangeOrder(banks: seq<Bank>, i: nat, k: nat, j: nat, m: nat)
    requires Contiguous(banks) && i < |banks| && k < |banks[i].start| && j < |banks| && m < |banks[j].start|
    requires i < j || (i == j && k <= m)
    ensures banks[i].start[k] <= SectEnd(banks[j], m)
  {
    hide SectEnd, WellFormed;
    SectorsAscend(banks[j], m);
    SectorsAscend(banks[i], k);
    if i < j || k < m {
      SectorOrder(banks, i, k, j, m);
    }
  }

  lemma BankBefore(banks: seq<Bank>, i: nat, k: nat, first: u32, last: u32)
    requires Contiguous(banks) && 0 < i < |banks| && k < |banks[i].start| && first == banks[i].start[k] <= last
    ensures ResolveBank(banks[0], first, last) == Chosen(Skip, first)
  {
    hide SectEnd, WellFormed;
    var b := banks[0];
    BanksAscend(banks, 0, i);
    SectorsAscend(banks[i], k);
    ScanFirstMisses(b, first, last, |b.start|);
    ScanLastMisses(b, first, last, |b.start|);
  }

  lemma BankOfBoth(b: Bank, k: nat, m: nat, first: u32, last: u32)
    requires b.known && WellFormed(b) && k <= m < |b.start| && first == b.start[k] <= last && last == SectEnd(b, m)
    ensures ResolveBank(b, first, last) ==
            Chosen(Sectors(k, m), if m == |b.start| - 1 then U32(BankEnd(b) + 1) else b.start[m + 1])
  {
    hide SectEnd, WellFormed;
    ScanFirstFinds(b, first, last, k, |b.start|);
    ScanLastFinds(b, first, last, m, |b.start|);
  }

  lemma BankOfStart(banks: seq<Bank>, k: nat, j: nat, m: nat, first: u32, last: u32)
    requires Contiguous(banks) && 0 < j < |banks| && k < |banks[0].start| && m < |banks[j].start|
    requires first == banks[0].start[k] <= last && last == SectEnd(banks[j], m)
    ensures ResolveBank(banks[0], first, last) == Chosen(Sectors(k, |banks[0].start| - 1), banks[1].start[0])
    ensures banks[1].start[0] == BankEnd(banks[0]) + 1
  {
    hide SectEnd, WellFormed;
    var b := banks[0];
    BanksAscend(banks, 0, j);
    SectorsAscend(banks[j], m);
    ScanFirstFinds(b, first, last, k, |b.start|);
    ScanLastMisses(b, first, last, |b.start|);
  }

  lemma NothingLeft(banks: seq<Bank>, m: nat, next: u32, last: u32)
    requires Contiguous(banks) && banks != [] && m < |banks[0].start| && last == SectEnd(banks[0], m)
    requires next == if m == |banks[0].start| - 1 then U32(BankEnd(banks[0]) + 1) else banks[0].start[m + 1]
    ensures Resolve(banks[1..], next, last) == Some(Skips(|banks| - 1))
  {
    hide SectEnd, WellFormed;
    SectorsAscend(banks[0], m);
    LastSectorEnd(banks[0]);
  }

  /** The form "start +len" with start on a sector boundary and the end in flash is
      always accepted, and chooses exactly the sectors that meet the requested
      addresses, in whatever sector the unrounded end falls. */
  lemma StartPlusLength(banks: seq<Bank>, i: nat, k: nat, j: nat, m: nat, first: u32, len: nat)
    requires Contiguous(banks) && i < |banks| && k < |banks[i].start| && first == banks[i].start[k]
    requires len > 0 && first + len <= TWO32 && At(banks, j, m, first + len - 1)
    ensures Roundb(banks, first + len - 1).Some?
    ensures var r := Resolve(banks, first, Roundb(banks, first + len - 1).value);
            && r.Some?
            && forall h, n :: 0 <= h < |banks| && 0 <= n < |banks[h].start| ==>
                 (Picked(r.value[h], n) <==> first <= SectEnd(banks[h], n) && banks[h].start[n] <= first + len - 1)
  {
    hide SectEnd, WellFormed, Resolve, Roundb;
    RoundbFinds(banks, j, m, first + len - 1);
    var last := SectEnd(banks[j], m);
    SectorsAscend(banks[i], k);
    if j < i || (j == i && m < k) {
      SectorOrder(banks, j, m, i, k);
    }
    BoundaryRangeResolves(banks, i, k, j, m, first, last);
    var picks := Resolve(banks, first, last).value;
    forall h, n | 0 <= h < |banks| && 0 <= n < |banks[h].start|
      ensures Picked(picks[h], n) <==> first <= SectEnd(banks[h], n) && banks[h].start[n] <= first + len - 1
    {
      MeetsRange(banks, i, k, j, m, h, n);
    }
  }

  /** A sector is between two others in order exactly when it is in address. */
  lemma MeetsRange(banks: seq<Bank>, i: nat, k: nat, j: nat, m: nat, h: nat, n: nat)
    requires Contiguous(banks) && i < |banks| && k < |banks[i].start| && j < |banks| && m < |banks[j].start|
    requires h < |banks| && n < |banks[h].start|
    ensures banks[i].start[k] <= SectEnd(banks[h], n) <==> i < h || (i == h && k <= n)
    ensures forall a :: Holds(banks[j], m, a) ==> (banks[h].start[n] <= a <==> h < j || (h == j && n <= m))
  {
    hide SectEnd, WellFormed;
    SectorsAscend(banks[i], k);
    SectorsAscend(banks[h], n);
    SectorsAscend(banks[j], m);
    if i < h || (i == h && k < n) {
      SectorOrder(banks, i, k, h, n);
    } else if h < i || n < k {
      SectorOrder(banks, h, n, i, k);
    }
    if h < j || (h == j && n < m) {
      SectorOrder(banks, h, n, j, m);
    } else if j < h || m < n {
      SectorOrder(banks, j, m, h, n);
    }
  }
}
