/** The partition manager itself (common/cmd_mtdparts.c): device objects, the
    global list, the cursor and the three environment variables derived from it.
    Each operation is proved against its abstract step in MtdCursor. */
module MtdManager {
  import opened Arithmetic
  import opened CText
  import opened MtdParts
  import opened MtdParsed
  import opened MtdRoundTrip
  import opened MtdCursor
  import opened MtdPartition

  /** mtddevnum and num_parts are u16. */
  const U16: nat := 0x1_0000

  class MtdDevice {
    const id: MtdId
    var parts: seq<Part>
    var numParts: nat

    constructor (id: MtdId, parts: seq<Part>)
      ensures this.id == id && this.parts == parts && numParts == |parts|
    {
      this.id := id;
      this.parts := parts;
      numParts := |parts|;
    }

    ghost function View(): Device
      reads this`parts
    {
      Device(id, parts)
    }
  }

  ghost function ViewsOf(ds: seq<MtdDevice>): (r: seq<Device>)
    reads ds`parts
    ensures |r| == |ds|
    ensures forall i :: 0 <= i < |ds| ==> r[i] == ds[i].View()
  {
    if ds == [] then [] else [ds[0].View()] + ViewsOf(ds[1..])
  }

  class Manager {
    const env: Env
    var devices: seq<MtdDevice>
    var currentDev: MtdDevice?
    var currentPart: nat
    var mtddevnum: Option<nat>
    var mtddevname: Option<string>
    var partition: Option<string>

    constructor (env: Env)
      ensures this.env == env && Valid() && InSync() && Saved() && devices == []
    {
      this.env := env;
      devices, currentDev, currentPart := [], null, 0;
      mtddevnum, mtddevname, partition := None, None, None;
    }

    ghost function Views(): (r: seq<Device>)
      reads this`devices, devices`parts
    {
      ViewsOf(devices)
    }

    ghost function Abs(): State
      reads this`devices, this`currentDev, this`currentPart, devices`parts
    {
      State(Views(), if currentDev == null then None else Some((currentDev.id, currentPart)))
    }

    /** The lists are proper and the cursor is on a linked partition. */
    ghost predicate Linked()
      reads this`devices, this`currentDev, this`currentPart, devices`parts, devices`numParts
    {
      && (forall i, j :: 0 <= i < j < |devices| ==> devices[i] != devices[j])
      && (forall d <- devices :: d.numParts == |d.parts|)
      && (currentDev != null ==> currentDev in devices && currentPart < |currentDev.parts|)
    }

    ghost predicate Valid()
      reads this`devices, this`currentDev, this`currentPart, devices`parts, devices`numParts
    {
      Linked() && Good(env, Abs())
    }

    /** mtddevnum is the place of the current partition among all partitions, in
        16 bits, and mtddevname is its name. */
    ghost predicate InSync()
      reads this, devices
      requires currentDev != null ==> currentDev in devices
    {
      if currentDev == null then mtddevnum == None && mtddevname == None
      else exists i: nat :: i < |devices| && devices[i] == currentDev && IndexedAt(i)
    }

    /** The `partition` variable says where the cursor is. */
    ghost predicate Saved()
      reads this`currentDev, this`currentPart, this`partition
    {
      partition == if currentDev == null then None else Some(SavedText(currentDev.id, currentPart))
    }

    ghost predicate IndexedAt(i: nat)
      reads this, devices
      requires i < |devices|
    {
      var p := PartsBefore(Views(), i) + currentPart;
      && mtddevnum == Some(p % U16)
      && currentPart < |devices[i].parts|
      && p < |AllParts(Views())| && AllParts(Views())[p] == devices[i].parts[currentPart]
      && mtddevname == Some(devices[i].parts[currentPart].name)
    }

    /** mtd_part_info. */
    method MtdPartInfo(dev: MtdDevice, partNum: nat) returns (r: Option<Part>)
      requires dev.numParts == |dev.parts|
      ensures r == if partNum < |dev.parts| then Some(dev.parts[partNum]) else None
    {
      if partNum >= dev.numParts {
        return None;
      }
      for num := 0 to |dev.parts|
        invariant num <= partNum
      {
        if partNum == num {
          return Some(dev.parts[num]);
        }
      }
      r := None;
    }

    lemma CountStarts()
      ensures PartsBefore(Views(), 0) == 0
      ensures Linked() ==> forall i :: 0 <= i < |devices| ==> devices[i].numParts == |Views()[i].parts|
    {}

    /** The loop of index_partitions: counts the partitions of the devices before. */
    method CountBefore() returns (i: nat, num: nat)
      requires Valid() && currentDev != null
      ensures i < |devices| && devices[i] == currentDev && num == PartsBefore(Views(), i) % U16
    {
      hide Good, PartsBefore;
      CountStarts();
      num, i := 0, 0;
      while i < |devices| && devices[i] != currentDev
        invariant i <= |devices| && currentDev !in devices[..i]
        invariant num == PartsBefore(Views(), i) % U16
      {
        PartsBeforeNext(Views(), i);
        num := (num + devices[i].numParts) % U16;
        i := i + 1;
      }
    }

    method IndexPartitions()
      requires Valid()
      modifies this`mtddevnum, this`mtddevname
      ensures Valid() && InSync() && Abs() == old(Abs())
    {
      hide Good, Linked, PartsBefore, AllParts, ViewsOf, InSync, IndexedAt;
      if currentDev == null {
        mtddevnum, mtddevname := None, None;
        NoIndex();
      } else {
        var i, num := CountBefore();
        CursorFacts(i);
        var part := MtdPartInfo(currentDev, currentPart);
        mtddevnum := Some((num + currentPart) % U16);
        mtddevname := Some(part.value.name);
        Indexed(i, num);
      }
    }

    /** current_save */
    method CurrentSave()
      requires Valid()
      modifies this`mtddevnum, this`mtddevname, this`partition
      ensures Valid() && InSync() && Saved() && Abs() == old(Abs())
    {
      hide Valid, InSync, SavedText, ViewsOf;
      partition := if currentDev == null then None else Some(SavedText(currentDev.id, currentPart));
      IndexPartitions();
    }

    lemma NoIndex()
      requires currentDev == null && mtddevnum == None && mtddevname == None
      ensures InSync()
    {}

    lemma CursorFacts(i: nat)
      requires Valid() && i < |devices| && devices[i] == currentDev
      ensures currentDev.numParts == |currentDev.parts| && currentPart < |currentDev.parts|
      ensures |Views()| == |devices| && Views()[i].parts == currentDev.parts
    {
      hide Good;
    }

    lemma Indexed(i: nat, num: nat)
      requires Valid() && i < |devices| && devices[i] == currentDev && currentPart < |currentDev.parts|
      requires num == PartsBefore(Views(), i) % U16 && mtddevnum == Some((num + currentPart) % U16)
      requires mtddevname == Some(currentDev.parts[currentPart].name)
      ensures InSync()
    {
      hide Good, PartsBefore, AllParts, ViewsOf;
      CursorFacts(i);
      IndexIsPosition(Views(), i, currentPart);
      AddInside(PartsBefore(Views(), i), currentPart, U16);
      assert IndexedAt(i);
    }

    /** Relinks one device's list and sets the partition number of the cursor; the
        other devices are untouched. */
    method Relink(dev: MtdDevice, ghost i: nat, parts: seq<Part>, partNum: nat)
      requires Linked() && i < |devices| && devices[i] == dev
      requires currentDev != null ==> partNum < if currentDev == dev then |parts| else |currentDev.parts|
      modifies this`currentPart, dev
      ensures Linked() && currentPart == partNum
      ensures Views() == old(Views())[i := Device(dev.id, parts)]
    {
      dev.parts, dev.numParts := parts, |parts|;
      currentPart := partNum;
      assert forall k :: 0 <= k < |devices| && k != i ==> devices[k] != dev;
    }

    /** The search of part_sort_add: before which entry the partition goes, unless
        it is a second one at offset 0. */
    method FindPlace(dev: MtdDevice, part: Part) returns (j: nat, clash: bool)
      requires Ascending(dev.parts)
      ensures clash <==> ZeroClash(dev.parts, part)
      ensures !clash ==> j == InsertPos(dev.parts, part)
    {
      j := 0;
      while j < |dev.parts|
        invariant j <= InsertPos(dev.parts, part) <= |dev.parts|
        invariant j > 0 ==> !ZeroClash(dev.parts, part)
      {
        var pi := dev.parts[j];
        if part.offset == pi.offset == 0 {
          return j, true;
        }
        if part.offset <= pi.offset {
          return j, false;
        }
        j := j + 1;
      }
      clash := false;
    }

    /** Where the cursor goes when a partition is linked in front of entry j. */
    method ShiftedCursor(dev: MtdDevice, j: nat) returns (c: nat)
      requires Linked() && dev in devices && Ascending(dev.parts) && j <= |dev.parts| < U8 - 1
      ensures c == if dev == currentDev && j <= currentPart then (currentPart + 1) % U8 else currentPart
      ensures currentDev != null ==> c < |currentDev.parts| + if dev == currentDev then 1 else 0
    {
      c := currentPart;
      if dev == currentDev && j < |dev.parts| {
        var currPi := MtdPartInfo(dev, currentPart);
        OffsetOrder(dev.parts, j, currentPart);
        if dev.parts[j].offset <= currPi.value.offset {
          c := (c + 1) % U8;
        }
      }
    }

    /** Links a partition into a device's list and moves the cursor along. */
    method Link(dev: MtdDevice, ghost i: nat, part: Part) returns (ok: bool)
      requires Linked() && i < |devices| && devices[i] == dev
      requires Ascending(dev.parts) && Distinct(dev.parts, part) && |dev.parts| < U8 - 1
      requires currentDev != null && currentDev != dev ==> currentDev.id != dev.id
      modifies this`currentPart, dev
      ensures Linked() && Abs() == AddPart(old(Abs()), i, part)
      ensures ok <==> !ZeroClash(old(dev.parts), part)
      ensures !ok ==> unchanged(this) && unchanged(dev)
    {
      hide SortAdd, ViewsOf, Ascending, InsertPos, Linked;
      ghost var st := Abs();
      SortAddSplices(dev.parts, part);
      var j, clash := FindPlace(dev, part);
      if clash {
        return false;
      }
      var c := ShiftedCursor(dev, j);
      Relink(dev, i, dev.parts[..j] + [part] + dev.parts[j..], c);
      assert Abs().cur == PushCursor(st.cur, dev.id, j);
      ok := true;
    }

    /** part_sort_add on a listed device. */
    method PartSortAdd(dev: MtdDevice, ghost i: nat, part: Part) returns (ok: bool)
      requires Valid() && i < |devices| && devices[i] == dev
      requires Printable(part) && Validate(env, dev.id, part) == Some(part)
      requires Distinct(dev.parts, part) && |dev.parts| < U8 - 1
      modifies this, dev
      ensures Valid() && devices == old(devices) && Abs() == AddPart(old(Abs()), i, part)
      ensures ok <==> !ZeroClash(old(dev.parts), part)
      ensures if ok then InSync() else unchanged(this) && unchanged(dev)
      ensures old(Saved()) ==> Saved()
    {
      hide *;
      Facts();
      AddPartKeeps(env, Abs(), i, part);
      GoodAt(env, Abs(), i);
      if currentDev != null && currentDev != dev {
        OtherId(i);
      }
      SavedFacts();
      var before := currentPart;
      ok := Link(dev, i, part);
      Facts();
      if currentPart != before {
        CurrentSave();
      } else if ok {
        IndexPartitions();
      }
      SavedFacts();
    }

    /** part_add: validation, then insertion. A refusal changes nothing, so the
        published index is as right as it was. */
    method PartAdd(dev: MtdDevice, ghost i: nat, part: Part) returns (ok: bool)
      requires Valid() && i < |devices| && devices[i] == dev
      requires Printable(part) && Distinct(dev.parts, part) && |dev.parts| < U8 - 1
      modifies this, dev
      ensures Valid() && devices == old(devices)
      ensures Abs() == match Validate(env, dev.id, part)
                       case None => old(Abs())
                       case Some(p) => AddPart(old(Abs()), i, p)
      ensures ok <==> Validate(env, dev.id, part).Some?
                      && !ZeroClash(old(dev.parts), Validate(env, dev.id, part).value)
      ensures if ok then InSync() else unchanged(this) && unchanged(dev)
      ensures old(InSync()) ==> InSync()
      ensures old(Saved()) ==> Saved()
    {
      hide EraseAligned, Valid, InSync, Saved, AddPart;
      var p := PartValidate(env, dev.id, part);
      if p == None {
        return false;
      }
      ValidateSettles(env, dev.id, part);
      ok := PartSortAdd(dev, i, p.value);
    }

    /** Unlinks a device; the current one, once deleted, is replaced by the first. */
    method Unlink(i: nat) returns (reset: bool)
      requires Linked() && i < |devices|
      requires forall d <- devices :: d.parts != []
      requires currentDev != null && currentDev != devices[i] ==> currentDev.id != devices[i].id
      modifies this`devices, this`currentDev, this`currentPart
      ensures Linked() && Abs() == DelDevice(old(Abs()), i)
      ensures devices == old(devices[..i] + devices[i + 1..])
      ensures !reset ==> currentDev == old(currentDev) && currentPart == old(currentPart)
    {
      hide ViewsOf;
      var dev := devices[i];
      RemoveView(devices, i);
      RemoveElements(devices, i);
      devices := devices[..i] + devices[i + 1..];
      reset := dev == currentDev;
      if reset {
        if devices == [] {
          currentDev := null;
        } else {
          currentDev, currentPart := devices[0], 0;
        }
      }
    }

    lemma RemoveElements(ds: seq<MtdDevice>, i: nat)
      requires i < |ds| && forall i, j :: 0 <= i < j < |ds| ==> ds[i] != ds[j]
      ensures var rest := ds[..i] + ds[i + 1..];
              && (forall i, j :: 0 <= i < j < |rest| ==> rest[i] != rest[j])
              && (forall d :: d in rest <==> d in ds && d != ds[i])
    {
      var rest := ds[..i] + ds[i + 1..];
      assert forall k :: 0 <= k < |rest| ==> rest[k] == ds[if k < i then k else k + 1];
      forall d | d in ds && d != ds[i] ensures d in rest {
        var a :| 0 <= a < |ds| && ds[a] == d;
        assert rest[if a < i then a else a - 1] == d;
      }
    }

    /** device_del. */
    method DeviceDel(i: nat)
      requires Valid() && i < |devices|
      modifies this
      ensures Valid() && InSync() && Abs() == DelDevice(old(Abs()), i)
      ensures devices == old(devices[..i] + devices[i + 1..])
      ensures old(Saved()) ==> Saved()
    {
      hide *;
      Facts();
      DelDeviceKeeps(env, Abs(), i);
      if currentDev != null && currentDev != devices[i] {
        OtherId(i);
      }
      NoneEmpty();
      SavedFacts();
      var reset := Unlink(i);
      Facts();
      if reset {
        CurrentSave();
      } else {
        IndexPartitions();
      }
      SavedFacts();
    }

    /** In a state that every operation keeps, the variable leads back to the current
        partition, unless a partition listed before it bears the saved text as a name. */
    lemma SavedIsFound(i: nat)
      requires Valid() && Saved() && i < |devices| && devices[i] == currentDev && Known(currentDev.id)
      ensures partition.Some?
      ensures Find(Views(), partition.value) == Some((i, currentPart))
         <==> FindName(Views(), partition.value) in {None, Some((i, currentPart))}
    {
      hide Good, Find, FindName;
      CursorFacts(i);
      SavedPartitionIsFound(env, Abs(), i, currentPart);
    }

    lemma SavedFacts()
      ensures Saved() <==> partition == if currentDev == null then None
                                        else Some(SavedText(currentDev.id, currentPart))
    {}

    lemma ViewFacts(dev: MtdDevice)
      ensures dev.View().parts == dev.parts && Abs().devs == Views()
      ensures Valid() && devices != [] ==> currentDev != null
    {
      hide GoodTable;
    }

    lemma Facts()
      ensures Valid() <==> Linked() && Good(env, Abs())
      ensures |Abs().devs| == |devices|
      ensures forall i :: 0 <= i < |devices| ==> Abs().devs[i] == Device(devices[i].id, devices[i].parts)
      ensures Linked() ==> forall d <- devices :: d.numParts == |d.parts|
    {}

    lemma NoneEmpty()
      requires Valid()
      ensures forall d <- devices :: d.parts != []
    {
      hide Good;
      forall d | d in devices ensures d.parts != [] {
        var k :| 0 <= k < |devices| && devices[k] == d;
        GoodAt(env, Abs(), k);
      }
    }

    /** Unlinks one of several partitions and moves the cursor along. */
    method Cut(dev: MtdDevice, ghost i: nat, k: nat)
      requires Linked() && i < |devices| && devices[i] == dev && k < |dev.parts|
      requires Ascending(dev.parts) && 1 < |dev.parts| < U8
      requires currentDev != null && currentDev != dev ==> currentDev.id != dev.id
      modifies this`currentPart, dev
      ensures Linked() && Abs() == DelPart(old(Abs()), i, k) && devices == old(devices)
      ensures dev != currentDev ==> currentPart == old(currentPart)
    {
      hide Ascending, ViewsOf, DelDevice, Linked;
      ghost var st := Abs();
      var c := PulledCursor(dev, k);
      Relink(dev, i, dev.parts[..k] + dev.parts[k + 1..], c);
      assert Abs().cur == PullCursor(st.cur, dev.id, k);
    }

    /** part_del of partition k of a device. */
    method PartDel(dev: MtdDevice, i: nat, k: nat)
      requires Valid() && i < |devices| && devices[i] == dev && k < |dev.parts|
      modifies this, dev
      ensures Valid() && InSync() && Abs() == DelPart(old(Abs()), i, k)
      ensures old(Saved()) ==> Saved()
    {
      hide *;
      Facts();
      DelPartKeeps(env, Abs(), i, k);
      GoodAt(env, Abs(), i);
      if dev.numParts == 1 {
        LastPart(Abs(), i, k);
        DeviceDel(i);
      } else {
        if currentDev != null && currentDev != dev {
          OtherId(i);
        }
        SavedFacts();
        Cut(dev, i, k);
        Facts();
        if dev == currentDev {
          CurrentSave();
        } else {
          IndexPartitions();
        }
        SavedFacts();
      }
    }

    lemma LastPart(st: State, i: nat, k: nat)
      requires i < |st.devs| && k < |st.devs[i].parts| == 1
      ensures DelPart(st, i, k) == DelDevice(st, i)
    {}

    /** Where the cursor goes when partition k of a device is deleted. */
    method PulledCursor(dev: MtdDevice, k: nat) returns (c: nat)
      requires Linked() && dev in devices && Ascending(dev.parts) && k < |dev.parts| < U8
      ensures c == if dev != currentDev then currentPart
                   else if currentPart == k then 0 else if k < currentPart then currentPart - 1 else currentPart
      ensures currentDev != null && |dev.parts| > 1 ==> c < |currentDev.parts| - if dev == currentDev then 1 else 0
    {
      c := currentPart;
      if dev == currentDev {
        var currPi := MtdPartInfo(dev, currentPart);
        OffsetOrder(dev.parts, k, currentPart);
        if currPi.value == dev.parts[k] {
          c := 0;
        } else if dev.parts[k].offset <= currPi.value.offset {
          c := (c + U8 - 1) % U8;
        }
      }
    }

    /** Links a device at the end; into an empty list it comes as the current one. */
    method Append(dev: MtdDevice)
      requires Linked() && dev !in devices && dev.numParts == |dev.parts| > 0
      requires devices != [] ==> currentDev != null
      modifies this`devices, this`currentDev, this`currentPart
      ensures Linked() && Abs() == AddDevice(old(Abs()), dev.View()) && devices == old(devices) + [dev]
      ensures old(devices) != [] ==> currentDev == old(currentDev) && currentPart == old(currentPart)
    {
      hide ViewsOf;
      AppendView(devices, dev);
      if devices == [] {
        currentDev, currentPart := dev, 0;
      }
      devices := devices + [dev];
    }

    /** device_add. */
    method DeviceAdd(dev: MtdDevice)
      requires Valid() && dev !in devices && dev.numParts == |dev.parts| < U8
      requires GoodDevice(env, dev.View()) && Unlisted(Views(), dev.View())
      modifies this
      ensures Valid() && InSync() && devices == old(devices) + [dev]
      ensures Abs() == AddDevice(old(Abs()), dev.View())
      ensures old(Saved()) ==> Saved()
    {
      hide *;
      Facts();
      ViewFacts(dev);
      AddDeviceKeeps(env, Abs(), dev.View());
      FirstPart(env, dev.View());
      SavedFacts();
      var first := devices == [];
      Append(dev);
      Facts();
      if first {
        CurrentSave();
      } else {
        IndexPartitions();
      }
      SavedFacts();
    }

    lemma AppendView(ds: seq<MtdDevice>, d: MtdDevice)
      ensures ViewsOf(ds + [d]) == ViewsOf(ds) + [d.View()]
    {
      hide ViewsOf;
    }

    method SetCursor(dev: MtdDevice, k: nat)
      requires Linked() && dev in devices && k < |dev.parts|
      modifies this`currentDev, this`currentPart
      ensures Linked() && Abs() == old(Abs()).(cur := Some((dev.id, k))) && devices == old(devices)
    {
      hide ViewsOf;
      currentDev, currentPart := dev, k;
    }

    /** The end of do_chpart. */
    method Chpart(dev: MtdDevice, ghost i: nat, k: nat)
      requires Valid() && i < |devices| && devices[i] == dev && k < |dev.parts|
      modifies this
      ensures Valid() && InSync() && Saved() && Abs() == old(Abs()).(cur := Some((dev.id, k)))
    {
      hide *;
      Facts();
      SelectKeeps(env, Abs(), i, k);
      SetCursor(dev, k);
      Facts();
      CurrentSave();
    }

    lemma RemoveView(ds: seq<MtdDevice>, i: nat)
      requires i < |ds|
      ensures ViewsOf(ds[..i] + ds[i + 1..]) == ViewsOf(ds)[..i] + ViewsOf(ds)[i + 1..]
    {
      hide ViewsOf;
    }

    lemma OffsetOrder(parts: seq<Part>, j: nat, c: nat)
      requires Ascending(parts) && j < |parts| && c < |parts|
      ensures parts[j].offset <= parts[c].offset <==> j <= c
    {}

    lemma OtherId(i: nat)
      requires Valid() && currentDev != null && i < |devices| && devices[i] != currentDev
      ensures devices[i].id != currentDev.id
    {
      hide GoodDevice;
      var a :| 0 <= a < |devices| && devices[a] == currentDev;
      IdsDiffer(env, Views(), a, i);
    }
  }
}
