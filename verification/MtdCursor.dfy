/** The partition manager's state (common/cmd_mtdparts.c): device lists that grow
    and shrink under a "current partition" cursor. */
module MtdCursor {
  import opened CText
  import opened MtdParts
  import opened MtdParsed
  import opened MtdRoundTrip

  // -------------------------------------------------------- abstract states

  /** The cursor names its device by its mtdids entry, as the pointer does. */
  datatype State = State(devs: seq<Device>, cur: Option<(MtdId, nat)>)

  /** current_mtd_partnum is a u8. */
  const U8: nat := 0x100

  function InsertPos(parts: seq<Part>, new_: Part): (j: nat)
    ensures j <= |parts|
    ensures forall k :: 0 <= k < j ==> parts[k].offset < new_.offset
    ensures j < |parts| ==> new_.offset <= parts[j].offset
  {
    if parts == [] || new_.offset <= parts[0].offset then 0 else 1 + InsertPos(parts[1..], new_)
  }

  /** part_sort_add on device i. */
  function AddPart(st: State, i: nat, part: Part): State
    requires i < |st.devs|
  {
    var d := st.devs[i];
    match SortAdd(d.parts, part)
    case None => st
    case Some(parts) => State(st.devs[i := Device(d.id, parts)], PushCursor(st.cur, d.id, InsertPos(d.parts, part)))
  }

  function PushCursor(cur: Option<(MtdId, nat)>, id: MtdId, pos: nat): Option<(MtdId, nat)> {
    match cur
    case None => None
    case Some((dev, c)) => if dev == id && pos <= c then Some((dev, (c + 1) % U8)) else cur
  }

  /** part_del of partition k of device i. */
  function DelPart(st: State, i: nat, k: nat): State
    requires i < |st.devs| && k < |st.devs[i].parts|
  {
    var d := st.devs[i];
    if |d.parts| == 1 then DelDevice(st, i)
    else State(st.devs[i := Device(d.id, d.parts[..k] + d.parts[k + 1..])], PullCursor(st.cur, d.id, k))
  }

  function PullCursor(cur: Option<(MtdId, nat)>, id: MtdId, k: nat): Option<(MtdId, nat)> {
    match cur
    case None => None
    case Some((dev, c)) =>
      if dev != id then cur else Some((dev, if c == k then 0 else if k < c then c - 1 else c))
  }

  /** device_del. */
  function DelDevice(st: State, i: nat): State
    requires i < |st.devs|
  {
    var devs := st.devs[..i] + st.devs[i + 1..];
    if st.cur.Some? && st.cur.value.0 == st.devs[i].id then
      State(devs, if devs == [] then None else Some((devs[0].id, 0)))
    else State(devs, st.cur)
  }

  /** device_add. */
  function AddDevice(st: State, d: Device): State {
    State(st.devs + [d], if st.devs == [] then Some((d.id, 0)) else st.cur)
  }

  // --------------------------------------------------------------- invariant

  ghost predicate Points(st: State, i: nat, c: nat) {
    i < |st.devs| && c < |st.devs[i].parts| && st.cur == Some((st.devs[i].id, c))
  }

  /** The table is well formed, fits the cursor's width, and the cursor is on one
      of its partitions (or nowhere when there is none). */
  ghost predicate Good(env: Env, st: State) {
    && GoodTable(env, st.devs)
    && (forall d <- st.devs :: |d.parts| < U8)
    && (st.cur == None <==> st.devs == [])
    && (st.cur.Some? ==> exists i: nat :: Points(st, i, st.cur.value.1))
  }

  /** A validated partition is non-empty, erase-block aligned and inside its
      device, in true (not 32-bit) arithmetic. */
  lemma GoodPartsFit(env: Env, st: State, d: Device, p: Part)
    requires Good(env, st) && d in st.devs && p in d.parts
    ensures 0 < p.size && p.offset + p.size <= d.id.size
    ensures (d.id.devType, d.id.num) in env.chips && EraseAligned(env.chips[(d.id.devType, d.id.num)], p)
    ensures forall i, j :: 0 <= i < |d.parts| && 0 <= j < |d.parts| && d.parts[i].offset == d.parts[j].offset ==> i == j
  {
    hide EraseAligned;
    assert GoodDevice(env, d);
    assert Printable(p) && Validate(env, d.id, p) == Some(p);
    assert U32(p.offset + p.size) > p.offset;
  }

  /** The partition the cursor is on. */
  ghost function Current(st: State): (r: Option<(MtdId, Part)>) {
    if exists i: nat :: st.cur.Some? && Points(st, i, st.cur.value.1) then
      var i: nat :| Points(st, i, st.cur.value.1);
      Some((st.devs[i].id, st.devs[i].parts[st.cur.value.1]))
    else None
  }

  lemma CurrentAt(env: Env, st: State, i: nat, c: nat)
    requires Good(env, st) && Points(st, i, c)
    ensures Current(st) == Some((st.devs[i].id, st.devs[i].parts[c]))
    ensures forall i': nat :: Points(st, i', c) ==> i' == i
  {
    hide GoodDevice;
    forall i': nat | Points(st, i', c) ensures i' == i {
      assert SameKey(st.devs[i], st.devs[i']);
    }
  }

  // ----------------------------------------------------------- one insertion

  /** Offsets are distinct, except that a second partition at 0 may be tried. */
  predicate Distinct(parts: seq<Part>, new_: Part) {
    new_.offset != 0 ==> forall p <- parts :: p.offset != new_.offset
  }

  predicate ZeroClash(parts: seq<Part>, new_: Part) {
    new_.offset == 0 && parts != [] && parts[0].offset == 0
  }

  lemma {:induction false} SortAddSplices(parts: seq<Part>, new_: Part)
    requires Ascending(parts) && Distinct(parts, new_)
    ensures var j := InsertPos(parts, new_);
            SortAdd(parts, new_) ==
            if ZeroClash(parts, new_) then None else Some(parts[..j] + [new_] + parts[j..])
  {
    if parts == [] {
      assert parts[..0] + [new_] + parts[0..] == [new_];
    } else if new_.offset <= parts[0].offset {
      assert parts[..0] + [new_] + parts[0..] == [new_] + parts;
    } else {
      var tail := parts[1..];
      var k := InsertPos(tail, new_);
      SortAddSplices(tail, new_);
      assert parts[..k + 1] == [parts[0]] + tail[..k] && parts[k + 1..] == tail[k..];
      Regroup([parts[0]], tail[..k], [new_], tail[k..]);
    }
  }

  lemma Regroup(a: seq<Part>, b: seq<Part>, c: seq<Part>, d: seq<Part>)
    ensures a + (b + c + d) == a + b + c + d
  {}

  lemma SpliceAscends(parts: seq<Part>, new_: Part)
    requires Ascending(parts) && Distinct(parts, new_) && !ZeroClash(parts, new_)
    ensures var j := InsertPos(parts, new_); Ascending(parts[..j] + [new_] + parts[j..])
  {
    hide InsertPos;
    var j := InsertPos(parts, new_);
    BetweenNeighbours(parts, new_);
    var spliced := parts[..j] + [new_] + parts[j..];
    forall a, b | 0 <= a < b < |spliced| ensures spliced[a].offset < spliced[b].offset {
      assert spliced[a] == if a < j then parts[a] else if a == j then new_ else parts[a - 1];
      assert spliced[b] == if b < j then parts[b] else if b == j then new_ else parts[b - 1];
    }
  }

  lemma BetweenNeighbours(parts: seq<Part>, new_: Part)
    requires Ascending(parts) && Distinct(parts, new_) && !ZeroClash(parts, new_)
    ensures var j := InsertPos(parts, new_);
            && (forall k :: 0 <= k < j ==> parts[k].offset < new_.offset)
            && (forall k :: j <= k < |parts| ==> new_.offset < parts[k].offset)
  {
    var j := InsertPos(parts, new_);
    if j < |parts| {
      assert parts[j] in parts;
      assert new_.offset < parts[j].offset;
    }
  }

  /** Replacing the partitions of one device keeps the table well formed. */
  lemma GoodUpdate(env: Env, devs: seq<Device>, i: nat, parts: seq<Part>)
    requires GoodTable(env, devs) && i < |devs|
    requires parts != [] && Ascending(parts) && GoodParts(env, devs[i].id, parts)
    ensures GoodTable(env, devs[i := Device(devs[i].id, parts)])
  {
    hide GoodParts, Ascending;
    var devs' := devs[i := Device(devs[i].id, parts)];
    assert GoodDevice(env, devs[i]);
    forall d | d in devs' ensures GoodDevice(env, d) {
      if d != devs'[i] {
        assert d in devs;
      }
    }
  }

  lemma GoodAt(env: Env, st: State, i: nat)
    requires Good(env, st) && i < |st.devs|
    ensures var d := st.devs[i];
            GoodDevice(env, d) && d.parts != [] && Ascending(d.parts) && GoodParts(env, d.id, d.parts) && |d.parts| < U8
  {
    assert st.devs[i] in st.devs;
  }

  /** The cursor of a good state, as a device index and a partition number. */
  lemma CursorAt(env: Env, st: State) returns (a: nat, c: nat)
    requires Good(env, st) && st.cur.Some?
    ensures Points(st, a, c) && Current(st) == Some((st.devs[a].id, st.devs[a].parts[c]))
  {
    c := st.cur.value.1;
    a :| Points(st, a, c);
    CurrentAt(env, st, a, c);
  }

  /** Device ids tell the devices of a table apart. */
  lemma IdsDiffer(env: Env, devs: seq<Device>, i: nat, j: nat)
    requires GoodTable(env, devs) && i < |devs| && j < |devs| && i != j
    ensures devs[i].id != devs[j].id
  {
    hide GoodDevice;
    assert i < j ==> !SameKey(devs[i], devs[j]);
    assert j < i ==> !SameKey(devs[j], devs[i]);
  }

  /** The state after an insertion at place j of list i. */
  function Added(st: State, i: nat, part: Part, j: nat): State
    requires i < |st.devs| && j <= |st.devs[i].parts|
  {
    var d := st.devs[i];
    State(st.devs[i := Device(d.id, d.parts[..j] + [part] + d.parts[j..])], PushCursor(st.cur, d.id, j))
  }

  /** Wherever the new partition goes, the cursor follows. */
  lemma AddedKeepsCurrent(env: Env, st: State, i: nat, part: Part, j: nat)
    requires Good(env, st) && i < |st.devs| && j <= |st.devs[i].parts| < U8 - 1
    requires GoodTable(env, Added(st, i, part, j).devs)
    ensures Good(env, Added(st, i, part, j)) && Current(Added(st, i, part, j)) == Current(st)
  {
    hide GoodTable;
    if st.cur.Some? {
      var st', d := Added(st, i, part, j), st.devs[i];
      var a, c := CursorAt(env, st);
      if a != i {
        IdsDiffer(env, st.devs, a, i);
        assert Points(st', a, c);
        CurrentAt(env, st', a, c);
      } else {
        var c' := if j <= c then c + 1 else c;
        assert Points(st', i, c') && st'.devs[i].parts[c'] == d.parts[c];
        CurrentAt(env, st', i, c');
      }
    }
  }

  /** Inserting a validated partition keeps the state good and the cursor on the
      same partition, though its number may change. */
  lemma AddPartKeeps(env: Env, st: State, i: nat, part: Part)
    requires Good(env, st) && i < |st.devs|
    requires Printable(part) && Validate(env, st.devs[i].id, part) == Some(part)
    requires Distinct(st.devs[i].parts, part) && |st.devs[i].parts| < U8 - 1
    ensures Good(env, AddPart(st, i, part))
    ensures Current(AddPart(st, i, part)) == Current(st)
  {
    hide Validate, Printable, SortAdd, Ascending, GoodTable, GoodDevice, PushCursor, Current, ZeroClash;
    var d := st.devs[i];
    GoodAt(env, st, i);
    SortAddSplices(d.parts, part);
    if !ZeroClash(d.parts, part) {
      var j := InsertPos(d.parts, part);
      SpliceAscends(d.parts, part);
      GoodUpdate(env, st.devs, i, d.parts[..j] + [part] + d.parts[j..]);
      AddedKeepsCurrent(env, st, i, part, j);
    }
  }

  // ------------------------------------------------------------ one deletion

  lemma GoodRemove(env: Env, devs: seq<Device>, i: nat)
    requires GoodTable(env, devs) && i < |devs|
    ensures GoodTable(env, devs[..i] + devs[i + 1..])
  {
    hide GoodDevice;
    var devs' := devs[..i] + devs[i + 1..];
    assert forall k :: 0 <= k < |devs'| ==> devs'[k] == devs[if k < i then k else k + 1];
  }

  lemma DelDeviceKeeps(env: Env, st: State, i: nat)
    requires Good(env, st) && i < |st.devs|
    ensures var st' := DelDevice(st, i);
            && Good(env, st')
            && (if st.cur.value.0 != st.devs[i].id then Current(st') == Current(st)
                else if st'.devs == [] then Current(st') == None
                else Current(st') == Some((st'.devs[0].id, st'.devs[0].parts[0])))
  {
    var st' := DelDevice(st, i);
    var a, c := CursorAt(env, st);
    GoodRemove(env, st.devs, i);
    if a != i {
      hide GoodTable;
      IdsDiffer(env, st.devs, a, i);
      var a' := if a < i then a else a - 1;
      assert st'.devs[a'] == st.devs[a];
      assert Points(st', a', c);
      CurrentAt(env, st', a', c);
    } else if st'.devs != [] {
      assert st'.devs[0] in st'.devs && GoodDevice(env, st'.devs[0]);
      hide GoodTable;
      FirstPart(env, st'.devs[0]);
      assert Points(st', 0, 0);
      CurrentAt(env, st', 0, 0);
    }
  }

  lemma FirstPart(env: Env, d: Device)
    requires GoodDevice(env, d)
    ensures |d.parts| > 0
  {}

  lemma RemovePart(env: Env, id: MtdId, parts: seq<Part>, k: nat)
    requires Ascending(parts) && GoodParts(env, id, parts) && k < |parts|
    ensures var rest := parts[..k] + parts[k + 1..]; Ascending(rest) && GoodParts(env, id, rest)
  {
    hide Validate, Printable;
    var rest := parts[..k] + parts[k + 1..];
    assert forall n :: 0 <= n < |rest| ==> rest[n] == parts[if n < k then n else n + 1];
  }

  /** Deleting a partition keeps the state good. The cursor stays on its partition
      unless that one is deleted; then it goes to the first partition of the same
      device or, with the device gone, of the first device left. */
  lemma DelPartKeeps(env: Env, st: State, i: nat, k: nat)
    requires Good(env, st) && i < |st.devs| && k < |st.devs[i].parts|
    ensures var st' := DelPart(st, i, k);
            && Good(env, st')
            && (if !Points(st, i, k) then Current(st') == Current(st)
                else if st'.devs == [] then Current(st') == None
                else var n := if |st.devs[i].parts| == 1 then 0 else i;
                  Current(st') == Some((st'.devs[n].id, st'.devs[n].parts[0])))
  {
    hide GoodParts, DelDevice, GoodTable, GoodDevice, Ascending;
    var st', d := DelPart(st, i, k), st.devs[i];
    GoodAt(env, st, i);
    var a, c := CursorAt(env, st);
    if a != i {
      IdsDiffer(env, st.devs, a, i);
    }
    if |d.parts| == 1 {
      assert a == i ==> c == 0;
      CurrentAt(env, st, a, c);
      DelDeviceKeeps(env, st, i);
    } else {
      var parts := d.parts[..k] + d.parts[k + 1..];
      RemovePart(env, d.id, d.parts, k);
      GoodUpdate(env, st.devs, i, parts);
      if a != i {
        assert Points(st', a, c);
        CurrentAt(env, st', a, c);
      } else {
        var c' := if c == k then 0 else if k < c then c - 1 else c;
        assert Points(st', i, c');
        CurrentAt(env, st', i, c');
      }
    }
  }

  // --------------------------------------------------------- adding a device

  lemma AddDeviceKeeps(env: Env, st: State, d: Device)
    requires Good(env, st) && GoodDevice(env, d) && |d.parts| < U8 && Unlisted(st.devs, d)
    ensures Good(env, AddDevice(st, d))
    ensures Current(AddDevice(st, d)) == if st.devs == [] then Some((d.id, d.parts[0])) else Current(st)
  {
    FirstPart(env, d);
    hide GoodDevice;
    var st' := AddDevice(st, d);
    if st.devs == [] {
      assert st'.devs == [d];
      assert Points(st', 0, 0);
      CurrentAt(env, st', 0, 0);
    } else {
      var a, c := CursorAt(env, st);
      assert Points(st', a, c);
      CurrentAt(env, st', a, c);
    }
  }

  // -------------------------------------------------------------------- runs

  /** `mtdparts add` (with the device that device_parse made of its arguments),
      `mtdparts del` and `chpart`, the last two after their argument was resolved. */
  datatype Op = Add(d: Device) | Delete(i: nat, k: nat) | Select(i: nat, k: nat)

  function DeviceIndex(devs: seq<Device>, d: Device): (i: nat)
    ensures i <= |devs|
    ensures i == |devs| <==> Unlisted(devs, d)
    ensures i < |devs| ==> SameKey(devs[i], d)
  {
    if devs == [] || SameKey(devs[0], d) then 0 else 1 + DeviceIndex(devs[1..], d)
  }

  ghost function Step(env: Env, st: State, op: Op): State {
    match op
    case Add(d) =>
      var i := DeviceIndex(st.devs, d);
      if i == |st.devs| then AddDevice(st, d)
      else if d.parts == [] then st
      else (match Validate(env, st.devs[i].id, d.parts[0])
            case None => st
            case Some(part) => AddPart(st, i, part))
    case Delete(i, k) => if i < |st.devs| && k < |st.devs[i].parts| then DelPart(st, i, k) else st
    case Select(i, k) =>
      if i < |st.devs| && k < |st.devs[i].parts| then st.(cur := Some((st.devs[i].id, k))) else st
  }

  /** Offsets stay distinct within a device, and partitions countable in a u8. */
  ghost predicate Admissible(env: Env, st: State, op: Op) {
    match op
    case Add(d) =>
      && GoodDevice(env, d) && |d.parts| < U8
      && (var i := DeviceIndex(st.devs, d);
          i < |st.devs| ==> Distinct(st.devs[i].parts, d.parts[0]) && |st.devs[i].parts| < U8 - 1)
    case _ => true
  }

  ghost function Run(env: Env, st: State, ops: seq<Op>): State
    decreases |ops|
  {
    if ops == [] then st else Run(env, Step(env, st, ops[0]), ops[1..])
  }

  ghost predicate AdmissibleRun(env: Env, st: State, ops: seq<Op>)
    decreases |ops|
  {
    ops != [] ==> Admissible(env, st, ops[0]) && AdmissibleRun(env, Step(env, st, ops[0]), ops[1..])
  }

  /** No step of the run moves the cursor on purpose or deletes what it is on. */
  ghost predicate Undisturbed(env: Env, st: State, ops: seq<Op>)
    decreases |ops|
  {
    ops != [] ==>
      && !ops[0].Select?
      && !(ops[0].Delete? && Points(st, ops[0].i, ops[0].k))
      && Undisturbed(env, Step(env, st, ops[0]), ops[1..])
  }

  lemma StepKeeps(env: Env, st: State, op: Op)
    requires Good(env, st) && Admissible(env, st, op)
    ensures Good(env, Step(env, st, op))
    ensures !op.Select? && !(op.Delete? && Points(st, op.i, op.k)) && st.devs != [] ==>
              Current(Step(env, st, op)) == Current(st) && Step(env, st, op).devs != []
  {
    hide Validate, AddPart, DelPart, AddDevice, GoodTable, Points, Current;
    match op
    case Add(d) =>
      var i := DeviceIndex(st.devs, d);
      if i == |st.devs| {
        AddDeviceKeeps(env, st, d);
      } else {
        AddKeeps(env, st, i, d);
      }
      if st.devs != [] {
        StepStaysNonEmpty(env, st, op);
      }
    case Delete(i, k) =>
      if i < |st.devs| && k < |st.devs[i].parts| {
        DelPartKeeps(env, st, i, k);
        StepStaysNonEmpty(env, st, op);
      }
    case Select(i, k) =>
      if i < |st.devs| && k < |st.devs[i].parts| {
        SelectKeeps(env, st, i, k);
      }
  }

  lemma StepStaysNonEmpty(env: Env, st: State, op: Op)
    requires Good(env, st) && Admissible(env, st, op) && !op.Select? && st.devs != []
    ensures !(op.Delete? && Points(st, op.i, op.k)) ==> Step(env, st, op).devs != []
  {
    hide Validate, GoodDevice;
    if op.Delete? && op.i < |st.devs| && op.k < |st.devs[op.i].parts| && |st.devs| == 1 {
      var a, c := CursorAt(env, st);
      assert a == 0 && (op.k != c || Points(st, op.i, op.k));
    }
  }

  lemma AddKeeps(env: Env, st: State, i: nat, d: Device)
    requires Good(env, st) && Admissible(env, st, Add(d)) && i == DeviceIndex(st.devs, d) < |st.devs|
    ensures Good(env, Step(env, st, Add(d))) && Current(Step(env, st, Add(d))) == Current(st)
  {
    hide GoodTable, Points, Current, AddPart;
    var part := d.parts[0];
    assert Printable(part);
    if Validate(env, st.devs[i].id, part).Some? {
      ValidateSettles(env, st.devs[i].id, part);
      AddPartKeeps(env, st, i, Validate(env, st.devs[i].id, part).value);
    }
  }

  lemma SelectKeeps(env: Env, st: State, i: nat, k: nat)
    requires Good(env, st) && i < |st.devs| && k < |st.devs[i].parts|
    ensures var st' := st.(cur := Some((st.devs[i].id, k)));
            Good(env, st') && Current(st') == Some((st.devs[i].id, st.devs[i].parts[k]))
  {
    var st' := st.(cur := Some((st.devs[i].id, k)));
    assert Points(st', i, k);
    CurrentAt(env, st', i, k);
  }

  /** Every admissible run of adds, deletes and selections keeps the state good. */
  lemma {:induction false} RunKeeps(env: Env, st: State, ops: seq<Op>)
    requires Good(env, st) && AdmissibleRun(env, st, ops)
    ensures Good(env, Run(env, st, ops))
    decreases |ops|
  {
    hide Good, Step, Admissible;
    if ops != [] {
      StepKeeps(env, st, ops[0]);
      RunKeeps(env, Step(env, st, ops[0]), ops[1..]);
    }
  }

  /** Through any such run the cursor stays on the same partition unless a step
      selects another one or deletes it. */
  lemma {:induction false} RunTracksCurrent(env: Env, st: State, ops: seq<Op>)
    requires Good(env, st) && AdmissibleRun(env, st, ops) && Undisturbed(env, st, ops) && st.devs != []
    ensures Current(Run(env, st, ops)) == Current(st)
    decreases |ops|
  {
    hide Good, Step, Admissible, Current, Points;
    if ops != [] {
      StepKeeps(env, st, ops[0]);
      RunTracksCurrent(env, Step(env, st, ops[0]), ops[1..]);
    }
  }

  // ---------------------------------------------------------------- indexing

  /** All partitions, device after device. */
  function AllParts(devs: seq<Device>): seq<Part> {
    if devs == [] then [] else devs[0].parts + AllParts(devs[1..])
  }

  /** How many partitions come before device i. */
  function PartsBefore(devs: seq<Device>, i: nat): nat
    requires i <= |devs|
  {
    if i == 0 then 0 else |devs[0].parts| + PartsBefore(devs[1..], i - 1)
  }

  lemma {:induction false} IndexIsPosition(devs: seq<Device>, i: nat, c: nat)
    requires i < |devs| && c < |devs[i].parts|
    ensures PartsBefore(devs, i) + c < |AllParts(devs)|
    ensures AllParts(devs)[PartsBefore(devs, i) + c] == devs[i].parts[c]
  {
    if i > 0 {
      IndexIsPosition(devs[1..], i - 1, c);
    }
  }

  lemma {:induction false} PartsBeforeNext(devs: seq<Device>, i: nat)
    requires i < |devs|
    ensures PartsBefore(devs, i + 1) == PartsBefore(devs, i) + |devs[i].parts|
  {
    if i > 0 {
      PartsBeforeNext(devs[1..], i - 1);
    }
  }
}
