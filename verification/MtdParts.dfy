/** The text form of the MTD partition table (common/cmd_mtdparts.c): the parsers
    of `mtdparts=...`, the printer generate_mtdparts, and their round trip. */
module MtdParts {
  import opened CText

  const SIZE_REMAINING: u32 := 0xFFFF_FFFF
  const OFFSET_NOT_SPECIFIED: u32 := 0xFFFF_FFFF
  const MIN_PART_SIZE: u32 := 4096
  const MTD_WRITEABLE_CMD: nat := 1
  const PREFIX := "mtdparts="

  /** One entry of the mtdids list. */
  datatype MtdId = MtdId(devType: nat, num: nat, size: u32, name: string)

  datatype Part = Part(size: u32, offset: u32, name: string, autoName: bool, maskFlags: nat)

  datatype Device = Device(id: MtdId, parts: seq<Part>)

  datatype EraseRegion = EraseRegion(offset: u32, eraseSize: u32, numBlocks: nat)

  /** What get_mtd_device_nm knows about a chip. */
  datatype MtdInfo = MtdInfo(eraseSize: u32, regions: seq<EraseRegion>)

  /** The mtdids list and the chips found for its (type, num) pairs. */
  datatype Env = Env(ids: seq<MtdId>, chips: map<(nat, nat), MtdInfo>)

  // ------------------------------------------------------------------ sizes

  function MemsizeParse(p: string): (r: (u32, string))
    ensures |r.1| <= |p|
    ensures r.0 != 0 ==> |r.1| < |p|
  {
    var (ret, q) := Strtoul(p, 0);
    if At(q) == 'G' || At(q) == 'g' then (U32(ret * 0x4000_0000), q[1..])
    else if At(q) == 'M' || At(q) == 'm' then (U32(ret * 0x10_0000), q[1..])
    else if At(q) == 'K' || At(q) == 'k' then (U32(ret * 0x400), q[1..])
    else (ret, q)
  }

  function MemsizeFormat(size: u32): string {
    if size % 0x4000_0000 == 0 then Numeral(size / 0x4000_0000, 10) + "g"
    else if size % 0x10_0000 == 0 then Numeral(size / 0x10_0000, 10) + "m"
    else if size % 0x400 == 0 then Numeral(size / 0x400, 10) + "k"
    else Numeral(size, 10)
  }

  /** Text that neither extends a printed size nor scales it. */
  predicate EndsSize(rest: string) {
    var c := At(rest);
    !IsDigit(c) && c != 'x' && c != 'G' && c != 'g' && c != 'M' && c != 'm' && c != 'K' && c != 'k'
  }

  /** memsize_parse undoes memsize_format, for every 32-bit size. */
  lemma MemsizeReadsBack(size: u32, rest: string)
    requires EndsSize(rest)
    ensures MemsizeParse(MemsizeFormat(size) + rest) == (size, rest)
  {
    hide Strtoul, Numeral;
    if size % 0x4000_0000 == 0 {
      ScaledReadsBack(size / 0x4000_0000, 'g', 0x4000_0000, rest);
    } else if size % 0x10_0000 == 0 {
      ScaledReadsBack(size / 0x10_0000, 'm', 0x10_0000, rest);
    } else if size % 0x400 == 0 {
      ScaledReadsBack(size / 0x400, 'k', 0x400, rest);
    } else {
      DecimalReadsBack(size, rest);
    }
  }

  lemma ScaledReadsBack(n: u32, suffix: char, scale: nat, rest: string)
    requires (suffix, scale) in {('g', 0x4000_0000), ('m', 0x10_0000), ('k', 0x400)}
    requires n * scale < TWO32
    ensures MemsizeParse(Numeral(n, 10) + [suffix] + rest) == (n * scale, rest)
  {
    hide Strtoul, Numeral;
    var tail := [suffix] + rest;
    assert tail[1..] == rest;
    assert Numeral(n, 10) + [suffix] + rest == Numeral(n, 10) + tail;
    DecimalReadsBack(n, tail);
  }

  // ------------------------------------------------------------- validation

  /** The first address of block j of a region, in 32-bit arithmetic. */
  function BlockStart(r: EraseRegion, j: nat): u32 {
    U32(r.offset + j * r.eraseSize)
  }

  ghost predicate StartsBlock(rs: seq<EraseRegion>, a: u32) {
    exists i, j :: 0 <= i < |rs| && 0 <= j < rs[i].numBlocks && BlockStart(rs[i], j) == a
  }

  ghost predicate EraseAligned(chip: MtdInfo, p: Part) {
    var rs := chip.regions;
    if rs == [] then
      chip.eraseSize != 0 && p.offset % chip.eraseSize == 0 && p.size % chip.eraseSize == 0
    else
      var end := U32(p.offset + p.size);
      && StartsBlock(rs, p.offset)
      && (StartsBlock(rs, end) || end == BlockStart(rs[|rs| - 1], rs[|rs| - 1].numBlocks))
  }

  /** part_validate: the partition with its size resolved, or None. */
  ghost function Validate(env: Env, id: MtdId, part: Part): (r: Option<Part>)
    ensures r.Some? ==> r.value == part.(size := r.value.size)
  {
    var p := if part.size == SIZE_REMAINING then part.(size := U32(id.size - part.offset)) else part;
    if p.offset > id.size then None
    else if U32(p.offset + p.size) <= p.offset then None
    else if U32(p.offset + p.size) > id.size then None
    else if (id.devType, id.num) !in env.chips then None
    else if EraseAligned(env.chips[(id.devType, id.num)], p) then Some(p)
    else None
  }

  lemma NextBlock(r: EraseRegion, j: nat)
    ensures BlockStart(r, j + 1) == U32(BlockStart(r, j) + r.eraseSize)
  {
    assert (j + 1) * r.eraseSize == j * r.eraseSize + r.eraseSize;
    Wraps(r.offset + j * r.eraseSize, r.eraseSize);
  }

  /** The double loop over regions and blocks that looks for address a; on failure
      `start` is left one past the last block. */
  method FindBlock(rs: seq<EraseRegion>, a: u32) returns (found: bool, start: u32)
    requires rs != []
    ensures found <==> StartsBlock(rs, a)
    ensures !found ==> start == BlockStart(rs[|rs| - 1], rs[|rs| - 1].numBlocks)
  {
    start := 0;
    for i := 0 to |rs|
      invariant forall i', j :: 0 <= i' < i && 0 <= j < rs[i'].numBlocks ==> BlockStart(rs[i'], j) != a
      invariant i > 0 ==> start == BlockStart(rs[i - 1], rs[i - 1].numBlocks)
    {
      start := rs[i].offset;
      for j := 0 to rs[i].numBlocks
        invariant start == BlockStart(rs[i], j)
        invariant forall j' :: 0 <= j' < j ==> BlockStart(rs[i], j') != a
      {
        if start == a {
          return true, start;
        }
        NextBlock(rs[i], j);
        start := U32(start + rs[i].eraseSize);
      }
    }
    found := false;
  }

  method PartValidate(env: Env, id: MtdId, part: Part) returns (r: Option<Part>)
    ensures r == Validate(env, id, part)
  {
    hide EraseAligned;
    var p := part;
    if p.size == SIZE_REMAINING {
      p := p.(size := U32(id.size - p.offset));
    }
    if p.offset > id.size || U32(p.offset + p.size) <= p.offset || U32(p.offset + p.size) > id.size {
      return None;
    }
    var ok := PartValidateEraseblock(env, id, p);
    return if ok then Some(p) else None;
  }

  method PartValidateEraseblock(env: Env, id: MtdId, p: Part) returns (ok: bool)
    ensures ok <==> (id.devType, id.num) in env.chips && EraseAligned(env.chips[(id.devType, id.num)], p)
  {
    if (id.devType, id.num) !in env.chips {
      return false;
    }
    var chip := env.chips[(id.devType, id.num)];
    if chip.regions == [] {
      return chip.eraseSize != 0 && p.offset % chip.eraseSize == 0 && p.size % chip.eraseSize == 0;
    }
    var start;
    ok, start := FindBlock(chip.regions, p.offset);
    if ok {
      ok, start := FindBlock(chip.regions, U32(p.offset + p.size));
      ok := ok || start == U32(p.offset + p.size);
    }
  }

  // -------------------------------------------------------------- one part

  datatype PartResult = BadPart | ParsedPart(part: Part, rest: string)

  function AutoName(size: u32, offset: u32): string {
    "0x" + Hex8(size) + "@0x" + Hex8(offset)
  }

  /** part_parse. */
  function PartParse(p: string): (r: PartResult)
    ensures r.ParsedPart? ==> |r.rest| < |p|
  {
    var (size, q) := if At(p) == '-' then (SIZE_REMAINING, p[1..]) else MemsizeParse(p);
    if At(p) != '-' && size < MIN_PART_SIZE then BadPart else
      var (offset, rest) := if At(q) == '@' then MemsizeParse(q[1..]) else (OFFSET_NOT_SPECIFIED, q);
      NamedPart(size, offset, rest)
  }

  /** part_parse from the name on. */
  function NamedPart(size: u32, offset: u32, q: string): (r: PartResult)
    ensures r.ParsedPart? ==> |r.rest| <= |q|
  {
    if At(q) != '(' then PartFlags(Part(size, offset, AutoName(size, offset), true, 0), q) else
    var k := IndexOf(q[1..], ')');
    if k == |q| - 1 || k == 0 then BadPart
    else PartFlags(Part(size, offset, q[1..][..k], false, 0), q[k + 2..])
  }

  /** The end of part_parse: the `ro` option and the separator. */
  function PartFlags(part: Part, p: string): (r: PartResult)
    ensures r.ParsedPart? ==> |r.rest| <= |p|
  {
    var (flags, q) := if "ro" <= p then (MTD_WRITEABLE_CMD, p[2..]) else (0, p);
    if At(q) == ',' then
      if part.size == SIZE_REMAINING then BadPart else ParsedPart(part.(maskFlags := flags), q[1..])
    else if At(q) == ';' || At(q) == '\0' then ParsedPart(part.(maskFlags := flags), q)
    else BadPart
  }

  // ------------------------------------------------------- sorted insertion

  /** part_sort_add on a list of partitions; None is "second partition at offset 0". */
  function SortAdd(parts: seq<Part>, new_: Part): Option<seq<Part>> {
    if parts == [] then Some([new_])
    else if new_.offset == parts[0].offset == 0 then None
    else if new_.offset <= parts[0].offset then Some([new_] + parts)
    else match SortAdd(parts[1..], new_)
      case None => None
      case Some(tail) => Some([parts[0]] + tail)
  }

  function AddAll(parts: seq<Part>, todo: seq<Part>): Option<seq<Part>>
    decreases |todo|
  {
    if todo == [] then Some(parts)
    else match SortAdd(parts, todo[0])
      case None => None
      case Some(more) => AddAll(more, todo[1..])
  }

  predicate Ascending(parts: seq<Part>) {
    forall i, j :: 0 <= i < j < |parts| ==> parts[i].offset < parts[j].offset
  }

  lemma {:induction false} SortAddLast(parts: seq<Part>, new_: Part)
    requires forall q <- parts :: q.offset < new_.offset
    ensures SortAdd(parts, new_) == Some(parts + [new_])
  {
    if parts == [] {
      assert parts + [new_] == [new_];
    } else {
      SortAddLast(parts[1..], new_);
      assert parts + [new_] == [parts[0]] + (parts[1..] + [new_]);
    }
  }

  lemma {:induction false} AscendingAddsInOrder(parts: seq<Part>, todo: seq<Part>)
    requires Ascending(parts + todo)
    ensures AddAll(parts, todo) == Some(parts + todo)
    decreases |todo|
  {
    if todo == [] {
      assert parts + todo == parts;
    } else {
      forall q | q in parts ensures q.offset < todo[0].offset {
        var i :| 0 <= i < |parts| && parts[i] == q;
        assert (parts + todo)[i] == q && (parts + todo)[|parts|] == todo[0];
      }
      SortAddLast(parts, todo[0]);
      assert parts + [todo[0]] + todo[1..] == parts + todo;
      AscendingAddsInOrder(parts + [todo[0]], todo[1..]);
    }
  }

  // ----------------------------------------------------- devices, parsing

  function FindByName(ids: seq<MtdId>, name: string): Option<MtdId> {
    if ids == [] then None
    else if ids[0].name == name then Some(ids[0])
    else FindByName(ids[1..], name)
  }

  function DeviceFind(devs: seq<Device>, devType: nat, num: nat): (r: Option<Device>)
    ensures r == None <==> forall d <- devs :: (d.id.devType, d.id.num) != (devType, num)
  {
    if devs == [] then None
    else if (devs[0].id.devType, devs[0].id.num) == (devType, num) then Some(devs[0])
    else DeviceFind(devs[1..], devType, num)
  }

  /** Where unplaced partitions of a device start; a listed device is never empty. */
  function FirstFree(devs: seq<Device>, id: MtdId): u32 {
    match DeviceFind(devs, id.devType, id.num)
    case None => 0
    case Some(d) => if d.parts == [] then 0 else var q := d.parts[|d.parts| - 1]; U32(q.offset + q.size)
  }

  predicate AtEnd(p: string) {
    At(p) == '\0' || At(p) == ';'
  }

  /** A partition given without an offset starts where the last one ended. */
  function Place(part: Part, offset: u32): Part {
    if part.offset == OFFSET_NOT_SPECIFIED then part.(offset := offset) else part
  }

  /** The loop of device_parse: every partition placed and validated. */
  ghost function ParseParts(env: Env, id: MtdId, p: string, offset: u32): (r: Option<(seq<Part>, string)>)
    ensures r.Some? ==> |r.value.1| <= |p|
    decreases |p|
  {
    if AtEnd(p) then Some(([], p))
    else match PartParse(p)
      case BadPart => None
      case ParsedPart(part, rest) =>
        match Validate(env, id, Place(part, offset))
        case None => None
        case Some(good) => Prepend([good], ParseParts(env, id, rest, U32(good.offset + good.size)))
  }

  function Prepend(parts: seq<Part>, r: Option<(seq<Part>, string)>): Option<(seq<Part>, string)> {
    match r
    case None => None
    case Some((tail, rest)) => Some((parts + tail, rest))
  }

  lemma ParsePartsStep(env: Env, id: MtdId, p: string, offset: u32, part: Part, rest: string)
    requires !AtEnd(p) && PartParse(p) == ParsedPart(part, rest)
    ensures match Validate(env, id, Place(part, offset))
            case None => ParseParts(env, id, p, offset) == None
            case Some(good) =>
              ParseParts(env, id, p, offset) ==
              Prepend([good], ParseParts(env, id, rest, U32(good.offset + good.size)))
  {
    hide PartParse, Validate;
  }

  lemma PrependAll(a: seq<Part>, b: seq<Part>, r: Option<(seq<Part>, string)>)
    ensures Prepend(a, Prepend(b, r)) == Prepend(a + b, r)
    ensures Prepend([], r) == r
  {
    if r.Some? {
      assert a + (b + r.value.0) == a + b + r.value.0;
      assert [] + r.value.0 == r.value.0;
    }
  }

  ghost function ParseDevice(env: Env, devs: seq<Device>, p: string): (r: Option<(Device, string)>)
    ensures r.Some? ==> |r.value.1| < |p|
  {
    var k := IndexOf(p, ':');
    if k == |p| then None
    else match FindByName(env.ids, p[..k])
      case None => None
      case Some(id) =>
        match ParseParts(env, id, p[k + 1..], FirstFree(devs, id))
        case None => None
        case Some((parts, rest)) =>
          if parts == [] then None
          else match AddAll([], parts)
            case None => None
            case Some(sorted) => Some((Device(id, sorted), if At(rest) == ';' then rest[1..] else rest))
  }

  ghost function ParseDevices(env: Env, devs: seq<Device>, p: string): Option<seq<Device>>
    decreases |p|
  {
    if At(p) == '\0' then Some(devs)
    else match ParseDevice(env, devs, p)
      case None => None
      case Some((d, rest)) =>
        if DeviceFind(devs, d.id.devType, d.id.num).Some? then None
        else ParseDevices(env, devs + [d], rest)
  }

  /** parse_mtdparts: the device list it leaves, or None when it fails. */
  ghost function Parse(env: Env, text: string): Option<seq<Device>> {
    if PREFIX <= text && At(text[9..]) != '\0' then ParseDevices(env, [], text[9..]) else None
  }

  /** The partition loop of device_parse, collecting into tmp_list. */
  method PartsParse(env: Env, id: MtdId, p: string, start: u32) returns (r: Option<(seq<Part>, string)>)
    ensures r == ParseParts(env, id, p, start)
  {
    hide PartParse, Validate;
    var q := p;
    var offset: u32 := start;
    var tmpList: seq<Part> := [];
    PrependAll([], [], ParseParts(env, id, q, offset));
    while !AtEnd(q)
      invariant ParseParts(env, id, p, start) == Prepend(tmpList, ParseParts(env, id, q, offset))
      decreases |q|
    {
      var parsed := PartParse(q);
      if parsed.BadPart? {
        assert ParseParts(env, id, q, offset) == None;
        return None;
      }
      var part := parsed.part;
      ParsePartsStep(env, id, q, offset, part, parsed.rest);
      if part.offset == OFFSET_NOT_SPECIFIED {
        part := part.(offset := offset);
      } else {
        offset := part.offset;
      }
      var valid := PartValidate(env, id, part);
      if valid == None {
        return None;
      }
      offset := U32(offset + valid.value.size);
      PrependAll(tmpList, [valid.value], ParseParts(env, id, parsed.rest, offset));
      q, tmpList := parsed.rest, tmpList + [valid.value];
    }
    assert tmpList + [] == tmpList;
    r := Some((tmpList, q));
  }

  /** The loop of device_parse that moves tmp_list into the new device. */
  method MoveParts(tmpList: seq<Part>) returns (r: Option<seq<Part>>)
    ensures r == AddAll([], tmpList)
  {
    var sorted: seq<Part> := [];
    for i := 0 to |tmpList|
      invariant AddAll([], tmpList) == AddAll(sorted, tmpList[i..])
    {
      var more := SortAdd(sorted, tmpList[i]);
      if more == None {
        return None;
      }
      sorted := more.value;
    }
    r := Some(sorted);
  }

  method DeviceParse(env: Env, devs: seq<Device>, p: string) returns (r: Option<(Device, string)>)
    ensures r == ParseDevice(env, devs, p)
  {
    hide ParseParts, AddAll, FindByName, FirstFree, IndexOf;
    var k := IndexOf(p, ':');
    if k == |p| {
      return None;
    }
    var found := FindByName(env.ids, p[..k]);
    if found == None {
      return None;
    }
    var id := found.value;
    var loop := PartsParse(env, id, p[k + 1..], FirstFree(devs, id));
    if loop == None {
      return None;
    }
    var (tmpList, q) := loop.value;
    if tmpList == [] {
      return None;
    }
    var sorted := MoveParts(tmpList);
    if sorted == None {
      return None;
    }
    r := Some((Device(id, sorted.value), if At(q) == ';' then q[1..] else q));
  }

  method ParseMtdparts(env: Env, text: string) returns (r: Option<seq<Device>>)
    ensures r == Parse(env, text)
  {
    if !(PREFIX <= text) {
      return None;
    }
    var p, devs: seq<Device> := text[9..], [];
    var err := true;
    while At(p) != '\0'
      invariant ParseDevices(env, [], text[9..]) == ParseDevices(env, devs, p)
      invariant err ==> p == text[9..]
      invariant !err ==> At(text[9..]) != '\0'
      decreases |p|
    {
      var parsed := DeviceParse(env, devs, p);
      if parsed == None {
        return None;
      }
      var (d, rest) := parsed.value;
      if DeviceFind(devs, d.id.devType, d.id.num).Some? {
        return None;
      }
      p, devs, err := rest, devs + [d], false;
    }
    r := if err then None else Some(devs);
  }
}
