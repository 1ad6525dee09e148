/** generate_mtdparts and the theorem that its text is parsed back to the same
    device list (common/cmd_mtdparts.c). */
module MtdRoundTrip {
  import opened CText
  import opened MtdParts

  // ---------------------------------------------------------------- printing

  /** An offset is printed only where the partition does not start at the end of
      the one before it (or at 0 when it is the first). */
  predicate Gap(prev: Option<Part>, part: Part) {
    match prev
    case None => part.offset != 0
    case Some(q) => U32(q.offset + q.size) != part.offset
  }

  function OffsetText(part: Part, gap: bool): string {
    if gap then "@" + MemsizeFormat(part.offset) else ""
  }

  /** What follows size and offset: name, read-only flag, separator. */
  function NameText(part: Part): string {
    if part.autoName then "" else "(" + part.name + ")"
  }

  function FlagText(part: Part, more: bool): string {
    (if part.maskFlags != 0 then "ro" else "") + (if more then "," else "")
  }

  function PartText(part: Part, gap: bool, more: bool): string {
    MemsizeFormat(part.size) + OffsetText(part, gap) + NameText(part) + FlagText(part, more)
  }

  function PartsText(prev: Option<Part>, parts: seq<Part>): string
    decreases |parts|
  {
    if parts == [] then ""
    else PartText(parts[0], Gap(prev, parts[0]), |parts| > 1) + PartsText(Some(parts[0]), parts[1..])
  }

  function DeviceText(d: Device): string {
    d.id.name + ":" + PartsText(None, d.parts)
  }

  function DevicesText(devs: seq<Device>): string {
    if devs == [] then ""
    else DeviceText(devs[0]) + (if |devs| > 1 then ";" else "") + DevicesText(devs[1..])
  }

  function MtdText(devs: seq<Device>): string {
    if devs == [] then "" else PREFIX + DevicesText(devs)
  }

  /** The inner loop of generate_mtdparts. */
  method GenerateParts(parts: seq<Part>) returns (buf: string)
    ensures buf == PartsText(None, parts)
  {
    hide PartText;
    buf := "";
    var prevPart: Option<Part> := None;
    for partCnt := 0 to |parts|
      invariant buf + PartsText(prevPart, parts[partCnt..]) == PartsText(None, parts)
    {
      var part := parts[partCnt];
      var gap := prevPart.None? && part.offset != 0;
      if prevPart.Some? && U32(prevPart.value.offset + prevPart.value.size) != part.offset {
        gap := true;
      }
      ghost var tail := PartsText(Some(part), parts[partCnt + 1..]);
      assert parts[partCnt..][1..] == parts[partCnt + 1..];
      var text := GeneratePart(part, gap, |parts| > partCnt + 1);
      assert PartsText(prevPart, parts[partCnt..]) == text + tail;
      Assoc(buf, text, tail);
      buf := buf + text;
      prevPart := Some(part);
    }
    assert buf + "" == buf;
  }

  /** The body of that loop: one partition definition and its separator. */
  method GeneratePart(part: Part, gap: bool, more: bool) returns (p: string)
    ensures p == PartText(part, gap, more)
  {
    hide MemsizeFormat;
    p := MemsizeFormat(part.size);
    var offset, name, flag := "", "", "";
    if gap {
      offset := "@" + MemsizeFormat(part.offset);
    }
    if !part.autoName {
      name := "(" + part.name + ")";
    }
    if part.maskFlags != 0 {
      flag := "ro";
    }
    if more {
      flag := flag + ",";
    }
    p := p + offset + name + flag;
  }

  method GenerateMtdparts(devices: seq<Device>) returns (buf: string)
    ensures buf == MtdText(devices)
  {
    hide PartsText;
    if devices == [] {
      return "";
    }
    buf := PREFIX;
    for i := 0 to |devices|
      invariant buf + DevicesText(devices[i..]) == PREFIX + DevicesText(devices)
    {
      ghost var tail := DevicesText(devices[i + 1..]);
      assert devices[i..][1..] == devices[i + 1..];
      var text := devices[i].id.name + ":";
      var parts := GenerateParts(devices[i].parts);
      text := text + parts;
      var separator := if i + 1 < |devices| then ";" else "";
      assert DevicesText(devices[i..]) == text + separator + tail;
      Assoc(buf, text + separator, tail);
      buf := buf + (text + separator);
    }
    assert buf + "" == buf;
  }

  // -------------------------------------------------------------- one part

  /** part_parse takes sizes of at least 4096, and takes the remaining-space size
      only in last position. */
  predicate Reparsable(part: Part, more: bool) {
    MIN_PART_SIZE <= part.size && (part.size == SIZE_REMAINING ==> !more)
  }

  predicate Printable(part: Part) {
    && part.offset != OFFSET_NOT_SPECIFIED
    && (part.autoName || (part.name != "" && ')' !in part.name))
    && part.maskFlags in {0, MTD_WRITEABLE_CMD}
  }

  /** The partition as part_parse sees it, before its offset is worked out. */
  function Reread(part: Part, gap: bool): Part {
    var offset := if gap then part.offset else OFFSET_NOT_SPECIFIED;
    part.(offset := offset, name := if part.autoName then AutoName(part.size, offset) else part.name)
  }

  lemma FlagsReadBack(part: Part, more: bool, rest: string)
    requires part.maskFlags in {0, MTD_WRITEABLE_CMD}
    requires !more ==> AtEnd(rest)
    ensures PartFlags(part.(maskFlags := 0), FlagText(part, more) + rest) ==
            if more && part.size == SIZE_REMAINING then BadPart else ParsedPart(part, rest)
    ensures EndsSize(FlagText(part, more) + rest)
    ensures At(FlagText(part, more) + rest) != '@' && At(FlagText(part, more) + rest) != '('
  {
    var q := (if more then "," else "") + rest;
    var p := FlagText(part, more) + rest;
    if more {
      assert q[0] == ',' && q[1..] == rest;
    } else {
      assert q == rest;
    }
    if part.maskFlags == 0 {
      assert p == q;
    } else {
      assert p == "ro" + q;
      assert p[2..] == q;
    }
  }

  lemma NameReadsBack(part: Part, rest: string)
    requires part.autoName || (part.name != "" && ')' !in part.name)
    requires EndsSize(rest) && At(rest) != '@' && At(rest) != '('
    ensures EndsSize(NameText(part) + rest) && At(NameText(part) + rest) != '@'
    ensures part.autoName ==> NameText(part) + rest == rest
    ensures !part.autoName ==>
              var q := NameText(part) + rest;
              At(q) == '(' && IndexOf(q[1..], ')') == |part.name| < |q| - 1 &&
              q[1..][..|part.name|] == part.name && q[|part.name| + 2..] == rest
  {
    if !part.autoName {
      var q := NameText(part) + rest;
      assert q[1..] == part.name + [')'] + rest;
      IndexOfFirst(part.name, ')', rest);
    }
  }

  lemma PartReadsBack(part: Part, gap: bool, more: bool, rest: string)
    requires Printable(part)
    requires !more ==> AtEnd(rest)
    ensures PartParse(PartText(part, gap, more) + rest) ==
            if Reparsable(part, more) then ParsedPart(Reread(part, gap), rest) else BadPart
  {
    hide MemsizeParse, MemsizeFormat, OffsetText, NameText, PartFlags, EndsSize, AutoName, NamedPart, FlagText, Reread;
    var flags := FlagText(part, more) + rest;
    var name := NameText(part) + flags;
    var offset := OffsetText(part, gap) + name;
    Nest(MemsizeFormat(part.size), OffsetText(part, gap), NameText(part), FlagText(part, more), rest);
    NamedPartReadsBack(part, gap, more, rest);
    OffsetReadsBack(part, gap, name);
    MemsizeReadsBack(part.size, offset);
    SizeStartsWithDigit(part.size);
    assert At(MemsizeFormat(part.size) + offset) == MemsizeFormat(part.size)[0];
  }

  lemma NamedPartReadsBack(part: Part, gap: bool, more: bool, rest: string)
    requires Printable(part)
    requires !more ==> AtEnd(rest)
    ensures var q := NameText(part) + (FlagText(part, more) + rest);
            && EndsSize(q) && At(q) != '@'
            && NamedPart(part.size, Reread(part, gap).offset, q)
                 == if more && part.size == SIZE_REMAINING then BadPart else ParsedPart(Reread(part, gap), rest)
  {
    hide NameText, PartFlags, EndsSize, AutoName;
    FlagsReadBack(Reread(part, gap), more, rest);
    NameReadsBack(part, FlagText(part, more) + rest);
  }

  lemma OffsetReadsBack(part: Part, gap: bool, rest: string)
    requires EndsSize(rest) && At(rest) != '@'
    ensures var q := OffsetText(part, gap) + rest;
            && EndsSize(q)
            && (if At(q) == '@' then MemsizeParse(q[1..]) else (OFFSET_NOT_SPECIFIED, q))
               == (Reread(part, gap).offset, rest)
  {
    if gap {
      var q := OffsetText(part, gap) + rest;
      assert q[1..] == MemsizeFormat(part.offset) + rest;
      MemsizeReadsBack(part.offset, rest);
    } else {
      assert "" + rest == rest;
    }
  }

  lemma Nest(a: string, b: string, c: string, d: string, rest: string)
    ensures a + b + c + d + rest == a + (b + (c + (d + rest)))
  {
    Assoc(a, b, c);
    Assoc(a, b + c, d);
    Assoc(a, b + c + d, rest);
    Assoc(b, c, d);
    Assoc(b, c + d, rest);
    Assoc(c, d, rest);
  }

  lemma SizeStartsWithDigit(size: u32)
    ensures MemsizeFormat(size) != "" && IsXDigit(MemsizeFormat(size)[0])
  {}

  // ---------------------------------------------------- all parts of a device

  /** Only generated names may differ: a printed table holds no such names, and
      they are made again from the text that is parsed. */
  predicate SamePart(p: Part, q: Part) {
    q == p.(name := q.name) && (!p.autoName ==> q.name == p.name)
  }

  predicate SameParts(ps: seq<Part>, qs: seq<Part>) {
    |ps| == |qs| && forall i :: 0 <= i < |ps| ==> SamePart(ps[i], qs[i])
  }

  predicate AllReparsable(parts: seq<Part>) {
    forall i :: 0 <= i < |parts| ==> Reparsable(parts[i], i + 1 < |parts|)
  }

  ghost predicate GoodParts(env: Env, id: MtdId, parts: seq<Part>) {
    forall p <- parts :: Printable(p) && Validate(env, id, p) == Some(p)
  }

  function EndOf(prev: Option<Part>): u32 {
    match prev
    case None => 0
    case Some(q) => U32(q.offset + q.size)
  }

  /** Validation does not look at names. */
  lemma ValidateIgnoresName(env: Env, id: MtdId, p: Part, name: string)
    requires Validate(env, id, p) == Some(p)
    ensures Validate(env, id, p.(name := name)) == Some(p.(name := name))
  {
    var chip := env.chips[(id.devType, id.num)];
    assert EraseAligned(chip, p) == EraseAligned(chip, p.(name := name));
  }

  /** An offset that was not printed is recovered from the partition before. */
  lemma PlacedPart(env: Env, id: MtdId, prev: Option<Part>, part: Part)
    requires Printable(part) && Validate(env, id, part) == Some(part)
    ensures var good := Place(Reread(part, Gap(prev, part)), EndOf(prev));
            && SamePart(part, good) && Validate(env, id, good) == Some(good)
            && U32(good.offset + good.size) == EndOf(Some(part))
  {
    hide Validate, AutoName;
    var good := Place(Reread(part, Gap(prev, part)), EndOf(prev));
    assert good == part.(name := good.name);
    ValidateIgnoresName(env, id, part, good.name);
  }

  /** Parsing the printed partitions of one device succeeds exactly when every
      size is one the parser takes, and then gives them back. */
  lemma {:induction false} PartsReadBack(env: Env, id: MtdId, prev: Option<Part>, parts: seq<Part>, rest: string)
    requires GoodParts(env, id, parts) && AtEnd(rest)
    ensures var r := ParseParts(env, id, PartsText(prev, parts) + rest, EndOf(prev));
            if AllReparsable(parts) then r.Some? && SameParts(parts, r.value.0) && r.value.1 == rest
            else r == None
    decreases |parts|
  {
    hide PartParse, Validate, PartText, Reparsable, Gap, Reread, Place, EndOf, SameParts, Printable, AllReparsable;
    if parts == [] {
      assert "" + rest == rest;
      NoParts();
    } else {
      var part, more := parts[0], |parts| > 1;
      var gap := Gap(prev, part);
      var tail := PartsText(Some(part), parts[1..]) + rest;
      var text := PartsText(prev, parts) + rest;
      assert text == PartText(part, gap, more) + tail by {
        Assoc(PartText(part, gap, more), PartsText(Some(part), parts[1..]), rest);
      }
      PartReadsBack(part, gap, more, tail);
      assert !AtEnd(text) by { PartTextStarts(part, gap, more, tail); }
      LaterReparsable(parts);
      if Reparsable(part, more) {
        PlacedPart(env, id, prev, part);
        ParsePartsStep(env, id, text, EndOf(prev), Reread(part, gap), tail);
        PartsReadBack(env, id, Some(part), parts[1..], rest);
        if AllReparsable(parts[1..]) {
          var good := Place(Reread(part, gap), EndOf(prev));
          SameCons(parts, good, ParseParts(env, id, tail, EndOf(Some(part))).value.0);
        }
      }
    }
  }

  lemma NoParts()
    ensures SameParts([], []) && AllReparsable([])
  {}

  lemma SameCons(parts: seq<Part>, q: Part, qs: seq<Part>)
    requires parts != [] && SamePart(parts[0], q) && SameParts(parts[1..], qs)
    ensures SameParts(parts, [q] + qs)
  {}

  lemma LaterReparsable(parts: seq<Part>)
    requires parts != []
    ensures AllReparsable(parts) <==> Reparsable(parts[0], |parts| > 1) && AllReparsable(parts[1..])
  {
    hide Reparsable;
    var tail := parts[1..];
    forall i | 0 <= i < |tail|
      ensures Reparsable(tail[i], i + 1 < |tail|) <==> Reparsable(parts[i + 1], i + 2 < |parts|)
    {}
    if Reparsable(parts[0], |parts| > 1) && AllReparsable(tail) {
      forall i | 0 <= i < |parts| ensures Reparsable(parts[i], i + 1 < |parts|) {
        if i > 0 {
          assert Reparsable(tail[i - 1], i < |tail|);
        }
      }
    }
  }

  lemma PartTextStarts(part: Part, gap: bool, more: bool, rest: string)
    ensures !AtEnd(PartText(part, gap, more) + rest)
  {
    SizeStartsWithDigit(part.size);
  }

  // ---------------------------------------------------------- whole tables

  predicate SameDevices(ds: seq<Device>, es: seq<Device>) {
    |ds| == |es| && forall i :: 0 <= i < |ds| ==> ds[i].id == es[i].id && SameParts(ds[i].parts, es[i].parts)
  }

  ghost predicate GoodDevice(env: Env, d: Device) {
    && FindByName(env.ids, d.id.name) == Some(d.id)
    && ':' !in d.id.name && '\0' !in d.id.name
    && d.parts != [] && Ascending(d.parts)
    && GoodParts(env, d.id, d.parts)
  }

  /** What the manager's own operations keep true of the device list. */
  ghost predicate GoodTable(env: Env, devs: seq<Device>) {
    && (forall d <- devs :: GoodDevice(env, d))
    && (forall i, j :: 0 <= i < j < |devs| ==> !SameKey(devs[i], devs[j]))
  }

  predicate SameKey(d: Device, e: Device) {
    (d.id.devType, d.id.num) == (e.id.devType, e.id.num)
  }

  predicate Unlisted(devs: seq<Device>, d: Device) {
    DeviceFind(devs, d.id.devType, d.id.num) == None
  }

  lemma DeviceReadsBack(env: Env, seen: seq<Device>, d: Device, rest: string)
    requires GoodDevice(env, d) && Unlisted(seen, d) && AtEnd(rest)
    ensures var r := ParseDevice(env, seen, DeviceText(d) + rest);
            if AllReparsable(d.parts) then
              r.Some? && r.value.0.id == d.id && SameParts(d.parts, r.value.0.parts) &&
              r.value.1 == (if At(rest) == ';' then rest[1..] else rest)
            else r == None
  {
    hide PartsText, ParseParts, GoodParts, AllReparsable, SameParts, IndexOf, FindByName, AddAll;
    var text := DeviceText(d) + rest;
    var k, body := |d.id.name|, PartsText(None, d.parts) + rest;
    assert text == d.id.name + [':'] + body;
    IndexOfFirst(d.id.name, ':', body);
    assert text[..k] == d.id.name && text[k + 1..] == body;
    PartsReadBack(env, d.id, None, d.parts, rest);
    if AllReparsable(d.parts) {
      SamePartsAdd(d.parts, ParseParts(env, d.id, body, 0).value.0);
    }
  }

  /** Parsed partitions at the places of ascending ones are linked in their order. */
  lemma SamePartsAdd(printed: seq<Part>, parts: seq<Part>)
    requires Ascending(printed) && printed != [] && SameParts(printed, parts)
    ensures AddAll([], parts) == Some(parts) && parts != []
  {
    assert [] + parts == parts;
    forall i, j | 0 <= i < j < |parts| ensures parts[i].offset < parts[j].offset {
      assert SamePart(printed[i], parts[i]) && SamePart(printed[j], parts[j]);
    }
    AscendingAddsInOrder([], parts);
  }

  ghost predicate TableReparsable(devs: seq<Device>) {
    forall d <- devs :: AllReparsable(d.parts)
  }

  lemma {:induction false} DevicesReadBack(env: Env, seen: seq<Device>, devs: seq<Device>)
    requires GoodTable(env, devs)
    requires forall d <- devs :: Unlisted(seen, d)
    ensures var r := ParseDevices(env, seen, DevicesText(devs));
            if TableReparsable(devs) then
              r.Some? && seen <= r.value && SameDevices(devs, r.value[|seen|..])
            else r == None
    decreases |devs|
  {
    hide DeviceText, ParseDevices, AllReparsable, SameParts, GoodDevice, Unlisted;
    if devs == [] {
      NoDevices(env, seen);
    } else {
      var d, tail := devs[0], devs[1..];
      var rest := (if |devs| > 1 then ";" else "") + DevicesText(tail);
      Assoc(DeviceText(d), if |devs| > 1 then ";" else "", DevicesText(tail));
      assert d in devs;
      var e := FirstDeviceReadsBack(env, seen, d, rest);
      if AllReparsable(d.parts) {
        assert rest[if |devs| > 1 then 1 else 0..] == DevicesText(tail);
        TailUnlisted(env, seen, devs, e);
        DevicesReadBack(env, seen + [e], tail);
        ConsTable(env, seen, devs, e, ParseDevices(env, seen + [e], DevicesText(tail)));
      } else {
        assert !TableReparsable(devs);
      }
    }
  }

  lemma NoDevices(env: Env, seen: seq<Device>)
    ensures ParseDevices(env, seen, "") == Some(seen) && seen[|seen|..] == [] && seen <= seen
    ensures SameDevices([], [])
  {}

  /** The loop over devices reads the first one back and goes on behind it. */
  lemma FirstDeviceReadsBack(env: Env, seen: seq<Device>, d: Device, rest: string) returns (e: Device)
    requires GoodDevice(env, d) && Unlisted(seen, d) && AtEnd(rest)
    ensures AllReparsable(d.parts) ==>
      && e.id == d.id && SameParts(d.parts, e.parts)
      && ParseDevices(env, seen, DeviceText(d) + rest)
           == ParseDevices(env, seen + [e], if At(rest) == ';' then rest[1..] else rest)
    ensures !AllReparsable(d.parts) ==> ParseDevices(env, seen, DeviceText(d) + rest) == None
  {
    hide DeviceText, ParseDevice, AllReparsable, SameParts;
    DeviceReadsBack(env, seen, d, rest);
    DeviceTextStarts(env, d, rest);
    e := if AllReparsable(d.parts) then ParseDevice(env, seen, DeviceText(d) + rest).value.0 else d;
  }

  /** With the first device listed, the others still are not. */
  lemma TailUnlisted(env: Env, seen: seq<Device>, devs: seq<Device>, e: Device)
    requires GoodTable(env, devs) && devs != [] && e.id == devs[0].id
    requires forall d <- devs :: Unlisted(seen, d)
    ensures GoodTable(env, devs[1..]) && forall d <- devs[1..] :: Unlisted(seen + [e], d)
  {
    hide GoodDevice;
    var tail := devs[1..];
    forall x | x in tail ensures Unlisted(seen + [e], x) {
      var j :| 0 <= j < |tail| && tail[j] == x;
      assert devs[j + 1] == x && !SameKey(devs[0], devs[j + 1]);
      assert Unlisted(seen, x);
      forall y | y in seen + [e] ensures !SameKey(y, x) {}
    }
  }

  lemma DeviceTextStarts(env: Env, d: Device, rest: string)
    requires GoodDevice(env, d)
    ensures At(DeviceText(d) + rest) != '\0'
  {
    assert (DeviceText(d) + rest)[0] == if d.id.name == "" then ':' else d.id.name[0];
  }

  lemma ConsTable(env: Env, seen: seq<Device>, devs: seq<Device>, e: Device, r: Option<seq<Device>>)
    requires devs != [] && devs[0].id == e.id && SameParts(devs[0].parts, e.parts)
    requires AllReparsable(devs[0].parts)
    requires if TableReparsable(devs[1..]) then
               r.Some? && seen + [e] <= r.value && SameDevices(devs[1..], r.value[|seen| + 1..])
             else r == None
    ensures if TableReparsable(devs) then
              r.Some? && seen <= r.value && SameDevices(devs, r.value[|seen|..])
            else r == None
  {
    hide AllReparsable, SameParts;
    assert TableReparsable(devs) <==> TableReparsable(devs[1..]);
    if r.Some? {
      assert r.value[|seen|..] == [e] + r.value[|seen| + 1..];
    }
  }

  /** Parsing the text that generate_mtdparts writes for a table succeeds exactly
      when part_parse takes every size in it, and then rebuilds the table. */
  lemma TableReadsBack(env: Env, devs: seq<Device>)
    requires GoodTable(env, devs) && devs != []
    ensures var r := Parse(env, MtdText(devs));
            if TableReparsable(devs) then r.Some? && SameDevices(devs, r.value) else r == None
  {
    hide ParseDevices, TableReparsable;
    var text := MtdText(devs);
    assert text[9..] == DevicesText(devs);
    DevicesReadBack(env, [], devs);
    Assoc(DeviceText(devs[0]), if |devs| > 1 then ";" else "", DevicesText(devs[1..]));
    DeviceTextStarts(env, devs[0], (if |devs| > 1 then ";" else "") + DevicesText(devs[1..]));
    var r := ParseDevices(env, [], DevicesText(devs));
    assert r.Some? ==> r.value[0..] == r.value;
  }

  /** With user-given names only, the table comes back exactly. */
  lemma NamedTableReadsBack(env: Env, devs: seq<Device>)
    requires GoodTable(env, devs) && devs != [] && TableReparsable(devs)
    requires forall d <- devs, p <- d.parts :: !p.autoName
    ensures Parse(env, MtdText(devs)) == Some(devs)
  {
    hide Parse, GoodTable, TableReparsable;
    TableReadsBack(env, devs);
    var es := Parse(env, MtdText(devs)).value;
    forall i | 0 <= i < |devs| ensures devs[i] == es[i] {
      forall k | 0 <= k < |devs[i].parts| ensures devs[i].parts[k] == es[i].parts[k] {
        assert devs[i] in devs && devs[i].parts[k] in devs[i].parts;
      }
      assert devs[i].parts == es[i].parts;
    }
    assert devs == es;
  }

  // ------------------------------------------- fill-up partitions ("-(name)")

  lemma FillParses(name: string)
    requires name != "" && ')' !in name
    ensures PartParse("-(" + name + ")") ==
            ParsedPart(Part(SIZE_REMAINING, OFFSET_NOT_SPECIFIED, name, false, 0), "")
  {
    hide MemsizeParse;
    var p := "-(" + name + ")";
    assert p[1..] == "(" + name + ")";
    assert p[1..][1..] == name + [')'] + "";
    IndexOfFirst(name, ')', "");
    assert p[1..][1..][..|name|] == name && p[1..][|name| + 2..] == "";
  }

  /** A device given whole to one fill-up partition. What is parsed covers the
      device, but its printed text is taken back exactly when the device has the
      parser's minimum size, because the print no longer says "-". */
  lemma FillReadsBack(env: Env, id: MtdId, name: string)
    requires FindByName(env.ids, id.name) == Some(id) && ':' !in id.name && '\0' !in id.name
    requires name != "" && ')' !in name
    requires Validate(env, id, Part(id.size, 0, name, false, 0)).Some?
    ensures var devs := [Device(id, [Part(id.size, 0, name, false, 0)])];
            && Parse(env, PREFIX + (id.name + ":-(" + name + ")")) == Some(devs)
            && (Parse(env, MtdText(devs)) == Some(devs) <==> MIN_PART_SIZE <= id.size)
  {
    hide Parse, MtdText, EraseAligned;
    var part := Part(id.size, 0, name, false, 0);
    var devs := [Device(id, [part])];
    assert Validate(env, id, part) == Some(part);
    FillDeviceParses(env, id, part);
    assert GoodTable(env, devs) by {
      assert Printable(part) && GoodParts(env, id, [part]);
    }
    hide GoodTable, Validate;
    TableReadsBack(env, devs);
    assert TableReparsable(devs) <==> AllReparsable(devs[0].parts);
    LaterReparsable([part]);
    if TableReparsable(devs) {
      NamedTableReadsBack(env, devs);
    }
  }

  lemma FillDeviceParses(env: Env, id: MtdId, part: Part)
    requires FindByName(env.ids, id.name) == Some(id) && ':' !in id.name && '\0' !in id.name
    requires part.name != "" && ')' !in part.name
    requires part == Part(id.size, 0, part.name, false, 0) && Validate(env, id, part) == Some(part)
    ensures Parse(env, PREFIX + (id.name + ":-(" + part.name + ")")) == Some([Device(id, [part])])
  {
    hide PartParse, EraseAligned;
    var fill := "-(" + part.name + ")";
    var text := id.name + ":-(" + part.name + ")";
    FillParses(part.name);
    ParsePartsStep(env, id, fill, 0, Part(SIZE_REMAINING, OFFSET_NOT_SPECIFIED, part.name, false, 0), "");
    assert Validate(env, id, Part(SIZE_REMAINING, 0, part.name, false, 0)) == Some(part);
    assert [part] + [] == [part];
    assert ParseParts(env, id, fill, 0) == Some(([part], ""));
    AscendingAddsInOrder([], [part]);
    assert [] + [part] == [part];
    assert text == id.name + [':'] + fill;
    IndexOfFirst(id.name, ':', fill);
    assert text[..|id.name|] == id.name && text[|id.name| + 1..] == fill;
    assert ParseDevice(env, [], text) == Some((Device(id, [part]), ""));
    assert At(text) != '\0' by {
      assert text[0] == if id.name == "" then ':' else id.name[0];
    }
    assert [] + [Device(id, [part])] == [Device(id, [part])];
    assert ParseDevices(env, [], text) == ParseDevices(env, [Device(id, [part])], "");
    assert (PREFIX + text)[9..] == text;
  }
}
