/** Every table that parse_mtdparts accepts is one the round trip covers, as long
    as no two partitions of a device share an offset. */
module MtdParsed {
  import opened CText
  import opened MtdParts
  import opened MtdRoundTrip

  lemma ValidateSettles(env: Env, id: MtdId, p: Part)
    requires Validate(env, id, p).Some?
    ensures var q := Validate(env, id, p).value;
            Validate(env, id, q) == Some(q) && q.offset != OFFSET_NOT_SPECIFIED
  {
    hide EraseAligned;
  }

  lemma ParsedPartIsNamed(p: string)
    requires PartParse(p).ParsedPart?
    ensures var part := PartParse(p).part;
            && (part.autoName || (part.name != "" && ')' !in part.name))
            && part.maskFlags in {0, MTD_WRITEABLE_CMD}
  {
    hide MemsizeParse;
  }

  lemma {:induction false} ParsedPartsAreGood(env: Env, id: MtdId, p: string, offset: u32)
    requires ParseParts(env, id, p, offset).Some?
    ensures GoodParts(env, id, ParseParts(env, id, p, offset).value.0)
    decreases |p|
  {
    hide PartParse, Validate;
    if !AtEnd(p) {
      ParsedPartIsNamed(p);
      var ParsedPart(part, rest) := PartParse(p);
      ValidateSettles(env, id, Place(part, offset));
      var good := Validate(env, id, Place(part, offset)).value;
      ParsedPartsAreGood(env, id, rest, U32(good.offset + good.size));
    }
  }

  lemma {:induction false} SortAddElements(parts: seq<Part>, new_: Part)
    requires SortAdd(parts, new_).Some?
    ensures multiset(SortAdd(parts, new_).value) == multiset(parts) + multiset{new_}
  {
    if parts != [] && new_.offset > parts[0].offset {
      SortAddElements(parts[1..], new_);
      assert parts == [parts[0]] + parts[1..];
    }
  }

  lemma {:induction false} AddAllElements(parts: seq<Part>, todo: seq<Part>)
    requires AddAll(parts, todo).Some?
    ensures multiset(AddAll(parts, todo).value) == multiset(parts) + multiset(todo)
    decreases |todo|
  {
    if todo != [] {
      SortAddElements(parts, todo[0]);
      AddAllElements(SortAdd(parts, todo[0]).value, todo[1..]);
      assert todo == [todo[0]] + todo[1..];
    }
  }

  lemma FoundByName(ids: seq<MtdId>, name: string)
    requires FindByName(ids, name).Some?
    ensures FindByName(ids, name).value.name == name
  {}

  lemma ParsedDeviceIsGood(env: Env, seen: seq<Device>, p: string)
    requires ParseDevice(env, seen, p).Some? && '\0' !in p
    ensures var (d, rest) := ParseDevice(env, seen, p).value;
            (Ascending(d.parts) ==> GoodDevice(env, d)) && '\0' !in rest
  {
    hide ParseParts, GoodParts;
    var k := IndexOf(p, ':');
    FoundByName(env.ids, p[..k]);
    var id := FindByName(env.ids, p[..k]).value;
    var loop := ParseParts(env, id, p[k + 1..], FirstFree(seen, id));
    ParsedPartsAreGood(env, id, p[k + 1..], FirstFree(seen, id));
    RestIsSuffix(env, id, p[k + 1..], FirstFree(seen, id));
    var (parts, rest) := loop.value;
    AddAllElements([], parts);
    var sorted := AddAll([], parts).value;
    assert GoodParts(env, id, sorted) by {
      SameElements(env, id, parts, sorted);
    }
    assert |multiset(sorted)| == |multiset(parts)|;
  }

  lemma SameElements(env: Env, id: MtdId, parts: seq<Part>, sorted: seq<Part>)
    requires GoodParts(env, id, parts) && multiset(sorted) == multiset(parts)
    ensures GoodParts(env, id, sorted)
  {
    forall p | p in sorted ensures Printable(p) && Validate(env, id, p) == Some(p) {
      assert p in multiset(sorted);
      assert p in parts;
    }
  }

  lemma {:induction false} RestIsSuffix(env: Env, id: MtdId, p: string, offset: u32)
    requires ParseParts(env, id, p, offset).Some? && '\0' !in p
    ensures '\0' !in ParseParts(env, id, p, offset).value.1
    decreases |p|
  {
    hide PartParse, Validate;
    if !AtEnd(p) {
      PartRestIsSuffix(p);
      var ParsedPart(part, rest) := PartParse(p);
      var good := Validate(env, id, Place(part, offset)).value;
      RestIsSuffix(env, id, rest, U32(good.offset + good.size));
    }
  }

  lemma PartRestIsSuffix(p: string)
    requires PartParse(p).ParsedPart? && '\0' !in p
    ensures '\0' !in PartParse(p).rest
  {
    hide MemsizeParse, PartFlags;
    var (size, q) := if At(p) == '-' then (SIZE_REMAINING, p[1..]) else MemsizeParse(p);
    MemsizeRest(p);
    MemsizeRest(q[if At(q) == '@' then 1 else 0..]);
    var (offset, r) := if At(q) == '@' then MemsizeParse(q[1..]) else (OFFSET_NOT_SPECIFIED, q);
    if At(r) == '(' {
      var k := IndexOf(r[1..], ')');
      FlagsRest(Part(size, offset, r[1..][..k], false, 0), r[k + 2..]);
    } else {
      FlagsRest(Part(size, offset, AutoName(size, offset), true, 0), r);
    }
  }

  lemma FlagsRest(part: Part, p: string)
    requires PartFlags(part, p).ParsedPart? && '\0' !in p
    ensures '\0' !in PartFlags(part, p).rest
  {}

  lemma MemsizeRest(p: string)
    requires '\0' !in p
    ensures '\0' !in MemsizeParse(p).1
  {
    var (q, base) := Prefix(p, 0);
    DigitsRest(q, base, 0);
  }

  lemma {:induction false} DigitsRest(p: string, base: nat, acc: u32)
    requires '\0' !in p
    ensures '\0' !in Digits(p, base, acc).1
  {
    if TakesDigit(p, base) {
      DigitsRest(p[1..], base, U32(acc * base + DigitValue(p[0])));
    }
  }

  lemma {:induction false} ParsedDevicesAreGood(env: Env, seen: seq<Device>, p: string)
    requires ParseDevices(env, seen, p).Some? && '\0' !in p
    requires forall d <- seen :: Ascending(d.parts) ==> GoodDevice(env, d)
    requires forall i, j :: 0 <= i < j < |seen| ==> !SameKey(seen[i], seen[j])
    ensures var devs := ParseDevices(env, seen, p).value;
            && seen <= devs
            && (forall d <- devs :: Ascending(d.parts) ==> GoodDevice(env, d))
            && (forall i, j :: 0 <= i < j < |devs| ==> !SameKey(devs[i], devs[j]))
    decreases |p|
  {
    hide ParseDevice, GoodDevice, Ascending;
    if At(p) != '\0' {
      ParsedDeviceIsGood(env, seen, p);
      var (d, rest) := ParseDevice(env, seen, p).value;
      forall i, j | 0 <= i < j < |seen + [d]| ensures !SameKey((seen + [d])[i], (seen + [d])[j]) {
        assert j == |seen| ==> seen[i] in seen;
      }
      ParsedDevicesAreGood(env, seen + [d], rest);
    }
  }

  /** Any accepted text, printed from the table it made and parsed again, gives
      that table, unless a fill-up size below the minimum stands in the way. */
  lemma ParsedTableReadsBack(env: Env, text: string)
    requires '\0' !in text && Parse(env, text).Some?
    requires forall d <- Parse(env, text).value :: Ascending(d.parts)
    ensures var devs := Parse(env, text).value;
            && GoodTable(env, devs) && devs != []
            && (Parse(env, MtdText(devs)).Some? <==> TableReparsable(devs))
            && (TableReparsable(devs) ==> SameDevices(devs, Parse(env, MtdText(devs)).value))
  {
    hide ParseDevice, GoodDevice, Ascending, TableReparsable;
    var p := text[9..];
    ParsedDevicesAreGood(env, [], p);
    var (d, rest) := ParseDevice(env, [], p).value;
    ParsedDeviceIsGood(env, [], p);
    assert [] + [d] == [d];
    ParsedDevicesAreGood(env, [d], rest) by {
      assert forall x <- [d] :: x == d;
    }
    TableReadsBack(env, Parse(env, text).value);
  }
}
