/** The `partition` variable: how the current partition is saved as text and found
    again (common/cmd_mtdparts.c). */
module MtdPartition {
  import opened CText
  import opened MtdParts
  import opened MtdRoundTrip
  import opened MtdCursor

  const NOR: nat := 1
  const NAND: nat := 2
  const ONENAND: nat := 4

  /** MTD_DEV_TYPE. */
  function TypeName(devType: nat): string {
    if devType == NAND then "nand" else if devType == ONENAND then "onenand" else "nor"
  }

  function ParseType(p: string): Option<(nat, string)> {
    if Starts(p, "nand") then Some((NAND, p[4..]))
    else if Starts(p, "nor") then Some((NOR, p[3..]))
    else if Starts(p, "onenand") then Some((ONENAND, p[7..]))
    else None
  }

  /** mtd_id_parse; device numbers have eight bits. */
  function MtdIdParse(p: string): Option<((nat, nat), string)> {
    match ParseType(p)
    case None => None
    case Some((devType, q)) =>
      if !IsDigit(At(q)) then None else
        var (num, rest) := Strtoul(q, 0);
        Some(((devType, num % U8), rest))
  }

  /** The first partition of that name: its device's place and its number. */
  function FindName(devs: seq<Device>, name: string): Option<(nat, nat)> {
    if devs == [] then None
    else match NameIn(devs[0].parts, name)
      case Some(k) => Some((0, k))
      case None => match FindName(devs[1..], name)
        case None => None
        case Some((i, k)) => Some((i + 1, k))
  }

  function NameIn(parts: seq<Part>, name: string): Option<nat> {
    if parts == [] then None
    else if parts[0].name == name then Some(0)
    else match NameIn(parts[1..], name) case None => None case Some(k) => Some(k + 1)
  }

  function PlaceOf(devs: seq<Device>, devType: nat, num: nat): (r: Option<nat>)
    ensures r.Some? ==> r.value < |devs| && (devs[r.value].id.devType, devs[r.value].id.num) == (devType, num)
    ensures r == None ==> forall d <- devs :: (d.id.devType, d.id.num) != (devType, num)
  {
    if devs == [] then None
    else if (devs[0].id.devType, devs[0].id.num) == (devType, num) then Some(0)
    else match PlaceOf(devs[1..], devType, num) case None => None case Some(i) => Some(i + 1)
  }

  /** A name, or else a device and a number. */
  function Find(devs: seq<Device>, id: string): Option<(nat, nat)> {
    if FindName(devs, id).Some? then FindName(devs, id)
    else match MtdIdParse(id)
      case None => None
      case Some(((devType, num), p)) => FindNumber(devs, devType, num, p)
  }

  function FindNumber(devs: seq<Device>, devType: nat, num: nat, p: string): Option<(nat, nat)> {
    if At(p) != ',' || At(p[1..]) == '\0' then None else
      var (v, rest) := Strtoul(p[1..], 0);
      if At(rest) != '\0' then None else
        match PlaceOf(devs, devType, num)
        case None => None
        case Some(i) => if v % U8 < |devs[i].parts| then Some((i, v % U8)) else None
  }

  /** find_dev_and_part. */
  method FindDevAndPart(devices: seq<Device>, id: string) returns (r: Option<(nat, nat)>)
    ensures r == Find(devices, id)
  {
    hide MtdIdParse, FindNumber;
    assert devices[0..] == devices;
    for i := 0 to |devices|
      invariant FindName(devices, id) == Moved(FindName(devices[i..], id), i)
    {
      assert devices[i..][1..] == devices[i + 1..];
      var parts := devices[i].parts;
      assert parts[0..] == parts;
      for partNum := 0 to |parts|
        invariant NameIn(parts, id) == Shifted(NameIn(parts[partNum..], id), partNum)
      {
        if parts[partNum].name == id {
          return Some((i, partNum));
        }
        assert parts[partNum..][1..] == parts[partNum + 1..];
      }
    }
    var parsed := MtdIdParse(id);
    if parsed == None {
      return None;
    }
    r := FindNumber(devices, parsed.value.0.0, parsed.value.0.1, parsed.value.1);
  }

  function Moved(r: Option<(nat, nat)>, n: nat): Option<(nat, nat)> {
    match r case None => None case Some((i, k)) => Some((i + n, k))
  }

  function Shifted(r: Option<nat>, n: nat): Option<nat> {
    match r case None => None case Some(k) => Some(k + n)
  }

  /** What current_save writes. */
  function SavedText(id: MtdId, partNum: nat): string {
    TypeName(id.devType) + (Numeral(id.num, 10) + ("," + Numeral(partNum, 10)))
  }

  predicate Known(id: MtdId) {
    id.devType in {NOR, NAND, ONENAND} && id.num < U8
  }

  lemma TypeReadsBack(devType: nat, rest: string)
    requires devType in {NOR, NAND, ONENAND}
    ensures ParseType(TypeName(devType) + rest) == Some((devType, rest))
  {
    var p := TypeName(devType) + rest;
    if devType == NAND {
      assert p[..4] == "nand" && p[4..] == rest;
    } else if devType == NOR {
      assert p[1] == 'o' && "nand"[1] == 'a' && p[..3] == "nor" && p[3..] == rest;
      assert |p| >= 4 ==> p[..4][1] == 'o';
    } else {
      assert p[0] == 'o' && p[..7] == "onenand" && p[7..] == rest;
      assert p[..4][0] == 'o' && p[..3][0] == 'o';
    }
  }

  lemma IdReadsBack(id: MtdId, rest: string)
    requires Known(id) && At(rest) == ','
    ensures MtdIdParse(TypeName(id.devType) + (Numeral(id.num, 10) + rest)) == Some(((id.devType, id.num), rest))
  {
    hide Strtoul, ParseType, TypeName, Numeral;
    TypeReadsBack(id.devType, Numeral(id.num, 10) + rest);
    DecimalReadsBack(id.num, rest);
    assert At(Numeral(id.num, 10) + rest) == Numeral(id.num, 10)[0];
    FirstIsDigit(id.num);
  }

  lemma FirstIsDigit(n: nat)
    ensures IsDigit(Numeral(n, 10)[0])
  {
    assert Numeral(n, 10)[0] in Numeral(n, 10);
  }

  /** The saved text leads back to the current partition exactly if no partition
      that is listed before it has that very text for a name: names go first. */
  lemma SavedPartitionIsFound(env: Env, st: State, a: nat, c: nat)
    requires Good(env, st) && Points(st, a, c) && Known(st.devs[a].id)
    ensures var text := SavedText(st.devs[a].id, c);
            Find(st.devs, text) == Some((a, c)) <==> FindName(st.devs, text) in {None, Some((a, c))}
  {
    hide MtdIdParse, FindName, FindNumber, PlaceOf, Good, Numeral, TypeName;
    var id := st.devs[a].id;
    IdReadsBack(id, "," + Numeral(c, 10));
    PlaceIsUnique(env, st, a);
    PartNumberReadsBack(st.devs, a, c);
  }

  lemma PartNumberReadsBack(devs: seq<Device>, a: nat, c: nat)
    requires a < |devs| && PlaceOf(devs, devs[a].id.devType, devs[a].id.num) == Some(a)
    requires c < |devs[a].parts| && c < U8
    ensures FindNumber(devs, devs[a].id.devType, devs[a].id.num, "," + Numeral(c, 10)) == Some((a, c))
  {
    hide Strtoul, PlaceOf;
    var s := Numeral(c, 10);
    DecimalReadsBack(c, "");
    FirstIsDigit(c);
    assert s + "" == s && ("," + s)[1..] == s;
  }

  /** The text fits the 16 characters it is kept in. */
  lemma SavedTextFits(id: MtdId, partNum: nat)
    requires Known(id) && partNum < U8
    ensures |SavedText(id, partNum)| + 1 <= 16
  {
    AtMostThreeDigits(id.num);
    AtMostThreeDigits(partNum);
  }

  lemma AtMostThreeDigits(n: nat)
    requires n < 1000
    ensures |Numeral(n, 10)| <= 3
  {
    assert n / 10 < 100 && n / 10 / 10 < 10;
    assert |Numeral(n / 10 / 10, 10)| == 1;
    assert n >= 10 ==> |Numeral(n, 10)| == |Numeral(n / 10, 10)| + 1;
    assert n / 10 >= 10 ==> |Numeral(n / 10, 10)| == |Numeral(n / 10 / 10, 10)| + 1;
  }

  lemma PlaceIsUnique(env: Env, st: State, a: nat)
    requires Good(env, st) && a < |st.devs|
    ensures PlaceOf(st.devs, st.devs[a].id.devType, st.devs[a].id.num) == Some(a)
    ensures |st.devs[a].parts| < U8
  {
  }

  /** A restart: with given names and sizes that the parser takes, the two variables give
      the whole state back, lists and cursor, exactly if no partition listed before the
      current one is named like it. */
  lemma RestartRestores(env: Env, st: State, a: nat, c: nat)
    requires Good(env, st) && Points(st, a, c) && Known(st.devs[a].id)
    requires TableReparsable(st.devs) && forall d <- st.devs, p <- d.parts :: !p.autoName
    ensures var parsed, text := Parse(env, MtdText(st.devs)), SavedText(st.devs[a].id, c);
            && parsed == Some(st.devs)
            && (Find(parsed.value, text) == Some((a, c)) <==> FindName(st.devs, text) in {None, Some((a, c))})
  {
    hide Parse, Find, FindName, GoodTable, TableReparsable;
    NamedTableReadsBack(env, st.devs);
    SavedPartitionIsFound(env, st, a, c);
  }

  /** A good state in which the saved text leads elsewhere: the first partition has
      for its name what is saved for the second one. */
  lemma NameHidesPartition() returns (env: Env, st: State)
    ensures Good(env, st) && Points(st, 0, 1) && Known(st.devs[0].id)
    ensures Find(st.devs, SavedText(st.devs[0].id, 1)) == Some((0, 0))
  {
    var id := MtdId(NAND, 0, 8192, "n");
    var first, second := Part(4096, 0, "nand0,1", false, 0), Part(4096, 4096, "b", false, 0);
    var d := Device(id, [first, second]);
    env, st := Env([id], map[(NAND, 0) := MtdInfo(4096, [])]), State([d], Some((id, 1)));
    assert Validate(env, id, first) == Some(first) && Validate(env, id, second) == Some(second);
    assert Printable(first) && Printable(second);
    assert GoodParts(env, id, d.parts) && Ascending(d.parts);
    assert GoodDevice(env, d) && GoodTable(env, st.devs);
    assert Points(st, 0, 1);
    assert Numeral(0, 10) == "0" && Numeral(1, 10) == "1";
    assert SavedText(id, 1) == "nand0,1";
  }
}
