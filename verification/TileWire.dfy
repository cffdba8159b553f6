/** The client's GET-merge-PUT on bytes (web/src/merge.ts, web/src/state.ts): decoding a
    stored tile, applying a delta, and encoding the result in key order. */
module TileWire {
  import opened Bytes
  import opened Orders
  import opened Outcomes
  import opened Layers
  import opened TileLog
  import opened TextKeys
  import opened TileMirror
  import opened Cbor
  import opened WireFields
  import CborLaws
  import Signing
  import Tile

  const COORD: Value := Text(Signing.Ascii("coord"))
  const COLOR: Value := Text(Signing.Ascii("color"))
  const PLACEMENTS: Value := Text(Signing.Ascii("placements"))
  const BAKED: Value := Text(Signing.Ascii("baked"))

  // ---- Placements -------------------------------------------------------------------------------

  function PlacementFields(p: SignedPlacement): (es: seq<Cbor.Entry>)
    ensures |es| == 5
  {
    [Cbor.Entry(COORD, Int(p.coord)), Cbor.Entry(COLOR, Int(p.color)), Cbor.Entry(TS, Int(p.ts)),
     Cbor.Entry(AUTHOR, Blob(p.author)), Cbor.Entry(SIGNATURE, ByteList(p.signature))]
  }

  /** encodePlacement: the author as a byte string, the signature as an array. */
  function PlacementValue(p: SignedPlacement): Value { Map(PlacementFields(p)) }

  /** decodePlacement. Fields outside the Rust widths count as undecodable. */
  function DecodePlacement(v: Value): Option<SignedPlacement> {
    match (AsNumber(MapGet(v, COORD), 0x1_0000), AsNumber(MapGet(v, COLOR), 0x100),
           AsNumber(MapGet(v, TS), 0x1_0000_0000_0000_0000), AsByteArray(MapGet(v, AUTHOR)), AsByteArray(MapGet(v, SIGNATURE)))
    case (Some(coord), Some(color), Some(ts), Some(author), Some(signature)) =>
      if |author| == 32 && |signature| == 64 then Some(SignedPlacement(coord, color, ts, author, signature)) else None
    case _ => None
  }

  lemma NamesDiffer()
    ensures COORD != COLOR && COORD != TS && COORD != AUTHOR && COORD != SIGNATURE
    ensures COLOR != TS && COLOR != AUTHOR && COLOR != SIGNATURE
    ensures TS != AUTHOR && TS != SIGNATURE && AUTHOR != SIGNATURE && PLACEMENTS != BAKED
  {
    assert |COORD.utf8| == 5 && |COLOR.utf8| == 5 && |TS.utf8| == 2 && |AUTHOR.utf8| == 6 && |SIGNATURE.utf8| == 9;
    assert COORD.utf8[2] != COLOR.utf8[2];
    assert |PLACEMENTS.utf8| == 10 && |BAKED.utf8| == 5;
  }

  lemma PlacementBack(p: SignedPlacement)
    ensures DecodePlacement(PlacementValue(p)) == Some(p)
  {
    NamesDiffer();
    ByteListBack(p.signature);
    var es := PlacementFields(p);
    hide Lookup, ByteList, AsByteArray;
    LookupAt(es, COORD, 0);
    LookupAt(es, COLOR, 1);
    LookupAt(es, TS, 2);
    LookupAt(es, AUTHOR, 3);
    LookupAt(es, SIGNATURE, 4);
    assert AsByteArray(Some(Blob(p.author))) == Some(p.author) by { BlobBack(p.author); }
  }

  /** The names and forms under which a placement is written. */
  lemma PlacementByName(p: SignedPlacement)
    ensures var v := PlacementValue(p);
      && MapGet(v, Text(Signing.Ascii("coord"))) == Some(Int(p.coord))
      && MapGet(v, Text(Signing.Ascii("color"))) == Some(Int(p.color))
      && MapGet(v, Text(Signing.Ascii("ts"))) == Some(Int(p.ts))
      && MapGet(v, Text(Signing.Ascii("author"))) == Some(Blob(p.author))
      && MapGet(v, Text(Signing.Ascii("signature"))) == Some(ByteList(p.signature))
  {
    NamesDiffer();
    var es := PlacementFields(p);
    hide Lookup, ByteList;
    LookupAt(es, COORD, 0);
    LookupAt(es, COLOR, 1);
    LookupAt(es, TS, 2);
    LookupAt(es, AUTHOR, 3);
    LookupAt(es, SIGNATURE, 4);
  }

  predicate Safe(p: SignedPlacement) { p.ts <= MAX_SAFE_INTEGER }

  lemma PlacementEncodable(p: SignedPlacement)
    ensures Encodable(PlacementValue(p)) <==> Safe(p)
  {
    ByteListBack(p.signature);
    hide ByteList;
    var es := PlacementFields(p);
    assert Encodable(COORD) && Encodable(COLOR) && Encodable(TS) && Encodable(AUTHOR) && Encodable(SIGNATURE);
    assert Encodable(es[2].value) <==> Safe(p);
  }

  // ---- Logs ---------------------------------------------------------------------------------------

  function InnerEntries(log: Log, times: seq<u64>): (es: seq<Cbor.Entry>)
    requires forall t | t in times :: t in log
    ensures |es| == |times|
    ensures forall i | 0 <= i < |times| :: es[i] == Cbor.Entry(Int(times[i]), PlacementValue(log[times[i]]))
  {
    seq(|times|, i requires 0 <= i < |times| => Cbor.Entry(Int(times[i]), PlacementValue(log[times[i]])))
  }

  /** One author's entry: the key comes from the last placement, empty logs vanish. */
  function LogEntry(log: Log): seq<Cbor.Entry> {
    var times := SortedTimes(log.Keys);
    if times == [] then []
    else
      assert forall t | t in times :: t in Elems(times);
      [Cbor.Entry(ByteList(log[times[|times| - 1]].author), Map(InnerEntries(log, times)))]
  }

  function LogEntries(logs: JsLogs, names: seq<string>): seq<Cbor.Entry>
    requires forall a | a in names :: a in logs
  {
    if names == [] then []
    else LogEntries(logs, names[..|names| - 1]) + LogEntry(logs[names[|names| - 1]])
  }

  /** encodeLogs. */
  function LogsValue(logs: JsLogs): Value {
    var names := SortedNames(logs.Keys);
    assert forall a | a in names :: a in Elems(names);
    Map(LogEntries(logs, names))
  }

  lemma LogEntryShape(log: Log)
    ensures var times := SortedTimes(log.Keys);
      && (forall t | t in times :: t in log)
      && LogEntry(log) == if times == [] then [] else
           [Cbor.Entry(ByteList(log[times[|times| - 1]].author), Map(InnerEntries(log, times)))]
  {
    assert forall t | t in SortedTimes(log.Keys) :: t in Elems(SortedTimes(log.Keys));
  }

  lemma InnerStep(log: Log, times: seq<u64>, i: nat)
    requires i < |times| && forall t | t in times :: t in log
    ensures InnerEntries(log, times[..i + 1])
         == InnerEntries(log, times[..i]) + [Cbor.Entry(Int(times[i]), PlacementValue(log[times[i]]))]
  {
    hide PlacementValue;
  }

  method EncodeLog(log: Log) returns (es: seq<Cbor.Entry>)
    ensures es == LogEntry(log)
  {
    hide *;
    var times := SortedTimes(log.Keys);
    LogEntryShape(log);
    var inner: seq<Cbor.Entry> := [];
    var authorBytes: Option<Bytes> := None;
    for i := 0 to |times|
      invariant inner == InnerEntries(log, times[..i])
      invariant authorBytes == if i == 0 then None else Some(log[times[i - 1]].author)
    {
      var placement := log[times[i]];
      authorBytes := Some(placement.author);
      inner := inner + [Cbor.Entry(Int(times[i]), PlacementValue(placement))];
      InnerStep(log, times, i);
    }
    assert times[..|times|] == times;
    es := if authorBytes.Some? then [Cbor.Entry(ByteList(authorBytes.value), Map(inner))] else [];
  }

  method EncodeLogs(logs: JsLogs) returns (v: Value)
    ensures v == LogsValue(logs)
  {
    hide *;
    var names := SortedNames(logs.Keys);
    LogsValueShape(logs);
    var out: seq<Cbor.Entry> := [];
    for i := 0 to |names|
      invariant out == LogEntries(logs, names[..i])
    {
      LogEntriesStep(logs, names, i);
      var entry := EncodeLog(logs[names[i]]);
      out := out + entry;
    }
    assert names[..|names|] == names;
    v := Map(out);
  }

  lemma LogsValueShape(logs: JsLogs)
    ensures var names := SortedNames(logs.Keys);
      && (forall a | a in names :: a in logs)
      && LogsValue(logs) == Map(LogEntries(logs, names)) && LogEntries(logs, names[..0]) == []
  {
    hide LogEntry;
    assert forall a | a in SortedNames(logs.Keys) :: a in Elems(SortedNames(logs.Keys));
  }

  lemma LogEntriesStep(logs: JsLogs, names: seq<string>, i: nat)
    requires i < |names| && forall a | a in names :: a in logs
    ensures LogEntries(logs, names[..i + 1]) == LogEntries(logs, names[..i]) + LogEntry(logs[names[i]])
  {
    hide LogEntry;
    assert names[..i + 1][..i] == names[..i];
  }

  // ---- Reading logs back ----------------------------------------------------------------------------

  function Listed(items: seq<Value>): Option<seq<SignedPlacement>> {
    DecodeAll(items, DecodePlacement)
  }

  function Placements(es: seq<Cbor.Entry>): Option<seq<SignedPlacement>> { Listed(MapValues(es)) }

  /** The placements of every log of a family; what is not a map is skipped. */
  function FamilyPlacements(es: seq<Cbor.Entry>): Option<seq<SignedPlacement>> {
    if es == [] then Some([])
    else
      var log := es[|es| - 1].value;
      match (FamilyPlacements(es[..|es| - 1]), if log.Map? then Placements(log.entries) else Some([]))
      case (Some(ps), Some(qs)) => Some(ps + qs)
      case _ => None
  }

  lemma InnerBack(log: Log, times: seq<u64>)
    requires (forall t | t in times :: t in log) && Ascending(TimeLess, times)
    ensures Placements(InnerEntries(log, times)) == Some(LogAt(log, times))
  {
    hide PlacementValue;
    DistinctMap(InnerEntries(log, times));
    ListedBack(LogAt(log, times), ValuesOf(InnerEntries(log, times)));
  }

  lemma ListedBack(ps: seq<SignedPlacement>, items: seq<Value>)
    requires |items| == |ps| && forall i | 0 <= i < |ps| :: items[i] == PlacementValue(ps[i])
    ensures Listed(items) == Some(ps)
  {
    hide DecodePlacement, PlacementValue;
    forall i | 0 <= i < |ps|
      ensures DecodePlacement(items[i]) == Some(ps[i])
    {
      PlacementBack(ps[i]);
    }
    DecodeAllExact(items, DecodePlacement, ps);
  }

  lemma EntryBack(log: Log)
    ensures FamilyPlacements(LogEntry(log)) == Some(LogValues(log))
  {
    hide *;
    var times, e := SortedTimes(log.Keys), LogEntry(log);
    LogEntryShape(log);
    LogValuesShape(log);
    EmptyFamily();
    if times != [] {
      InnerBack(log, times);
      FamilyStep(e, 0);
      DropNothing(e);
      assert e[..1] == e;
      assert [] + LogAt(log, times) == LogAt(log, times);
    }
  }

  lemma LogValuesShape(log: Log)
    ensures forall t | t in SortedTimes(log.Keys) :: t in log
    ensures LogValues(log) == LogAt(log, SortedTimes(log.Keys))
    ensures SortedTimes(log.Keys) == [] ==> LogValues(log) == []
  {
    assert forall t | t in SortedTimes(log.Keys) :: t in Elems(SortedTimes(log.Keys));
  }

  lemma {:induction false} FamilyConcat(p: seq<Cbor.Entry>, q: seq<Cbor.Entry>)
    requires FamilyPlacements(p).Some? && FamilyPlacements(q).Some?
    ensures FamilyPlacements(p + q) == Some(FamilyPlacements(p).value + FamilyPlacements(q).value)
  {
    hide Placements;
    if q == [] {
      assert p + q == p;
      assert FamilyPlacements(p).value + [] == FamilyPlacements(p).value;
    } else {
      assert (p + q)[..|p + q| - 1] == p + q[..|q| - 1];
      FamilyConcat(p, q[..|q| - 1]);
      assert (p + q)[|p + q| - 1] == q[|q| - 1];
      var log := q[|q| - 1].value;
      var x, y := FamilyPlacements(p).value, FamilyPlacements(q[..|q| - 1]).value;
      var z := if log.Map? then Placements(log.entries).value else [];
      assert x + y + z == x + (y + z);
    }
  }

  lemma {:induction false} FamilyBack(logs: JsLogs, names: seq<string>)
    requires forall a | a in names :: a in logs
    ensures FamilyPlacements(LogEntries(logs, names)).Some?
    ensures Elems(FamilyPlacements(LogEntries(logs, names)).value) == Gathered(logs, Elems(names))
  {
    hide FamilyPlacements, LogEntry, LogValues;
    if names == [] {
      NoFamily(logs);
    } else {
      var init, last := names[..|names| - 1], names[|names| - 1];
      FamilyBack(logs, init);
      EntryBack(logs[last]);
      FamilyConcat(LogEntries(logs, init), LogEntry(logs[last]));
      ElemsConcat(FamilyPlacements(LogEntries(logs, init)).value, LogValues(logs[last]));
      GatheredStep(logs, names, |names| - 1);
      DropNothing(names);
    }
  }

  lemma NoFamily(logs: JsLogs)
    ensures FamilyPlacements([]) == Some([]) && Gathered(logs, Elems<string>([])) == {}
  {
  }

  /** Author keys are arrays, which a Map never takes for equal. */
  lemma {:induction false} LogKeys(logs: JsLogs, names: seq<string>)
    requires forall a | a in names :: a in logs
    ensures forall e | e in LogEntries(logs, names) :: !Primitive(e.key)
  {
    hide InnerEntries, Sorted;
    if names != [] {
      LogKeys(logs, names[..|names| - 1]);
      LogEntryShape(logs[names[|names| - 1]]);
    }
  }

  /** Decoding encoded logs yields exactly their placements. */
  lemma LogsBack(logs: JsLogs)
    ensures FamilyPlacements(MapOf(LogsValue(logs).entries)).Some?
    ensures Elems(FamilyPlacements(MapOf(LogsValue(logs).entries)).value) == All(logs)
  {
    hide FamilyPlacements, LogEntries, Gathered, All;
    var names := SortedNames(logs.Keys);
    assert forall a | a in names :: a in Elems(names);
    LogKeys(logs, names);
    DistinctMap(LogEntries(logs, names));
    FamilyBack(logs, names);
    GatheredAll(logs);
  }

  // ---- Whole tiles ------------------------------------------------------------------------------------

  /** encodeTileState: an empty baked layer is absent. */
  function TileValue(live: JsLogs, baked: JsLogs): Value {
    Map([Cbor.Entry(PLACEMENTS, LogsValue(live))]
        + if baked == map[] then [] else [Cbor.Entry(BAKED, LogsValue(baked))])
  }

  lemma TileValueShape(live: JsLogs, baked: JsLogs)
    ensures baked == map[] ==> TileValue(live, baked) == Map([Cbor.Entry(PLACEMENTS, LogsValue(live))])
    ensures baked != map[] ==>
      TileValue(live, baked) == Map([Cbor.Entry(PLACEMENTS, LogsValue(live))] + [Cbor.Entry(BAKED, LogsValue(baked))])
  {
    hide LogsValue;
  }

  /** Both families by name; the baked one is written only when there is one. */
  lemma TileByName(live: JsLogs, baked: JsLogs)
    ensures MapGet(TileValue(live, baked), Text(Signing.Ascii("placements"))) == Some(LogsValue(live))
    ensures MapGet(TileValue(live, baked), Text(Signing.Ascii("baked"))) ==
      if baked == map[] then None else Some(LogsValue(baked))
  {
    NamesDiffer();
    TileValueShape(live, baked);
    hide Lookup, LogsValue, TileValue;
    var es := TileValue(live, baked).entries;
    LookupAt(es, PLACEMENTS, 0);
    if baked == map[] { LookupNone(es, BAKED); } else { LookupAt(es, BAKED, 1); }
  }

  method EncodeTileState(state: TileStateJs) returns (r: Result<Bytes, Error>)
    ensures r.Ok? <==> Encodable(TileValue(state.placements, state.baked))
    ensures r.Ok? ==> r.value == Encode(TileValue(state.placements, state.baked))
  {
    hide *;
    TileValueShape(state.placements, state.baked);
    var live := EncodeLogs(state.placements);
    var root := [Cbor.Entry(PLACEMENTS, live)];
    if state.baked != map[] {
      var worn := EncodeLogs(state.baked);
      root := root + [Cbor.Entry(BAKED, worn)];
    }
    r := CborEncode(Map(root));
  }

  function FamilyOf(root: Value, name: Value): Option<seq<SignedPlacement>> {
    match MapGet(root, name)
    case Some(Map(es)) => FamilyPlacements(MapOf(es))
    case _ => Some([])
  }

  /** What a decoded state offers to the two layers. */
  ghost function Offered(root: Value): Option<Pair<SignedPlacement>> {
    match (FamilyOf(root, PLACEMENTS), FamilyOf(root, BAKED))
    case (Some(live), Some(baked)) => Some(Pair(Elems(live), Elems(baked)))
    case _ => None
  }

  lemma TileBack(live: JsLogs, baked: JsLogs)
    ensures Offered(TileValue(live, baked)) == Some(View(live, baked))
  {
    hide *;
    NamesDiffer();
    LogsBack(live);
    LogsBack(baked);
    NoBaked(baked);
    TileValueShape(live, baked);
    LogsAreMaps(live);
    LogsAreMaps(baked);
    JsViewShape(live, baked);
    var es := TileValue(live, baked).entries;
    LookupAt(es, PLACEMENTS, 0);
    if baked == map[] {
      LookupNone(es, BAKED);
    } else {
      LookupAt(es, BAKED, 1);
    }
    OfferedShape(es);
  }

  lemma LogsAreMaps(logs: JsLogs)
    ensures LogsValue(logs).Map?
  {
  }

  lemma OfferedShape(es: seq<Cbor.Entry>)
    ensures var live, baked := Lookup(es, PLACEMENTS), Lookup(es, BAKED);
      live.Some? && live.value.Map? && FamilyPlacements(MapOf(live.value.entries)).Some? ==>
        var ps := FamilyPlacements(MapOf(live.value.entries)).value;
        && (baked == None ==> Offered(Map(es)) == Some(Pair(Elems(ps), Elems([]))))
        && (baked.Some? && baked.value.Map? && FamilyPlacements(MapOf(baked.value.entries)).Some? ==>
              Offered(Map(es)) == Some(Pair(Elems(ps), Elems(FamilyPlacements(MapOf(baked.value.entries)).value))))
  {
    hide FamilyPlacements, Lookup;
  }

  lemma NoBaked(baked: JsLogs)
    ensures baked == map[] ==> All(baked) == {}
    ensures Elems<SignedPlacement>([]) == {}
  {
  }

  lemma PlacementsShape(es: seq<Cbor.Entry>)
    ensures Placements(es) == DecodeAll(MapValues(es), DecodePlacement)
  {
  }

  lemma {:induction false} OneBadLog(es: seq<Cbor.Entry>, k: nat)
    requires k <= |es| && FamilyPlacements(es[..k]) == None
    ensures FamilyPlacements(es) == None
    decreases |es|
  {
    hide Placements;
    if k < |es| {
      assert es[..|es| - 1][..k] == es[..k];
      OneBadLog(es[..|es| - 1], k);
    } else {
      assert es[..k] == es;
    }
  }

  lemma FamilyStep(es: seq<Cbor.Entry>, i: nat)
    requires i < |es|
    ensures var log := es[i].value;
      FamilyPlacements(es[..i + 1]) ==
        match (FamilyPlacements(es[..i]), if log.Map? then Placements(log.entries) else Some([]))
        case (Some(ps), Some(qs)) => Some(ps + qs)
        case _ => None
  {
    assert es[..i + 1][..i] == es[..i];
  }

  lemma EmptyFamily()
    ensures FamilyPlacements([]) == Some([])
  {
  }

  /** The decode loop over one family, into the live or the baked layer. */
  method ReadFamily(state: TileStateJs, es: seq<Cbor.Entry>, baking: bool) returns (ok: bool)
    requires JsRegular(state.placements, state.baked)
    modifies state
    ensures JsRegular(state.placements, state.baked)
    ensures ok <==> FamilyPlacements(es).Some?
    ensures ok ==> View(state.placements, state.baked) == Both().Join(
      View(old(state.placements), old(state.baked)), Placed(FamilyPlacements(es).value, baking))
  {
    hide *;
    ghost var start := View(state.placements, state.baked);
    ghost var done: seq<SignedPlacement> := [];
    JsStart(state.placements, state.baked);
    EmptyFamily();
    PlacedShape([], [], baking);
    DropNothing(es);
    for i := 0 to |es|
      invariant JsRegular(state.placements, state.baked)
      invariant FamilyPlacements(es[..i]) == Some(done)
      invariant View(state.placements, state.baked) == Both().Join(start, Placed(done, baking))
    {
      FamilyStep(es, i);
      var log := es[i].value;
      if log.Map? {
        PlacementsShape(log.entries);
        var values := DecodeItems(MapValues(log.entries), DecodePlacement);
        if values == None {
          OneBadLog(es, i + 1);
          return false;
        }
        PlacedShape(done, values.value, baking);
        JsOffers(start, Placed(done, baking), Placed(values.value, baking));
        if baking {
          state.BakeAll(values.value);
        } else {
          state.ApplyDelta(values.value);
        }
        done := done + values.value;
      } else {
        assert done + [] == done;
      }
    }
    return true;
  }

  ghost function Placed(ps: seq<SignedPlacement>, baking: bool): Pair<SignedPlacement> {
    if baking then Pair({}, Elems(ps)) else Pair(Elems(ps), {})
  }

  lemma PlacedShape(p: seq<SignedPlacement>, q: seq<SignedPlacement>, baking: bool)
    ensures Placed(q, baking) == if baking then Pair({}, Elems(q)) else Pair(Elems(q), {})
    ensures Placed(p + q, baking)
         == Pair(Placed(p, baking).live + Placed(q, baking).live, Placed(p, baking).baked + Placed(q, baking).baked)
    ensures Placed([], baking) == Pair({}, {})
  {
    ElemsConcat(p, q);
    ElemsNone<SignedPlacement>([]);
  }

  /** What the bytes of a stored tile offer; empty bytes are the genesis state. */
  ghost function DecodedState(bytes: Bytes): Option<Pair<SignedPlacement>> {
    if bytes == [] then Some(Pair({}, {}))
    else match Decode(bytes)
      case Err(_) => None
      case Ok(root) => Offered(root)
  }

  /** decodeTileState; None where it throws. */
  method DecodeTileState(bytes: Bytes) returns (state: Option<TileStateJs>)
    ensures state.Some? <==> DecodedState(bytes).Some?
    ensures state.Some? ==>
      && fresh(state.value)
      && JsRegular(state.value.placements, state.value.baked)
      && View(state.value.placements, state.value.baked) == Both().Join(Pair({}, {}), DecodedState(bytes).value)
      && AllSafe(All(state.value.placements) + All(state.value.baked))
  {
    hide *;
    DecodedShape(bytes);
    DecodedIsSafe(bytes);
    var tile := new TileStateJs();
    JsStart(tile.placements, tile.baked);
    NothingPlaced();
    JsViewShape(tile.placements, tile.baked);
    if bytes == [] {
      return Some(tile);
    }
    var decoded := CborDecode(bytes);
    if decoded.Err? {
      return None;
    }
    var root := decoded.value;
    FamilyShape(root, PLACEMENTS);
    FamilyShape(root, BAKED);
    PlacedShape([], [], false);
    ghost var live, worn: seq<SignedPlacement> := [], [];
    var placements := MapGet(root, PLACEMENTS);
    if placements.Some? && placements.value.Map? {
      var ok := ReadFamily(tile, MapOf(placements.value.entries), false);
      if !ok {
        return None;
      }
      live := FamilyPlacements(MapOf(placements.value.entries)).value;
      PlacedShape([], live, false);
    }
    var baked := MapGet(root, BAKED);
    if baked.Some? && baked.value.Map? {
      var ok := ReadFamily(tile, MapOf(baked.value.entries), true);
      if !ok {
        return None;
      }
      worn := FamilyPlacements(MapOf(baked.value.entries)).value;
      PlacedShape([], worn, true);
    }
    JsOffers(Pair({}, {}), Pair(Elems(live), {}), Pair({}, Elems(worn)));
    UnionNothing(Elems(live));
    UnionNothing(Elems(worn));
    JsViewShape(tile.placements, tile.baked);
    return Some(tile);
  }

  /** So is every time in the store the bytes build. */
  lemma DecodedIsSafe(bytes: Bytes)
    ensures DecodedState(bytes).Some? ==>
      var s := Both().Join(Pair({}, {}), DecodedState(bytes).value); AllSafe(s.live + s.baked)
  {
    hide Safe, Stack.Join, Both;
    DecodedStateIsSafe(bytes);
    if DecodedState(bytes).Some? { JoinIsSafe(Pair({}, {}), DecodedState(bytes).value); }
  }

  lemma NothingPlaced()
    ensures View<string>(map[], map[]) == Pair({}, {}) && Elems<SignedPlacement>([]) == {}
    ensures Both().Join(Pair({}, {}), Pair({}, {})) == Pair({}, {})
  {
    var none: JsLogs := map[];
    assert All(none) == {};
    EmptyJs();
    JsStart(none, none);
  }

  lemma UnionNothing<T>(s: set<T>)
    ensures s + {} == s && {} + s == s
  {
  }

  lemma DecodedShape(bytes: Bytes)
    ensures bytes == [] ==> DecodedState(bytes) == Some(Pair({}, {}))
    ensures bytes != [] ==>
      match Decode(bytes)
      case Err(_) => DecodedState(bytes) == None
      case Ok(root) =>
        if FamilyOf(root, PLACEMENTS).Some? && FamilyOf(root, BAKED).Some?
        then DecodedState(bytes) == Some(Pair(Elems(FamilyOf(root, PLACEMENTS).value), Elems(FamilyOf(root, BAKED).value)))
        else DecodedState(bytes) == None
  {
    hide FamilyOf, Decode;
  }

  lemma FamilyShape(root: Value, name: Value)
    ensures var v := MapGet(root, name);
      FamilyOf(root, name) == if v.Some? && v.value.Map? then FamilyPlacements(MapOf(v.value.entries)) else Some([])
  {
    hide FamilyPlacements;
  }

  // ---- Safe times -----------------------------------------------------------------------------------------

  ghost predicate AllSafe(ps: set<SignedPlacement>) {
    forall p | p in ps :: Safe(p)
  }

  lemma NothingIsSafe()
    ensures AllSafe({})
  {
  }

  lemma PlacementBounded(v: Value)
    requires CborLaws.Bounded(v)
    ensures DecodePlacement(v).Some? ==> Safe(DecodePlacement(v).value)
  {
    hide Lookup, AsByteArray;
    MapGetBounded(v, TS);
  }

  lemma ListedBounded(items: seq<Value>)
    requires forall v | v in items :: CborLaws.Bounded(v)
    ensures Listed(items).Some? ==> AllSafe(Elems(Listed(items).value))
  {
    hide DecodePlacement, Safe, CborLaws.Bounded;
    if Listed(items).Some? {
      var ps := Listed(items).value;
      DecodeAllExact(items, DecodePlacement, ps);
      forall i | 0 <= i < |ps|
        ensures Safe(ps[i])
      {
        assert items[i] in items;
        PlacementBounded(items[i]);
      }
    }
  }

  lemma PlacementsBounded(es: seq<Cbor.Entry>)
    requires forall e | e in es :: CborLaws.Bounded(e.value)
    ensures Placements(es).Some? ==> AllSafe(Elems(Placements(es).value))
  {
    hide Listed, CborLaws.Bounded, MapOf;
    MapWithin(es);
    forall v | v in MapValues(es)
      ensures CborLaws.Bounded(v)
    {
      var i :| 0 <= i < |MapOf(es)| && MapValues(es)[i] == v;
      assert MapOf(es)[i] in MapOf(es);
    }
    ListedBounded(MapValues(es));
  }

  lemma BoundedEntries(es: seq<Cbor.Entry>)
    requires CborLaws.Bounded(Map(es))
    ensures forall e | e in es :: CborLaws.Bounded(e.value)
  {
  }

  lemma {:induction false} FamilyBounded(es: seq<Cbor.Entry>)
    requires forall e | e in es :: CborLaws.Bounded(e.value)
    ensures FamilyPlacements(es).Some? ==> AllSafe(Elems(FamilyPlacements(es).value))
  {
    hide Placements, CborLaws.Bounded;
    if es != [] {
      var n := |es| - 1;
      assert es[n] in es;
      FamilyBounded(es[..n]);
      var log := es[n].value;
      if log.Map? {
        BoundedEntries(log.entries);
        PlacementsBounded(log.entries);
      }
      if FamilyPlacements(es).Some? {
        ElemsConcat(FamilyPlacements(es[..n]).value, if log.Map? then Placements(log.entries).value else []);
      }
    }
  }

  lemma FamilyOfBounded(root: Value, name: Value)
    requires CborLaws.Bounded(root)
    ensures FamilyOf(root, name).Some? ==> AllSafe(Elems(FamilyOf(root, name).value))
  {
    hide FamilyPlacements, CborLaws.Bounded, MapOf, Lookup, Safe;
    MapGetBounded(root, name);
    match MapGet(root, name)
    case Some(Map(es)) =>
      BoundedEntries(es);
      MapWithin(es);
      FamilyBounded(MapOf(es));
    case _ =>
  }

  /** Whatever bytes decode, every time in them is a safe integer. */
  lemma DecodedStateIsSafe(bytes: Bytes)
    ensures DecodedState(bytes).Some? ==>
      AllSafe(DecodedState(bytes).value.live) && AllSafe(DecodedState(bytes).value.baked)
  {
    hide FamilyOf, Decode, Safe, CborLaws.Bounded;
    CborLaws.DecodeBounded(bytes);
    if Decode(bytes).Ok? {
      FamilyOfBounded(Decode(bytes).value, PLACEMENTS);
      FamilyOfBounded(Decode(bytes).value, BAKED);
    }
  }

  lemma DecodedDeltaIsSafe(bytes: Bytes)
    ensures DecodedDelta(bytes).Some? ==> AllSafe(Elems(DecodedDelta(bytes).value))
  {
    hide Listed, Decode, Safe, CborLaws.Bounded, MapGet;
    CborLaws.DecodeBounded(bytes);
    if bytes != [] && Decode(bytes).Ok? {
      var root := Decode(bytes).value;
      MapGetBounded(root, PLACEMENTS);
      match MapGet(root, PLACEMENTS)
      case Some(Arr(items)) =>
        BoundedItems(items);
        ListedBounded(items);
      case _ =>
    }
  }

  lemma BoundedItems(items: seq<Value>)
    requires CborLaws.Bounded(Arr(items))
    ensures forall v | v in items :: CborLaws.Bounded(v)
  {
  }

  /** A join holds nothing it was not offered, so safe stores stay safe. */
  lemma JoinIsSafe(a: Pair<SignedPlacement>, b: Pair<SignedPlacement>)
    requires AllSafe(a.live) && AllSafe(a.baked) && AllSafe(b.live) && AllSafe(b.baked)
    ensures AllSafe(Both().Join(a, b).live) && AllSafe(Both().Join(a, b).baked)
  {
    hide Safe, Layer;
    LayerWithin(MAX_PLACEMENTS_PER_AUTHOR, a.live + b.live);
    LayerWithin(MAX_BAKED_PER_AUTHOR, a.baked + b.baked + Layer(MAX_PLACEMENTS_PER_AUTHOR).Rest(a.live + b.live));
    StackShape(MAX_PLACEMENTS_PER_AUTHOR, MAX_BAKED_PER_AUTHOR, a, b);
  }

  lemma LayerWithin(cap: nat, x: set<SignedPlacement>)
    ensures Layer(cap).Normal(x) <= x && Layer(cap).Rest(x) <= x
  {
  }

  // ---- Deltas ---------------------------------------------------------------------------------------------

  function DeltaValue(ps: seq<SignedPlacement>): Value {
    Map([Cbor.Entry(PLACEMENTS, Arr(seq(|ps|, i requires 0 <= i < |ps| => PlacementValue(ps[i]))))])
  }

  function DecodedDelta(bytes: Bytes): Option<seq<SignedPlacement>> {
    if bytes == [] then Some([])
    else match Decode(bytes)
      case Err(_) => None
      case Ok(root) =>
        match MapGet(root, PLACEMENTS)
        case Some(Arr(items)) => Listed(items)
        case _ => Some([])
  }

  /** decodeTileDelta; None where it throws. */
  method DecodeTileDelta(bytes: Bytes) returns (ps: Option<seq<SignedPlacement>>)
    ensures ps == DecodedDelta(bytes)
    ensures ps.Some? ==> AllSafe(Elems(ps.value))
    ensures forall sent | Encodable(DeltaValue(sent)) && bytes == Encode(DeltaValue(sent)) :: ps == Some(sent)
  {
    hide DecodePlacement, Decode, Lookup, Encodable, Encode, DeltaValue, AllSafe;
    DecodedDeltaIsSafe(bytes);
    forall sent | Encodable(DeltaValue(sent)) && bytes == Encode(DeltaValue(sent))
      ensures DecodedDelta(bytes) == Some(sent)
    {
      DeltaBack(sent);
    }
    if bytes == [] {
      return Some([]);
    }
    var decoded := CborDecode(bytes);
    if decoded.Err? {
      return None;
    }
    var placements := MapGet(decoded.value, PLACEMENTS);
    if placements == None || !placements.value.Arr? {
      return Some([]);
    }
    ps := DecodeItems(placements.value.items, DecodePlacement);
  }

  lemma DeltaBack(ps: seq<SignedPlacement>)
    requires Encodable(DeltaValue(ps))
    ensures DecodedDelta(Encode(DeltaValue(ps))) == Some(ps)
  {
    var v := DeltaValue(ps);
    hide PlacementValue, Encodable, Encode, Decode, Lookup, Listed;
    CborLaws.DecodeInverts(v);
    EncodeNotEmpty(v);
    LookupAt(v.entries, PLACEMENTS, 0);
    ListedBack(ps, v.entries[0].value.items);
  }

  // ---- The merge ----------------------------------------------------------------------------------------------

  /** What the encoder writes of a tile: its one encoding, if it has one. */
  function Written(live: JsLogs, baked: JsLogs): Option<Bytes> {
    if Encodable(TileValue(live, baked)) then Some(Encode(TileValue(live, baked))) else None
  }

  /** mergeTileState; None where it throws. The bytes written are the encoding of the join. */
  method MergeTileState(stateBytes: Bytes, deltaBytes: Bytes) returns (r: Option<Bytes>)
    ensures DecodedState(stateBytes) == None || DecodedDelta(deltaBytes) == None ==> r == None
    ensures DecodedState(stateBytes).Some? && DecodedDelta(deltaBytes).Some? ==>
      exists live: JsLogs, baked: JsLogs ::
        && JsRegular(live, baked)
        && View(live, baked) == Both().Join(Both().Join(Pair({}, {}), DecodedState(stateBytes).value),
                                            Pair(Elems(DecodedDelta(deltaBytes).value), {}))
        && r == Written(live, baked)
  {
    hide *;
    var state := DecodeTileState(stateBytes);
    if state.None? {
      return None;
    }
    var delta := DecodeTileDelta(deltaBytes);
    if delta.None? {
      return None;
    }
    state.value.ApplyDelta(delta.value);
    ghost var live, baked := state.value.placements, state.value.baked;
    var bytes := EncodeTileState(state.value);
    r := if bytes.Ok? then Some(bytes.value) else None;
    WrittenShape(live, baked);
    assert r == Written(live, baked);
  }

  lemma WrittenShape(live: JsLogs, baked: JsLogs)
    ensures Encodable(TileValue(live, baked)) ==> Written(live, baked) == Some(Encode(TileValue(live, baked)))
    ensures !Encodable(TileValue(live, baked)) ==> Written(live, baked) == None
  {
    hide Encodable, TileValue, Encode;
  }

  lemma StartFromNothing(live: JsLogs, baked: JsLogs)
    requires JsRegular(live, baked)
    ensures Both().Join(Pair({}, {}), View(live, baked)) == View(live, baked)
  {
    hide *;
    JsStart(live, baked);
    Both().JoinCommutes(View(live, baked), Pair({}, {}));
  }

  /** Round trip of a whole tile through bytes. */
  lemma StateBack(live: JsLogs, baked: JsLogs)
    requires JsRegular(live, baked) && Encodable(TileValue(live, baked))
    ensures DecodedState(Encode(TileValue(live, baked))) == Some(View(live, baked))
    ensures Both().Join(Pair({}, {}), View(live, baked)) == View(live, baked)
  {
    var v := TileValue(live, baked);
    hide TileValue, Encodable, Encode, Decode, Offered, Both, View;
    CborLaws.DecodeInverts(v);
    EncodeNotEmpty(v);
    TileBack(live, baked);
    StartFromNothing(live, baked);
  }

  /** On the bytes of a capped, well-keyed tile and of a delta, what the merge writes is the
      one encoding of the tile joined with the delta: no other tile has that content. */
  lemma MergedBytesAreTheJoin(
      live: JsLogs, baked: JsLogs, ps: seq<SignedPlacement>, live': JsLogs, baked': JsLogs, live'': JsLogs, baked'': JsLogs)
    requires JsRegular(live, baked) && Encodable(TileValue(live, baked)) && Encodable(DeltaValue(ps))
    requires JsRegular(live', baked') && JsRegular(live'', baked'')
    requires var state, delta := Encode(TileValue(live, baked)), Encode(DeltaValue(ps));
      && DecodedState(state).Some? && DecodedDelta(delta).Some?
      && View(live', baked') == Both().Join(Both().Join(Pair({}, {}), DecodedState(state).value), Pair(Elems(DecodedDelta(delta).value), {}))
    requires View(live'', baked'') == Both().Join(View(live, baked), Pair(Elems(ps), {}))
    ensures TileValue(live', baked') == TileValue(live'', baked'')
  {
    hide *;
    StateBack(live, baked);
    DeltaBack(ps);
    JsShape(live', baked');
    JsShape(live'', baked'');
    SameViewSameTile(live', baked', live'', baked'', HexOf, MAX_PLACEMENTS_PER_AUTHOR, MAX_BAKED_PER_AUTHOR);
  }

  // ---- What can be encoded ------------------------------------------------------------------------------------

  /** The encoder never refuses a capped tile whose times are safe integers. */
  lemma SafeTileEncodable(live: JsLogs, baked: JsLogs)
    requires JsRegular(live, baked) && |live| <= MAX_SAFE_INTEGER && |baked| <= MAX_SAFE_INTEGER
    requires forall p | p in All(live) + All(baked) :: Safe(p)
    ensures Encodable(TileValue(live, baked))
  {
    hide *;
    JsShape(live, baked);
    KeyedHalves(live, baked);
    SafeLogsEncodable(live, MAX_PLACEMENTS_PER_AUTHOR);
    SafeLogsEncodable(baked, MAX_BAKED_PER_AUTHOR);
    TileValueShape(live, baked);
    EncodablePair(PLACEMENTS, LogsValue(live));
    EncodablePair(BAKED, LogsValue(baked));
    EncodableMap(TileValue(live, baked).entries);
  }

  lemma KeyedHalves(live: JsLogs, baked: JsLogs)
    requires JsRegular(live, baked)
    ensures KeyedLogs(live, HexOf) && CappedLogs(live, MAX_PLACEMENTS_PER_AUTHOR)
    ensures KeyedLogs(baked, HexOf) && CappedLogs(baked, MAX_BAKED_PER_AUTHOR)
    ensures MAX_PLACEMENTS_PER_AUTHOR <= MAX_SAFE_INTEGER && MAX_BAKED_PER_AUTHOR <= MAX_SAFE_INTEGER && 2 <= MAX_SAFE_INTEGER
  {
    hide KeyedLogs, CappedLogs;
  }

  lemma EncodablePair(name: Value, v: Value)
    requires name == PLACEMENTS || name == BAKED
    ensures Encodable(name)
  {
  }

  lemma EncodableMap(es: seq<Cbor.Entry>)
    requires |es| <= MAX_SAFE_INTEGER && forall i | 0 <= i < |es| :: Encodable(es[i].key) && Encodable(es[i].value)
    ensures Encodable(Map(es))
  {
  }

  lemma SafeLogsEncodable(logs: JsLogs, cap: nat)
    requires KeyedLogs(logs, HexOf) && CappedLogs(logs, cap) && cap <= MAX_SAFE_INTEGER && |logs| <= MAX_SAFE_INTEGER
    requires forall p | p in All(logs) :: Safe(p)
    ensures Encodable(LogsValue(logs))
  {
    var names := SortedNames(logs.Keys);
    assert forall a | a in names :: a in Elems(names);
    forall a, t | a in logs && t in logs[a]
      ensures t <= MAX_SAFE_INTEGER && Safe(logs[a][t])
    {
      assert logs[a][t] in All(logs);
    }
    assert |logs| == |logs.Keys|;
    hide Encodable, LogEntries, KeyedLogs, All, Safe;
    SafeEntriesEncodable(logs, names, cap);
    EncodableMap(LogEntries(logs, names));
  }

  lemma {:induction false} SafeEntriesEncodable(logs: JsLogs, names: seq<string>, cap: nat)
    requires CappedLogs(logs, cap) && cap <= MAX_SAFE_INTEGER && forall a | a in names :: a in logs
    requires forall a, t | a in logs && t in logs[a] :: t <= MAX_SAFE_INTEGER && Safe(logs[a][t])
    ensures |LogEntries(logs, names)| <= |names|
    ensures forall i | 0 <= i < |LogEntries(logs, names)| ::
      Encodable(LogEntries(logs, names)[i].key) && Encodable(LogEntries(logs, names)[i].value)
  {
    hide Encodable, LogEntry, Safe;
    if names != [] {
      SafeEntriesEncodable(logs, names[..|names| - 1], cap);
      SafeLogEncodable(logs[names[|names| - 1]]);
    }
  }

  lemma SafeLogEncodable(log: Log)
    requires |log| <= MAX_SAFE_INTEGER && forall t | t in log :: t <= MAX_SAFE_INTEGER && Safe(log[t])
    ensures |LogEntry(log)| <= 1
    ensures forall i | 0 <= i < |LogEntry(log)| :: Encodable(LogEntry(log)[i].key) && Encodable(LogEntry(log)[i].value)
  {
    LogEntryShape(log);
    var times := SortedTimes(log.Keys);
    hide LogEntry, Sorted, Encodable, Safe, InnerEntries, ByteList;
    if times != [] {
      ByteListBack(log[times[|times| - 1]].author);
      var es := InnerEntries(log, times);
      assert |log| == |log.Keys|;
      forall i | 0 <= i < |es|
        ensures Encodable(es[i].key) && Encodable(es[i].value)
      {
        PlacementEncodable(log[times[i]]);
        SafeInt(times[i]);
      }
      EncodableMap(es);
    }
  }

  lemma SafeInt(n: nat)
    ensures n <= MAX_SAFE_INTEGER ==> Encodable(Int(n))
  {
  }
}
