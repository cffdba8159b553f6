/** The client's tile store (web/src/state.ts, TileStateJs; web/src/backend.ts,
    mergeTileInto): the same two layers keyed by hex author strings, with a replay cutoff
    in front of the cooldown filter. */
module TileMirror {
  import opened Bytes
  import opened Orders
  import opened Choice
  import opened Stores
  import opened Layers
  import opened Filter
  import opened Outcomes
  import opened TileLog
  import opened TileFilter
  import opened TextKeys
  import Tile
  import CanvasLaws

  type JsLogs = Logs<string>

  ghost predicate JsRegular(live: JsLogs, baked: JsLogs) {
    KeyedTile(live, baked, HexOf, MAX_PLACEMENTS_PER_AUTHOR, MAX_BAKED_PER_AUTHOR)
  }

  ghost function Both(): Stack<SignedPlacement, Slot> {
    Tiles(MAX_PLACEMENTS_PER_AUTHOR, MAX_BAKED_PER_AUTHOR)
  }

  lemma HexKeying()
    ensures Keying(HexOf)
  {
    forall a: Bytes32, b: Bytes32 | HexOf(a) == HexOf(b)
      ensures a == b
    {
      HexOrder(a, b);
    }
  }

  lemma EmptyJs()
    ensures JsRegular(map[], map[])
  {
    HexKeying();
  }

  /** placementSlotWinner: keep a unless (signature, coord, color) of b is greater. */
  method PlacementSlotWinner(a: SignedPlacement, b: SignedPlacement) returns (w: SignedPlacement)
    ensures w == SlotWinner(a, b)
  {
    BytesOrder();
    var cmp := CompareBytes(a.signature, b.signature);
    if cmp == 0 {
      cmp := (a.coord as int) - (b.coord as int);
      if cmp == 0 {
        cmp := (a.color as int) - (b.color as int);
      }
    }
    w := if cmp >= 0 then a else b;
  }

  /** lwwGreater, by (ts, author bytes, signature bytes). */
  method LwwGreater(a: SignedPlacement, b: SignedPlacement) returns (greater: bool)
    ensures greater == LwwLess(b, a)
    ensures greater <==>
      b.ts < a.ts
      || (b.ts == a.ts && (BytesLess(b.author, a.author)
        || (b.author == a.author && BytesLess(b.signature, a.signature))))
  {
    BytesOrder();
    var cmp := (a.ts as int) - (b.ts as int);
    if cmp == 0 {
      cmp := CompareBytes(a.author, b.author);
      if cmp == 0 {
        cmp := CompareBytes(a.signature, b.signature);
      }
    }
    greater := cmp > 0;
  }

  method LogInsert(log: Log, placement: SignedPlacement, cap: nat)
    returns (out: Log, displaced: seq<SignedPlacement>)
    ensures out == Kept(LogWith(log, placement), cap)
    ensures Elems(displaced) == Displaced(LogWith(log, placement), cap)
  {
    hide *;
    Tile.LogWithShape(log, placement);
    var winner := placement;
    if placement.ts in log {
      winner := PlacementSlotWinner(log[placement.ts], placement);
    }
    out := log[placement.ts := winner];
    ghost var full, kept := out, out.Keys;
    displaced := [];
    ElemsNone(displaced);
    Tile.DropNone(full);
    while |out| > cap
      invariant kept <= full.Keys && out == Tile.LogRestrict(full, kept)
      invariant Top(TimeLess, kept, cap) == Top(TimeLess, full.Keys, cap)
      invariant Elems(displaced) == Tile.LogDropped(full, kept)
      decreases |out|
    {
      Tile.RestrictedKeys(full, kept);
      var oldest := FirstTime(out.Keys);
      Tile.DropOldest(full, kept, cap, oldest);
      ElemsSnoc(displaced, out[oldest]);
      displaced := displaced + [out[oldest]];
      Tile.MapMinus(out, oldest);
      out := out - {oldest};
      kept := kept - {oldest};
    }
    Tile.RestrictedKeys(full, kept);
    Tile.KeptIsRestrict(full, kept, cap);
  }

  // ---- The replay view of one author ------------------------------------------------------

  /** An author's entries under their own times, oldest first. */
  function OwnPairs(log: Log): (r: seq<Entry>)
    ensures |r| == |LogValues(log)|
  {
    var vs := LogValues(log);
    seq(|vs|, i requires 0 <= i < |vs| => (vs[i].ts, vs[i]))
  }

  function Cut(es: seq<Entry>, cutoff: Option<nat>): seq<Entry> {
    match cutoff
    case None => es
    case Some(c) => Until(es, EntryTime, c)
  }

  function JsChain(baked: Log, live: Log, cutoff: Option<nat>): seq<Entry> {
    SortByTime(Cut(OwnPairs(baked) + OwnPairs(live), cutoff))
  }

  function JsAccepted(baked: Log, live: Log, cooldown: nat, cutoff: Option<nat>): seq<SignedPlacement> {
    Values(Greedy(JsChain(baked, live, cutoff), EntryTime, Plus(cooldown), 0))
  }

  function JsValid(
    authors: seq<string>, live: JsLogs, baked: JsLogs, tierOf: string -> Option<Tier>, cutoff: Option<nat>): seq<SignedPlacement>
  {
    if authors == [] then []
    else
      var a := authors[|authors| - 1];
      JsValid(authors[..|authors| - 1], live, baked, tierOf, cutoff)
      + match tierOf(a)
        case None => []
        case Some(tier) => JsAccepted(LogOf(baked, a), LogOf(live, a), Cooldown(tier), cutoff)
  }

  function SortedNames(names: set<string>): (q: seq<string>)
    ensures Elems(q) == names && |q| == |names| && Ascending(StringLess, q)
  {
    StringLessTotal();
    Sorted(StringLess, names)
  }

  function JsValidPlacements(live: JsLogs, baked: JsLogs, tierOf: string -> Option<Tier>, cutoff: Option<nat>): seq<SignedPlacement> {
    JsValid(SortedNames(live.Keys + baked.Keys), live, baked, tierOf, cutoff)
  }

  class TileStateJs {
    var placements: JsLogs
    var baked: JsLogs

    constructor ()
      ensures placements == map[] && baked == map[] && JsRegular(placements, baked)
    {
      placements := map[];
      baked := map[];
      new;
      EmptyJs();
    }

    method Insert(placement: SignedPlacement)
      modifies this
      ensures JsRegular(old(placements), old(baked)) ==>
        && JsRegular(placements, baked)
        && View(placements, baked) == Both().Join(View(old(placements), old(baked)), Pair({placement}, {}))
    {
      hide *;
      ghost var pre := JsRegular(placements, baked);
      ghost var live0, baked0 := placements, baked;
      var author := HexOf(placement.author);
      JsLogOf(placements, author);
      var log, displaced := LogInsert(
        if author in placements then placements[author] else map[], placement, MAX_PLACEMENTS_PER_AUTHOR);
      JsPut(placements, author, placement, MAX_PLACEMENTS_PER_AUTHOR);
      placements := placements[author := log];
      ElemsAll(displaced);
      JsShape(live0, baked0);
      if pre { LogsAreNormal(baked0, HexOf, MAX_BAKED_PER_AUTHOR); }
      assert All(baked0) + {} == All(baked0);
      var i := 0;
      while i < |displaced|
        invariant 0 <= i <= |displaced|
        invariant placements == live0[author := log]
        invariant pre ==> KeyedLogs(baked, HexOf) && CappedLogs(baked, MAX_BAKED_PER_AUTHOR)
        invariant pre ==> All(baked) == Layer(MAX_BAKED_PER_AUTHOR).Normal(All(baked0) + Elems(displaced[..i]))
      {
        ElemsTake(displaced, i);
        UnionAssociates(All(baked0), Elems(displaced[..i]), {displaced[i]});
        if pre { BakeStep(baked, All(baked0) + Elems(displaced[..i]), HexOf, displaced[i], MAX_BAKED_PER_AUTHOR); }
        Bake(displaced[i]);
        i := i + 1;
      }
      if pre {
        InsertIsJoin(live0, baked0, baked, HexOf, placement, MAX_PLACEMENTS_PER_AUTHOR, MAX_BAKED_PER_AUTHOR);
        JsShape(placements, baked);
      }
    }

    /** What the baked cap displaces is gone. */
    method Bake(placement: SignedPlacement)
      modifies this`baked
      ensures baked == Put(old(baked), HexOf(placement.author), placement, MAX_BAKED_PER_AUTHOR)
    {
      hide *;
      var author := HexOf(placement.author);
      JsLogOf(baked, author);
      JsPut(baked, author, placement, MAX_BAKED_PER_AUTHOR);
      var log, gone := LogInsert(
        if author in baked then baked[author] else map[], placement, MAX_BAKED_PER_AUTHOR);
      baked := baked[author := log];
    }

    method ApplyDelta(delta: seq<SignedPlacement>)
      modifies this
      ensures JsRegular(old(placements), old(baked)) ==>
        && JsRegular(placements, baked)
        && View(placements, baked) == Both().Join(View(old(placements), old(baked)), Pair(Elems(delta), {}))
    {
      hide *;
      ghost var pre, start := JsRegular(placements, baked), View(placements, baked);
      if pre { JsStart(placements, baked); }
      ElemsAll(delta);
      var i := 0;
      while i < |delta|
        invariant 0 <= i <= |delta|
        invariant pre ==> JsRegular(placements, baked)
        invariant pre ==> View(placements, baked) == Both().Join(start, Pair(Elems(delta[..i]), {}))
      {
        ElemsTake(delta, i);
        JsOffers(start, Pair(Elems(delta[..i]), {}), Pair({delta[i]}, {}));
        Insert(delta[i]);
        i := i + 1;
      }
    }

    method BakeAll(values: seq<SignedPlacement>)
      modifies this
      ensures JsRegular(old(placements), old(baked)) ==>
        && JsRegular(placements, baked)
        && View(placements, baked) == Both().Join(View(old(placements), old(baked)), Pair({}, Elems(values)))
    {
      hide *;
      ghost var pre, start := JsRegular(placements, baked), View(placements, baked);
      if pre { JsStart(placements, baked); }
      ElemsAll(values);
      var i := 0;
      while i < |values|
        invariant 0 <= i <= |values|
        invariant pre ==> JsRegular(placements, baked)
        invariant pre ==> View(placements, baked) == Both().Join(start, Pair({}, Elems(values[..i])))
      {
        ElemsTake(values, i);
        JsOffers(start, Pair({}, Elems(values[..i])), Pair({}, {values[i]}));
        if pre { JsBake(placements, baked, values[i]); }
        Bake(values[i]);
        i := i + 1;
      }
    }

    /** The cooldown filter over the entries up to the cutoff, author by author in hex order. */
    method ValidPlacements(tierOf: string -> Option<Tier>, cutoff: Option<nat>) returns (accepted: seq<SignedPlacement>)
      ensures accepted == JsValidPlacements(placements, baked, tierOf, cutoff)
    {
      hide *;
      JsValidShape(placements, baked, tierOf, cutoff);
      var authors := SortedNames(placements.Keys + baked.Keys);
      accepted := [];
      assert authors[..|authors|] == authors;
      JsValidNone(authors, placements, baked, tierOf, cutoff);
      var i := 0;
      while i < |authors|
        invariant 0 <= i <= |authors|
        invariant accepted == JsValid(authors[..i], placements, baked, tierOf, cutoff)
      {
        var author := authors[i];
        JsValidStep(authors, i, placements, baked, tierOf, cutoff);
        JsLogOf(placements, author);
        JsLogOf(baked, author);
        if tierOf(author).Some? {
          var more := ApplyCooldown(
            if author in baked then baked[author] else map[],
            if author in placements then placements[author] else map[],
            Cooldown(tierOf(author).value), cutoff);
          accepted := accepted + more;
        } else {
          assert accepted + [] == accepted;
        }
        i := i + 1;
      }
    }

    method DeriveWinners(tierOf: string -> Option<Tier>, cutoff: Option<nat>) returns (winners: map<u16, SignedPlacement>)
      ensures Winners(JsValidPlacements(placements, baked, tierOf, cutoff), winners)
    {
      hide *;
      var valid := ValidPlacements(tierOf, cutoff);
      winners := map[];
      Tile.NoWinners();
      assert valid[..0] == [] && valid[..|valid|] == valid;
      var i := 0;
      while i < |valid|
        invariant 0 <= i <= |valid|
        invariant Winners(valid[..i], winners)
      {
        var placement := valid[i];
        assert valid[..i + 1] == valid[..i] + [placement];
        WinnersStep(valid[..i], winners, placement);
        if placement.coord !in winners {
          winners := winners[placement.coord := placement];
        } else {
          var greater := LwwGreater(placement, winners[placement.coord]);
          if greater {
            winners := winners[placement.coord := placement];
          } else {
            assert winners[placement.coord := winners[placement.coord]] == winners;
          }
        }
        i := i + 1;
      }
    }

    method DeriveCanvas(tierOf: string -> Option<Tier>) returns (canvas: array<u8>)
      ensures fresh(canvas) && canvas.Length == TILE_AREA
      ensures forall c: u16 :: PixelRule(JsValidPlacements(placements, baked, tierOf, None), c, canvas[c])
    {
      hide *;
      Tile.AreaShape();
      var winners := DeriveWinners(tierOf, None);
      canvas := CanvasFromWinners(winners);
      forall c: u16
        ensures PixelRule(JsValidPlacements(placements, baked, tierOf, None), c, canvas[c])
      {
        WinnerColours(JsValidPlacements(placements, baked, tierOf, None), winners, c);
      }
    }
  }

  /** Projecting the winners onto the tile's pixels. */
  method CanvasFromWinners(winners: map<u16, SignedPlacement>) returns (canvas: array<u8>)
    ensures fresh(canvas) && canvas.Length == TILE_AREA
    ensures forall c: u16 :: canvas[c] == if c in winners then winners[c].color else EMPTY_PIXEL
  {
    canvas := new u8[65536](_ => EMPTY_PIXEL);
    var remaining := winners.Keys;
    while remaining != {}
      invariant remaining <= winners.Keys
      invariant forall c: u16 :: canvas[c] == if c in winners && c !in remaining then winners[c].color else EMPTY_PIXEL
      decreases remaining
    {
      var coord :| coord in remaining;
      canvas[coord] := winners[coord].color;
      remaining := remaining - {coord};
    }
  }

  /** Filter by the cutoff, sort by time, then accept greedily. */
  method ApplyCooldown(bakedLog: Log, liveLog: Log, cooldown: nat, cutoff: Option<nat>)
    returns (accepted: seq<SignedPlacement>)
    ensures accepted == JsAccepted(bakedLog, liveLog, cooldown, cutoff)
  {
    hide *;
    JsAcceptedShape(bakedLog, liveLog, cooldown, cutoff);
    var entries := SortByTime(Cut(OwnPairs(bakedLog) + OwnPairs(liveLog), cutoff));
    OwnTimesOf(bakedLog, liveLog, cutoff);
    ghost var bar := Plus(cooldown);
    ghost var all := Greedy(entries, EntryTime, bar, 0);
    ghost var taken: seq<Entry> := [];
    accepted := [];
    var lastAccepted: Option<u64> := None;
    DropNothing(entries);
    Tile.ValuesNone();
    var i := 0;
    while i < |entries|
      invariant 0 <= i <= |entries|
      invariant accepted == Values(taken)
      invariant taken + Greedy(entries[i..], EntryTime, bar, if lastAccepted.None? then 0 else bar(lastAccepted.value)) == all
    {
      var placement := entries[i].1;
      GreedyStep(entries[i..], bar, if lastAccepted.None? then 0 else bar(lastAccepted.value));
      DropHead(entries, i);
      if lastAccepted.Some? { PlusStep(cooldown, lastAccepted.value); }
      if lastAccepted.None? || placement.ts - lastAccepted.value >= cooldown {
        ValuesStep(taken, entries[i]);
        accepted := accepted + [placement];
        Regroup(taken, entries[i], Greedy(entries[i + 1..], EntryTime, bar, bar(placement.ts)));
        taken := taken + [entries[i]];
        lastAccepted := Some(placement.ts);
      }
      i := i + 1;
    }
    GreedyStep(entries[|entries|..], bar, if lastAccepted.None? then 0 else bar(lastAccepted.value));
  }

  /** Folding a decoded full state into the render state: live placements through insert,
      baked ones straight into the baked layer. */
  method MergeTileInto(target: TileStateJs, decoded: TileStateJs)
    requires target != decoded
    modifies target
    ensures JsRegular(old(target.placements), old(target.baked)) ==>
      && JsRegular(target.placements, target.baked)
      && View(target.placements, target.baked)
         == Both().Join(View(old(target.placements), old(target.baked)), View(decoded.placements, decoded.baked))
  {
    hide *;
    ghost var pre, start := JsRegular(target.placements, target.baked), View(target.placements, target.baked);
    ghost var live := All(decoded.placements);
    if pre { JsStart(target.placements, target.baked); }
    var order := SortedNames(decoded.placements.Keys);
    ElemsAll(order);
    GatheredAll(decoded.placements);
    var i := 0;
    while i < |order|
      invariant 0 <= i <= |order|
      invariant pre ==> JsRegular(target.placements, target.baked)
      invariant pre ==> (View(target.placements, target.baked)
        == Both().Join(start, Pair(Gathered(decoded.placements, Elems(order[..i])), {})))
    {
      Tile.ElemsIndex(order, i);
      GatheredStep(decoded.placements, order, i);
      var values := LogValues(decoded.placements[order[i]]);
      JsOffers(start, Pair(Gathered(decoded.placements, Elems(order[..i])), {}), Pair(Elems(values), {}));
      target.ApplyDelta(values);
      i := i + 1;
    }
    order := SortedNames(decoded.baked.Keys);
    ElemsAll(order);
    GatheredAll(decoded.baked);
    i := 0;
    while i < |order|
      invariant 0 <= i <= |order|
      invariant pre ==> JsRegular(target.placements, target.baked)
      invariant pre ==> (View(target.placements, target.baked)
        == Both().Join(start, Pair(live, Gathered(decoded.baked, Elems(order[..i])))))
    {
      Tile.ElemsIndex(order, i);
      GatheredStep(decoded.baked, order, i);
      var values := LogValues(decoded.baked[order[i]]);
      JsOffers(start, Pair(live, Gathered(decoded.baked, Elems(order[..i]))), Pair({}, Elems(values)));
      target.BakeAll(values);
      i := i + 1;
    }
    JsViewShape(decoded.placements, decoded.baked);
  }

  // ---- Unfolding steps -------------------------------------------------------------------

  lemma JsLogOf(logs: JsLogs, a: string)
    ensures LogOf(logs, a) == if a in logs then logs[a] else map[]
  {
  }

  lemma JsPut(logs: JsLogs, a: string, p: SignedPlacement, cap: nat)
    ensures Put(logs, a, p, cap) == logs[a := Kept(LogWith(LogOf(logs, a), p), cap)]
  {
  }

  lemma JsShape(live: JsLogs, baked: JsLogs)
    ensures JsRegular(live, baked)
       <==> KeyedTile(live, baked, HexOf, MAX_PLACEMENTS_PER_AUTHOR, MAX_BAKED_PER_AUTHOR)
    ensures JsRegular(live, baked) ==> KeyedLogs(baked, HexOf) && CappedLogs(baked, MAX_BAKED_PER_AUTHOR)
    ensures Both() == Tiles(MAX_PLACEMENTS_PER_AUTHOR, MAX_BAKED_PER_AUTHOR)
    ensures MAX_PLACEMENTS_PER_AUTHOR >= 1 && MAX_BAKED_PER_AUTHOR >= 1
  {
  }

  lemma JsViewShape(live: JsLogs, baked: JsLogs)
    ensures View(live, baked) == Pair(All(live), All(baked))
  {
  }

  lemma JsStart(live: JsLogs, baked: JsLogs)
    requires JsRegular(live, baked)
    ensures View(live, baked) == Both().Join(View(live, baked), Pair({}, {}))
  {
    hide All, Layer;
    TileIsSettled(live, baked, HexOf, MAX_PLACEMENTS_PER_AUTHOR, MAX_BAKED_PER_AUTHOR);
    TilesLawful(MAX_PLACEMENTS_PER_AUTHOR, MAX_BAKED_PER_AUTHOR);
    Both().JoinIdempotent(View(live, baked));
  }

  lemma JsOffers(s: Pair<SignedPlacement>, x: Pair<SignedPlacement>, y: Pair<SignedPlacement>)
    ensures Both().Join(Both().Join(s, x), y) == Both().Join(s, Pair(x.live + y.live, x.baked + y.baked))
    ensures x.baked == {} && y.baked == {} ==> x.baked + y.baked == {}
    ensures y.live == {} ==> x.live + y.live == x.live
    ensures x.live == {} ==> x.live + y.live == y.live
  {
    hide Tiles, Stack.Join;
    Tile.JoinOffersOf(MAX_PLACEMENTS_PER_AUTHOR, MAX_BAKED_PER_AUTHOR, s, x, y);
  }

  lemma JsBake(live: JsLogs, baked: JsLogs, p: SignedPlacement)
    requires JsRegular(live, baked)
    ensures JsRegular(live, Put(baked, HexOf(p.author), p, MAX_BAKED_PER_AUTHOR))
    ensures View(live, Put(baked, HexOf(p.author), p, MAX_BAKED_PER_AUTHOR))
         == Both().Join(View(live, baked), Pair({}, {p}))
  {
    hide All, Put, Layer, KeyedTile;
    BakeIsJoin(live, baked, HexOf, p, MAX_PLACEMENTS_PER_AUTHOR, MAX_BAKED_PER_AUTHOR);
  }

  lemma JsValidShape(live: JsLogs, baked: JsLogs, tierOf: string -> Option<Tier>, cutoff: Option<nat>)
    ensures JsValidPlacements(live, baked, tierOf, cutoff)
         == JsValid(SortedNames(live.Keys + baked.Keys), live, baked, tierOf, cutoff)
  {
  }

  lemma JsValidNone(authors: seq<string>, live: JsLogs, baked: JsLogs, tierOf: string -> Option<Tier>, cutoff: Option<nat>)
    ensures JsValid(authors[..0], live, baked, tierOf, cutoff) == []
  {
  }

  lemma JsValidStep(
      authors: seq<string>, i: nat, live: JsLogs, baked: JsLogs, tierOf: string -> Option<Tier>, cutoff: Option<nat>)
    requires i < |authors|
    ensures JsValid(authors[..i + 1], live, baked, tierOf, cutoff) == JsValid(authors[..i], live, baked, tierOf, cutoff)
      + match tierOf(authors[i])
        case None => []
        case Some(tier) => JsAccepted(LogOf(baked, authors[i]), LogOf(live, authors[i]), Cooldown(tier), cutoff)
  {
    assert authors[..i + 1][..i] == authors[..i];
  }

  lemma JsAcceptedShape(baked: Log, live: Log, cooldown: nat, cutoff: Option<nat>)
    ensures JsAccepted(baked, live, cooldown, cutoff)
         == Values(Greedy(SortByTime(Cut(OwnPairs(baked) + OwnPairs(live), cutoff)), EntryTime, Plus(cooldown), 0))
  {
  }

  lemma PlusStep(cooldown: nat, t: u64)
    ensures Plus(cooldown)(t) == t + cooldown
  {
  }

  lemma OwnTimesOf(baked: Log, live: Log, cutoff: Option<nat>)
    ensures forall e | e in SortByTime(Cut(OwnPairs(baked) + OwnPairs(live), cutoff)) :: e.0 == e.1.ts
  {
    hide SortByTime, LogValues, Until;
    var es := OwnPairs(baked) + OwnPairs(live);
    SortSorted(Cut(es, cutoff));
    if cutoff.Some? { UntilMembers(es, EntryTime, cutoff.value); }
  }
}
