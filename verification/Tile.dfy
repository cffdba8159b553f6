/** The canvas tile core (common/src/tile.rs): live and baked placement logs updated in
    place, merging, summaries and deltas. */
module Tile {
  import opened Bytes
  import opened Orders
  import opened Choice
  import opened Stores
  import opened Layers
  import opened Outcomes
  import opened TileLog
  import opened TileFilter
  import Filter

  type AuthorLogs = Logs<Bytes32>

  /** Newest timestamp per author. */
  type Summary = map<Bytes32, u64>

  ghost predicate Regular(live: AuthorLogs, baked: AuthorLogs, logCap: nat, bakedCap: nat) {
    KeyedTile(live, baked, Own, logCap, bakedCap)
  }

  /** The watermark of each author is the greatest time key of its logs. */
  ghost predicate Marks(s: Summary, times: set<(Bytes32, u64)>) {
    && (forall e | e in times :: e.0 in s && e.1 <= s[e.0])
    && (forall a | a in s :: (a, s[a]) in times)
  }

  ghost function TimeKeys(logs: AuthorLogs): set<(Bytes32, u64)> {
    set a, t | a in logs && t in logs[a] :: (a, t)
  }

  ghost function TimeKeysOf(logs: AuthorLogs, authors: set<Bytes32>): set<(Bytes32, u64)> {
    set a, t | a in logs && a in authors && t in logs[a] :: (a, t)
  }

  lemma TimeKeysStep(logs: AuthorLogs, q: seq<Bytes32>, i: nat)
    requires i < |q| && q[i] in logs
    ensures TimeKeysOf(logs, Elems(q[..i + 1]))
         == TimeKeysOf(logs, Elems(q[..i])) + set t | t in logs[q[i]] :: (q[i], t)
  {
    ElemsTake(q, i);
  }

  lemma TimeKeysAll(logs: AuthorLogs)
    ensures TimeKeysOf(logs, {}) == {} && TimeKeysOf(logs, logs.Keys) == TimeKeys(logs)
  {
  }

  /** Raising one author's watermark to its log's last key covers the whole log. */
  lemma RaiseStep(s: Summary, times: set<(Bytes32, u64)>, a: Bytes32, log: Log, last: u64)
    requires Marks(s, times) && last in log && forall t | t in log :: t <= last
    ensures Marks(s[a := if a in s && s[a] > last then s[a] else last], times + set t | t in log :: (a, t))
  {
    var s' := s[a := if a in s && s[a] > last then s[a] else last];
    var times' := times + set t | t in log :: (a, t);
    forall b | b in s'
      ensures (b, s'[b]) in times'
    {
      if b == a && s'[b] == last { assert (a, last) in set t | t in log :: (a, t); }
    }
  }

  function LastTime(times: set<u64>): (t: u64)
    requires times != {}
    ensures t in times && forall u | u in times :: u <= t
  {
    var q := SortedTimes(times);
    assert q[|q| - 1] in Elems(q);
    assert forall u | u in Elems(q) :: u <= q[|q| - 1] by {
      forall u | u in Elems(q)
        ensures u <= q[|q| - 1]
      {
        var i :| 0 <= i < |q| && q[i] == u;
        assert i < |q| - 1 ==> TimeLess(q[i], q[|q| - 1]);
      }
    }
    q[|q| - 1]
  }

  predicate Newer(s: Summary, author: Bytes32, p: SignedPlacement) {
    author !in s || p.ts > s[author]
  }

  /** What a summary's owner is missing: looked up under the log's key, compared by the
      placement's own time, as the delta does. */
  ghost function MissingFrom(s: Summary, logs: AuthorLogs): set<SignedPlacement> {
    set a, t | a in logs && t in logs[a] && (a !in s || logs[a][t].ts > s[a]) :: logs[a][t]
  }

  ghost function MissingOf(s: Summary, logs: AuthorLogs, authors: set<Bytes32>): set<SignedPlacement> {
    set a, t | a in logs && a in authors && t in logs[a] && Newer(s, a, logs[a][t]) :: logs[a][t]
  }

  lemma MissingStep(s: Summary, logs: AuthorLogs, q: seq<Bytes32>, i: nat)
    requires i < |q| && q[i] in logs
    ensures MissingOf(s, logs, Elems(q[..i + 1])) == MissingOf(s, logs, Elems(q[..i]))
      + set p | p in logs[q[i]].Values && Newer(s, q[i], p)
  {
    ElemsTake(q, i);
    forall p | p in logs[q[i]].Values && Newer(s, q[i], p)
      ensures p in MissingOf(s, logs, Elems(q[..i + 1]))
    {
      var t :| t in logs[q[i]] && logs[q[i]][t] == p;
    }
  }

  lemma MissingAll(s: Summary, logs: AuthorLogs)
    ensures MissingOf(s, logs, {}) == {} && MissingOf(s, logs, logs.Keys) == MissingFrom(s, logs)
  {
  }

  /** Insert into a log with same-slot resolution and a newest-cap truncation. The log
      is handed back together with what the cap displaced, oldest first. */
  method LogInsert(log: Log, placement: SignedPlacement, cap: nat)
    returns (out: Log, displaced: seq<SignedPlacement>)
    ensures out == Kept(LogWith(log, placement), cap)
    ensures Elems(displaced) == Displaced(LogWith(log, placement), cap)
    ensures |displaced| + |out| == |LogWith(log, placement)|
  {
    hide *;
    LogWithShape(log, placement);
    ghost var full := LogWith(log, placement);
    out := log[placement.ts := if placement.ts in log then SlotWinner(log[placement.ts], placement) else placement];
    displaced := [];
    ElemsNone(displaced);
    DropNone(full);
    ghost var kept := full.Keys;
    while |out| > cap
      invariant kept <= full.Keys && out == LogRestrict(full, kept)
      invariant Top(TimeLess, kept, cap) == Top(TimeLess, full.Keys, cap)
      invariant Elems(displaced) == LogDropped(full, kept)
      invariant |displaced| + |out| == |full|
      decreases |out|
    {
      RestrictedKeys(full, kept);
      var oldest := FirstTime(out.Keys);
      DropOldest(full, kept, cap, oldest);
      ElemsSnoc(displaced, out[oldest]);
      displaced := displaced + [out[oldest]];
      MapMinus(out, oldest);
      out := out - {oldest};
      kept := kept - {oldest};
    }
    RestrictedKeys(full, kept);
    KeptIsRestrict(full, kept, cap);
  }

  ghost function LogRestrict(log: Log, times: set<u64>): Log {
    map t | t in log && t in times :: log[t]
  }

  ghost function LogDropped(log: Log, times: set<u64>): set<SignedPlacement> {
    set t | t in log && t !in times :: log[t]
  }

  lemma LogWithShape(log: Log, p: SignedPlacement)
    ensures LogWith(log, p) == log[p.ts := if p.ts in log then SlotWinner(log[p.ts], p) else p]
  {
  }

  lemma DropNone(log: Log)
    ensures LogRestrict(log, log.Keys) == log && LogDropped(log, log.Keys) == {}
  {
  }

  lemma RestrictedKeys(log: Log, times: set<u64>)
    requires times <= log.Keys
    ensures LogRestrict(log, times).Keys == times && |LogRestrict(log, times)| == |times|
    ensures forall t | t in times :: LogRestrict(log, times)[t] == log[t]
  {
    assert LogRestrict(log, times).Keys == times;
    assert |LogRestrict(log, times)| == |LogRestrict(log, times).Keys|;
  }

  lemma MapMinus(log: Log, t: u64)
    requires t in log
    ensures |log - {t}| == |log| - 1
  {
    assert |log - {t}| == |(log - {t}).Keys|;
    assert (log - {t}).Keys == log.Keys - {t};
    assert |log| == |log.Keys|;
  }

  lemma DropOldest(log: Log, times: set<u64>, cap: nat, oldest: u64)
    requires times <= log.Keys && |times| > cap
    requires oldest in times && forall t | t in times && t != oldest :: oldest < t
    ensures LogRestrict(log, times) - {oldest} == LogRestrict(log, times - {oldest})
    ensures LogDropped(log, times - {oldest}) == LogDropped(log, times) + {log[oldest]}
    ensures Top(TimeLess, times - {oldest}, cap) == Top(TimeLess, times, cap)
  {
    hide Top;
    TimeLessTotal();
    TopDropLeast(TimeLess, times, cap, oldest);
  }

  lemma KeptIsRestrict(log: Log, times: set<u64>, cap: nat)
    requires times <= log.Keys && |times| <= cap
    requires Top(TimeLess, times, cap) == Top(TimeLess, log.Keys, cap)
    ensures Kept(log, cap) == LogRestrict(log, times)
    ensures Displaced(log, cap) == LogDropped(log, times)
  {
    hide Top;
    TimeLessTotal();
    TopSmall(TimeLess, times, cap);
  }

  class TileState {
    var placements: AuthorLogs
    var baked: AuthorLogs

    constructor ()
      ensures placements == map[] && baked == map[]
    {
      placements := map[];
      baked := map[];
    }

    method InsertBounded(placement: SignedPlacement, logCap: nat, bakedCap: nat)
      requires logCap >= 1 && bakedCap >= 1
      modifies this
      ensures placements == Put(old(placements), placement.author, placement, logCap)
      ensures Regular(old(placements), old(baked), logCap, bakedCap) ==>
        && Regular(placements, baked, logCap, bakedCap)
        && View(placements, baked)
           == Tiles(logCap, bakedCap).Join(View(old(placements), old(baked)), Pair({placement}, {}))
    {
      hide *;
      ghost var pre := Regular(placements, baked, logCap, bakedCap);
      ghost var live0, baked0 := placements, baked;
      var author := placement.author;
      LogOfShape(placements, author);
      var log, displaced := LogInsert(if author in placements then placements[author] else map[], placement, logCap);
      PutShape(placements, author, placement, logCap);
      placements := placements[author := log];
      ElemsAll(displaced);
      if pre {
        RegularShape(live0, baked0, logCap, bakedCap);
        LogsAreNormal(baked0, Own, bakedCap);
      }
      assert All(baked0) + {} == All(baked0);
      var i := 0;
      while i < |displaced|
        invariant 0 <= i <= |displaced|
        invariant placements == live0[author := log]
        invariant pre ==> KeyedLogs(baked, Own) && CappedLogs(baked, bakedCap)
        invariant pre ==> All(baked) == Layer(bakedCap).Normal(All(baked0) + Elems(displaced[..i]))
      {
        ElemsTake(displaced, i);
        UnionAssociates(All(baked0), Elems(displaced[..i]), {displaced[i]});
        OwnShape(displaced[i].author);
        if pre { BakeStep(baked, All(baked0) + Elems(displaced[..i]), Own, displaced[i], bakedCap); }
        BakeBounded(displaced[i], bakedCap);
        i := i + 1;
      }
      if pre {
        OwnShape(author);
        InsertIsJoin(live0, baked0, baked, Own, placement, logCap, bakedCap);
        RegularShape(placements, baked, logCap, bakedCap);
      }
    }

    method BakeBounded(placement: SignedPlacement, bakedCap: nat)
      requires bakedCap >= 1
      modifies this`baked
      ensures baked == Put(old(baked), placement.author, placement, bakedCap)
    {
      hide *;
      var author := placement.author;
      LogOfShape(baked, author);
      PutShape(baked, author, placement, bakedCap);
      var log, gone := LogInsert(if author in baked then baked[author] else map[], placement, bakedCap);
      baked := baked[author := log];
    }

    method Insert(placement: SignedPlacement)
      modifies this
      ensures placements == Put(old(placements), placement.author, placement, MAX_PLACEMENTS_PER_AUTHOR)
      ensures Regular(old(placements), old(baked), MAX_PLACEMENTS_PER_AUTHOR, MAX_BAKED_PER_AUTHOR) ==>
        && Regular(placements, baked, MAX_PLACEMENTS_PER_AUTHOR, MAX_BAKED_PER_AUTHOR)
        && View(placements, baked) == Tiles(MAX_PLACEMENTS_PER_AUTHOR, MAX_BAKED_PER_AUTHOR).Join(
             View(old(placements), old(baked)), Pair({placement}, {}))
      ensures Regular(old(placements), old(baked), 8, 65536) ==>
        && Regular(placements, baked, 8, 65536)
        && View(placements, baked) == Tiles(8, 65536).Join(
             View(old(placements), old(baked)), Pair({placement}, {}))
    {
      InsertBounded(placement, MAX_PLACEMENTS_PER_AUTHOR, MAX_BAKED_PER_AUTHOR);
    }

    /** The other state may be mis-keyed or over the caps: only its values matter. */
    method MergeBounded(other: TileState, logCap: nat, bakedCap: nat)
      requires other != this && logCap >= 1 && bakedCap >= 1
      modifies this
      ensures Regular(old(placements), old(baked), logCap, bakedCap) ==>
        && Regular(placements, baked, logCap, bakedCap)
        && View(placements, baked) == Tiles(logCap, bakedCap).Join(
             View(old(placements), old(baked)), View(other.placements, other.baked))
    {
      hide *;
      ghost var pre, start := Regular(placements, baked, logCap, bakedCap), View(placements, baked);
      ghost var live, worn := All(other.placements), All(other.baked);
      if pre { StartJoin(placements, baked, logCap, bakedCap); }
      var order := SortedAuthors(other.placements.Keys);
      ElemsAll(order);
      GatheredAll(other.placements);
      var i := 0;
      while i < |order|
        invariant 0 <= i <= |order|
        invariant pre ==> Regular(placements, baked, logCap, bakedCap)
        invariant pre ==> (View(placements, baked)
          == Tiles(logCap, bakedCap).Join(start, Pair(Gathered(other.placements, Elems(order[..i])), {})))
      {
        ElemsIndex(order, i);
        GatheredStep(other.placements, order, i);
        var values := LogValues(other.placements[order[i]]);
        JoinOffersOf(logCap, bakedCap, start,
          Pair(Gathered(other.placements, Elems(order[..i])), {}), Pair(Elems(values), {}));
        InsertValues(values, logCap, bakedCap);
        i := i + 1;
      }
      order := SortedAuthors(other.baked.Keys);
      ElemsAll(order);
      GatheredAll(other.baked);
      i := 0;
      while i < |order|
        invariant 0 <= i <= |order|
        invariant pre ==> Regular(placements, baked, logCap, bakedCap)
        invariant pre ==> (View(placements, baked)
          == Tiles(logCap, bakedCap).Join(start, Pair(live, Gathered(other.baked, Elems(order[..i])))))
      {
        ElemsIndex(order, i);
        GatheredStep(other.baked, order, i);
        var values := LogValues(other.baked[order[i]]);
        JoinOffersOf(logCap, bakedCap, start,
          Pair(live, Gathered(other.baked, Elems(order[..i]))), Pair({}, Elems(values)));
        BakeValues(values, logCap, bakedCap);
        i := i + 1;
      }
      ViewShape(other.placements, other.baked);
    }

    /** The inner loop of a merge over one live log. */
    method InsertValues(values: seq<SignedPlacement>, logCap: nat, bakedCap: nat)
      requires logCap >= 1 && bakedCap >= 1
      modifies this
      ensures Regular(old(placements), old(baked), logCap, bakedCap) ==>
        && Regular(placements, baked, logCap, bakedCap)
        && View(placements, baked) == Tiles(logCap, bakedCap).Join(
             View(old(placements), old(baked)), Pair(Elems(values), {}))
    {
      hide *;
      ghost var pre, start := Regular(placements, baked, logCap, bakedCap), View(placements, baked);
      if pre { StartJoin(placements, baked, logCap, bakedCap); }
      ElemsAll(values);
      var i := 0;
      while i < |values|
        invariant 0 <= i <= |values|
        invariant pre ==> Regular(placements, baked, logCap, bakedCap)
        invariant pre ==> (View(placements, baked)
          == Tiles(logCap, bakedCap).Join(start, Pair(Elems(values[..i]), {})))
      {
        ElemsTake(values, i);
        JoinOffersOf(logCap, bakedCap, start, Pair(Elems(values[..i]), {}), Pair({values[i]}, {}));
        InsertBounded(values[i], logCap, bakedCap);
        i := i + 1;
      }
    }

    /** The inner loop of a merge over one baked log. */
    method BakeValues(values: seq<SignedPlacement>, logCap: nat, bakedCap: nat)
      requires logCap >= 1 && bakedCap >= 1
      modifies this
      ensures Regular(old(placements), old(baked), logCap, bakedCap) ==>
        && Regular(placements, baked, logCap, bakedCap)
        && View(placements, baked) == Tiles(logCap, bakedCap).Join(
             View(old(placements), old(baked)), Pair({}, Elems(values)))
    {
      hide *;
      ghost var pre, start := Regular(placements, baked, logCap, bakedCap), View(placements, baked);
      if pre { StartJoin(placements, baked, logCap, bakedCap); }
      ElemsAll(values);
      var i := 0;
      while i < |values|
        invariant 0 <= i <= |values|
        invariant pre ==> Regular(placements, baked, logCap, bakedCap)
        invariant pre ==> (View(placements, baked)
          == Tiles(logCap, bakedCap).Join(start, Pair({}, Elems(values[..i]))))
      {
        ElemsTake(values, i);
        JoinOffersOf(logCap, bakedCap, start, Pair({}, Elems(values[..i])), Pair({}, {values[i]}));
        if pre { BakeRegular(placements, baked, values[i], logCap, bakedCap); }
        BakeBounded(values[i], bakedCap);
        i := i + 1;
      }
    }

    method Merge(other: TileState)
      requires other != this
      modifies this
      ensures Regular(old(placements), old(baked), MAX_PLACEMENTS_PER_AUTHOR, MAX_BAKED_PER_AUTHOR) ==>
        && Regular(placements, baked, MAX_PLACEMENTS_PER_AUTHOR, MAX_BAKED_PER_AUTHOR)
        && View(placements, baked) == Tiles(MAX_PLACEMENTS_PER_AUTHOR, MAX_BAKED_PER_AUTHOR).Join(
             View(old(placements), old(baked)), View(other.placements, other.baked))
      ensures Regular(old(placements), old(baked), 8, 65536) ==>
        && Regular(placements, baked, 8, 65536)
        && View(placements, baked) == Tiles(8, 65536).Join(
             View(old(placements), old(baked)), View(other.placements, other.baked))
    {
      MergeBounded(other, MAX_PLACEMENTS_PER_AUTHOR, MAX_BAKED_PER_AUTHOR);
    }

    method ApplyDelta(delta: seq<SignedPlacement>)
      modifies this
      ensures Regular(old(placements), old(baked), MAX_PLACEMENTS_PER_AUTHOR, MAX_BAKED_PER_AUTHOR) ==>
        && Regular(placements, baked, MAX_PLACEMENTS_PER_AUTHOR, MAX_BAKED_PER_AUTHOR)
        && View(placements, baked) == Tiles(MAX_PLACEMENTS_PER_AUTHOR, MAX_BAKED_PER_AUTHOR).Join(
             View(old(placements), old(baked)), Pair(Elems(delta), {}))
    {
      InsertValues(delta, MAX_PLACEMENTS_PER_AUTHOR, MAX_BAKED_PER_AUTHOR);
    }

    /** Over the live and then the baked logs. */
    method Summarize() returns (summary: Summary)
      ensures Marks(summary, TimeKeys(placements) + TimeKeys(baked))
    {
      hide *;
      NoMarks();
      summary := Raise(map[], {}, placements);
      assert {} + TimeKeys(placements) == TimeKeys(placements);
      summary := Raise(summary, TimeKeys(placements), baked);
    }

    /** None means converged. */
    method Delta(summary: Summary) returns (delta: Option<seq<SignedPlacement>>)
      ensures delta == None <==> MissingFrom(summary, placements) + MissingFrom(summary, baked) == {}
      ensures delta.Some? ==> Elems(delta.value) == MissingFrom(summary, placements) + MissingFrom(summary, baked)
    {
      hide *;
      var live := Collect(summary, placements);
      var worn := Collect(summary, baked);
      ElemsConcat(live, worn);
      ElemsNone(live + worn);
      delta := if live + worn == [] then None else Some(live + worn);
    }

    method ValidPlacements(tierOf: Bytes32 -> Option<Tier>) returns (accepted: seq<SignedPlacement>)
      ensures accepted == TileFilter.ValidPlacements(placements, baked, tierOf)
    {
      hide *;
      ValidShape(placements, baked, tierOf);
      var authors := SortedAuthors(placements.Keys + baked.Keys);
      accepted := [];
      assert authors[..|authors|] == authors;
      ValidNone(authors, placements, baked, tierOf);
      var i := 0;
      while i < |authors|
        invariant 0 <= i <= |authors|
        invariant accepted == Valid(authors[..i], placements, baked, tierOf)
      {
        var author := authors[i];
        ValidStep(authors, i, placements, baked, tierOf);
        LogOfShape(placements, author);
        LogOfShape(baked, author);
        if tierOf(author).Some? {
          var more := ApplyCooldown(
            if author in baked then baked[author] else map[],
            if author in placements then placements[author] else map[],
            Cooldown(tierOf(author).value));
          accepted := accepted + more;
        } else {
          assert accepted + [] == accepted;
        }
        i := i + 1;
      }
    }

    /** Last writer wins per coordinate among the valid placements. */
    method DeriveCanvas(tierOf: Bytes32 -> Option<Tier>) returns (canvas: array<u8>)
      ensures fresh(canvas) && canvas.Length == TILE_AREA
      ensures forall c: u16 :: PixelRule(TileFilter.ValidPlacements(placements, baked, tierOf), c, canvas[c])
    {
      hide *;
      var valid := ValidPlacements(tierOf);
      var winners: map<u16, SignedPlacement> := map[];
      NoWinners();
      assert valid[..0] == [] && valid[..|valid|] == valid;
      var i := 0;
      while i < |valid|
        invariant 0 <= i <= |valid|
        invariant Winners(valid[..i], winners)
      {
        var placement := valid[i];
        assert valid[..i + 1] == valid[..i] + [placement];
        WinnersStep(valid[..i], winners, placement);
        if placement.coord in winners {
          var current := winners[placement.coord];
          if LwwLess(current, placement) {
            winners := winners[placement.coord := placement];
          } else {
            assert winners[placement.coord := current] == winners;
          }
        } else {
          winners := winners[placement.coord := placement];
        }
        i := i + 1;
      }
      canvas := new u8[65536](_ => 0xff);
      AreaShape();
      var remaining := winners.Keys;
      while remaining != {}
        invariant remaining <= winners.Keys
        invariant forall c: u16 :: canvas[c] == if c in winners && c !in remaining then winners[c].color else EMPTY_PIXEL
        decreases remaining
      {
        var coord :| coord in remaining;
        canvas[coord] := winners[coord].color;
        remaining := remaining - {coord};
      }
      forall c: u16
        ensures PixelRule(valid, c, canvas[c])
      {
        WinnerColours(valid, winners, c);
      }
    }
  }

  lemma AreaShape()
    ensures TILE_AREA == 65536 && EMPTY_PIXEL == 0xff
  {
  }

  lemma NoWinners()
    ensures Winners([], map[])
  {
  }

  lemma ValidShape(live: AuthorLogs, baked: AuthorLogs, tierOf: Bytes32 -> Option<Tier>)
    ensures TileFilter.ValidPlacements(live, baked, tierOf)
         == Valid(SortedAuthors(live.Keys + baked.Keys), live, baked, tierOf)
  {
  }

  lemma ValidNone(authors: seq<Bytes32>, live: AuthorLogs, baked: AuthorLogs, tierOf: Bytes32 -> Option<Tier>)
    ensures Valid(authors[..0], live, baked, tierOf) == []
  {
  }

  /** The greedy cooldown filter, per author over baked then live entries. The tier
      lookup is the registry's, passed in. */
  method ApplyCooldown(bakedLog: Log, liveLog: Log, cooldown: nat) returns (accepted: seq<SignedPlacement>)
    ensures accepted == Accepted(bakedLog, liveLog, cooldown)
  {
    hide *;
    AcceptedShape(bakedLog, liveLog, cooldown);
    var entries := SortByTime(Pairs(bakedLog) + Pairs(liveLog));
    ghost var bar := Saturating(cooldown);
    ghost var all := Filter.Greedy(entries, EntryTime, bar, 0);
    ghost var taken: seq<Entry> := [];
    accepted := [];
    var lastAccepted: Option<u64> := None;
    DropNothing(entries);
    ValuesNone();
    var i := 0;
    while i < |entries|
      invariant 0 <= i <= |entries|
      invariant accepted == Values(taken)
      invariant taken + Filter.Greedy(entries[i..], EntryTime, bar, if lastAccepted.None? then 0 else bar(lastAccepted.value)) == all
    {
      var (ts, placement) := entries[i];
      GreedyStep(entries[i..], bar, if lastAccepted.None? then 0 else bar(lastAccepted.value));
      DropHead(entries, i);
      var ok := true;
      if lastAccepted.Some? {
        var last := lastAccepted.value;
        SaturatingStep(cooldown, last);
        ok := ts >= if last + cooldown > MAX_U64 then MAX_U64 else last + cooldown;
      }
      if ok {
        ValuesStep(taken, entries[i]);
        accepted := accepted + [placement];
        Regroup(taken, entries[i], Filter.Greedy(entries[i + 1..], EntryTime, bar, bar(ts)));
        taken := taken + [entries[i]];
        lastAccepted := Some(ts);
      }
      i := i + 1;
    }
    GreedyStep(entries[|entries|..], bar, if lastAccepted.None? then 0 else bar(lastAccepted.value));
  }

  lemma AcceptedShape(bakedLog: Log, liveLog: Log, cooldown: nat)
    ensures Accepted(bakedLog, liveLog, cooldown)
         == Values(Filter.Greedy(SortByTime(Pairs(bakedLog) + Pairs(liveLog)), EntryTime, Saturating(cooldown), 0))
  {
  }

  lemma ValuesNone()
    ensures Values([]) == []
  {
  }

  method Raise(before: Summary, ghost times: set<(Bytes32, u64)>, logs: AuthorLogs) returns (summary: Summary)
    requires Marks(before, times)
    ensures Marks(summary, times + TimeKeys(logs))
  {
    hide *;
    summary := before;
    var order := SortedAuthors(logs.Keys);
    ElemsAll(order);
    TimeKeysAll(logs);
    assert times + {} == times;
    var i := 0;
    while i < |order|
      invariant 0 <= i <= |order|
      invariant Marks(summary, times + TimeKeysOf(logs, Elems(order[..i])))
    {
      ElemsIndex(order, i);
      TimeKeysStep(logs, order, i);
      var author := order[i];
      var log := logs[author];
      ghost var seen := times + TimeKeysOf(logs, Elems(order[..i]));
      UnionAssociates(times, TimeKeysOf(logs, Elems(order[..i])), set t | t in log :: (author, t));
      if log.Keys != {} {
        var last := LastTime(log.Keys);
        RaiseStep(summary, seen, author, log, last);
        summary := summary[author := if author in summary && summary[author] > last then summary[author] else last];
      } else {
        assert seen + (set t | t in log :: (author, t)) == seen;
      }
      i := i + 1;
    }
  }

  method Collect(summary: Summary, logs: AuthorLogs) returns (found: seq<SignedPlacement>)
    ensures Elems(found) == MissingFrom(summary, logs)
  {
    hide *;
    found := [];
    ElemsNone(found);
    MissingAll(summary, logs);
    var order := SortedAuthors(logs.Keys);
    ElemsAll(order);
    var i := 0;
    while i < |order|
      invariant 0 <= i <= |order|
      invariant Elems(found) == MissingOf(summary, logs, Elems(order[..i]))
    {
      ElemsIndex(order, i);
      MissingStep(summary, logs, order, i);
      var values := LogValues(logs[order[i]]);
      var newer := SelectNewer(summary, order[i], values);
      ElemsConcat(found, newer);
      NewerValues(summary, order[i], values, logs[order[i]]);
      found := found + newer;
      i := i + 1;
    }
  }

  function SelectNewer(s: Summary, author: Bytes32, ps: seq<SignedPlacement>): (r: seq<SignedPlacement>) {
    if ps == [] then []
    else (if Newer(s, author, ps[0]) then [ps[0]] else []) + SelectNewer(s, author, ps[1..])
  }

  lemma {:induction false} NewerMembers(s: Summary, author: Bytes32, ps: seq<SignedPlacement>)
    ensures forall p :: p in SelectNewer(s, author, ps) <==> p in ps && Newer(s, author, p)
  {
    if ps != [] { NewerMembers(s, author, ps[1..]); }
  }

  lemma NewerValues(s: Summary, author: Bytes32, ps: seq<SignedPlacement>, log: Log)
    requires Elems(ps) == log.Values
    ensures Elems(SelectNewer(s, author, ps)) == set p | p in log.Values && Newer(s, author, p)
  {
    NewerMembers(s, author, ps);
    assert forall p | p in ps :: p in Elems(ps);
    assert forall p | p in Elems(ps) :: p in ps;
  }

  // ---- Unfolding steps ------------------------------------------------------------------

  lemma RegularShape(live: AuthorLogs, baked: AuthorLogs, logCap: nat, bakedCap: nat)
    ensures Regular(live, baked, logCap, bakedCap) <==> KeyedTile(live, baked, Own, logCap, bakedCap)
    ensures Regular(live, baked, logCap, bakedCap) ==> KeyedLogs(baked, Own) && CappedLogs(baked, bakedCap)
  {
  }

  lemma OwnShape(a: Bytes32)
    ensures Own(a) == a
  {
  }

  lemma LogOfShape(logs: AuthorLogs, a: Bytes32)
    ensures LogOf(logs, a) == if a in logs then logs[a] else map[]
  {
  }

  lemma PutShape(logs: AuthorLogs, a: Bytes32, p: SignedPlacement, cap: nat)
    ensures Put(logs, a, p, cap) == logs[a := Kept(LogWith(LogOf(logs, a), p), cap)]
  {
  }

  lemma ViewShape(live: AuthorLogs, baked: AuthorLogs)
    ensures View(live, baked) == Pair(All(live), All(baked))
  {
  }

  lemma ElemsIndex<T>(q: seq<T>, i: nat)
    requires i < |q|
    ensures q[i] in Elems(q)
  {
  }

  lemma NoMarks()
    ensures Marks(map[], {})
  {
  }

  lemma StartJoin(live: AuthorLogs, baked: AuthorLogs, logCap: nat, bakedCap: nat)
    requires Regular(live, baked, logCap, bakedCap)
    ensures View(live, baked) == Tiles(logCap, bakedCap).Join(View(live, baked), Pair({}, {}))
  {
    hide All, Layer;
    TileIsSettled(live, baked, Own, logCap, bakedCap);
    TilesLawful(logCap, bakedCap);
    Tiles(logCap, bakedCap).JoinIdempotent(View(live, baked));
  }

  lemma JoinOffersOf(logCap: nat, bakedCap: nat, s: Pair<SignedPlacement>, x: Pair<SignedPlacement>, y: Pair<SignedPlacement>)
    ensures Tiles(logCap, bakedCap).Join(Tiles(logCap, bakedCap).Join(s, x), y)
         == Tiles(logCap, bakedCap).Join(s, Pair(x.live + y.live, x.baked + y.baked))
    ensures x.baked == {} && y.baked == {} ==> x.baked + y.baked == {}
    ensures y.live == {} ==> x.live + y.live == x.live
    ensures x.live == {} ==> x.live + y.live == y.live
  {
    hide Layer, Stack.Join;
    TilesLawful(logCap, bakedCap);
    Tiles(logCap, bakedCap).JoinOffers(s, x, y);
  }

  lemma BakeRegular(live: AuthorLogs, baked: AuthorLogs, p: SignedPlacement, logCap: nat, bakedCap: nat)
    requires Regular(live, baked, logCap, bakedCap) && bakedCap >= 1
    ensures Regular(live, Put(baked, p.author, p, bakedCap), logCap, bakedCap)
    ensures View(live, Put(baked, p.author, p, bakedCap))
         == Tiles(logCap, bakedCap).Join(View(live, baked), Pair({}, {p}))
  {
    hide All, Put, Layer, KeyedTile;
    BakeIsJoin(live, baked, Own, p, logCap, bakedCap);
  }
}
