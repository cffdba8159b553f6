/** The canvas and the cooldown on what the contract stores: the host's clock and the
    palette check keep every stored tile clear of the cases the filter's laws set apart. */
module CanvasRuns {
  import opened Bytes
  import opened Orders
  import opened Outcomes
  import opened Filter
  import opened TileLog
  import opened TileFilter
  import opened TileMirror
  import opened CanvasLaws
  import opened TileMirrorLaws
  import opened Host
  import TextKeys
  import TileWire
  import opened Layers
  import opened TileContract

  /** What passes the structure check stores no time near the end and no sentinel colour. */
  lemma SoundIsClear(v: Verifier, params: Params, s: Wire, now: HostTime, a: Bytes32)
    requires Sound(v, params, s, now)
    ensures CanvasLaws.Keyed(s.placements, s.baked)
    ensures OwnTimes(LogOf(s.placements, a)) && OwnTimes(LogOf(s.baked, a))
    ensures forall t | t in LogOf(s.placements, a) :: t <= now + MAX_FUTURE_SKEW_SECS
    ensures forall t | t in LogOf(s.baked, a) :: t <= now + MAX_FUTURE_SKEW_SECS
    ensures forall p | p in All(s.placements) + All(s.baked) :: p.color < TileFilter.PALETTE_COLORS
  {
    hide *;
    SoundParts(v, params, s, now);
    ClearLogs(v, params, s.placements, now, a);
    ClearLogs(v, params, s.baked, now, a);
  }

  lemma SoundParts(v: Verifier, params: Params, s: Wire, now: HostTime)
    requires Sound(v, params, s, now)
    ensures KeyedLogs(s.placements, Own) && KeyedLogs(s.baked, Own) && CanvasLaws.Keyed(s.placements, s.baked)
    ensures AllVerified(v, params, All(s.placements), now) && AllVerified(v, params, All(s.baked), now)
  {
    hide Verified, KeyedLogs, CappedLogs, All;
  }

  lemma ClearLogs(v: Verifier, params: Params, logs: AuthorLogs, now: HostTime, a: Bytes32)
    requires KeyedLogs(logs, Own) && AllVerified(v, params, All(logs), now)
    ensures OwnTimes(LogOf(logs, a)) && forall t | t in LogOf(logs, a) :: t <= now + MAX_FUTURE_SKEW_SECS
    ensures forall p | p in All(logs) :: p.color < TileFilter.PALETTE_COLORS
  {
    hide Verified;
    forall p | p in All(logs)
      ensures p.ts <= now + MAX_FUTURE_SKEW_SECS && p.color < TileFilter.PALETTE_COLORS
    {
      VerifiedBounds(v, params, p, now);
    }
    forall t | t in LogOf(logs, a)
      ensures t <= now + MAX_FUTURE_SKEW_SECS
    {
      assert LogOf(logs, a)[t] in All(logs);
    }
  }

  lemma VerifiedBounds(v: Verifier, params: Params, p: SignedPlacement, now: HostTime)
    ensures Verified(v, params, p, now) ==>
      p.ts <= now + MAX_FUTURE_SKEW_SECS && p.color < TileFilter.PALETTE_COLORS
  {
  }

  /** So the end of time is nowhere stored. */
  lemma SoundFits(v: Verifier, params: Params, s: Wire, now: HostTime, a: Bytes32, cooldown: nat)
    requires Sound(v, params, s, now)
    ensures EndFits(LogOf(s.baked, a), LogOf(s.placements, a), cooldown)
    ensures !TornEnd(s.placements, s.baked, a)
  {
    hide Sound, Accepted, LogOf;
    SoundIsClear(v, params, s, now, a);
  }

  lemma SoundFitsAll(v: Verifier, params: Params, s: Wire, now: HostTime, tierOf: Bytes32 -> Option<Tier>)
    requires Sound(v, params, s, now)
    ensures EndFitsAll(s.placements, s.baked, tierOf) && OneAtTheEnd(s.placements, s.baked, tierOf)
  {
    hide Sound, EndFits, LogOf;
    forall a
      ensures EndFits(LogOf(s.baked, a), LogOf(s.placements, a), if tierOf(a).Some? then Cooldown(tierOf(a).value) else 0)
      ensures MAX_U64 !in LogOf(s.placements, a)
    {
      SoundFits(v, params, s, now, a, if tierOf(a).Some? then Cooldown(tierOf(a).value) else 0);
      SoundIsClear(v, params, s, now, a);
    }
  }

  /** In every state of every run the cooldown filter keeps its promises for every author:
      accepted placements are stored, a cooldown apart and no more than the time allows,
      others are within the cooldown of an accepted one, and no spaced selection is larger. */
  lemma EveryStateCooldown(
      v: Verifier, params: Params, states: seq<Wire>, calls: seq<Call>, now: HostTime,
      a: Bytes32, cooldown: nat, other: seq<SignedPlacement>)
    requires Run(v, params, states, calls) && (calls != [] ==> calls[|calls| - 1].now <= now)
    requires cooldown > 0 && Spaced(other, TimeOf, Plus(cooldown))
    requires var s := states[|calls|]; forall p | p in other :: Stored(LogOf(s.baked, a), LogOf(s.placements, a), p)
    ensures var s := states[|calls|];
      var baked, live := LogOf(s.baked, a), LogOf(s.placements, a);
      var acc := Accepted(baked, live, cooldown);
      && Spaced(acc, TimeOf, Plus(cooldown))
      && (forall p | p in acc :: Stored(baked, live, p))
      && (forall p | Stored(baked, live, p) && p !in acc ::
           exists b :: b in acc && b.ts <= p.ts < b.ts + cooldown)
      && |other| <= |acc|
      && (acc != [] ==> acc[0].ts <= acc[|acc| - 1].ts && |acc| <= 1 + (acc[|acc| - 1].ts - acc[0].ts) / cooldown)
  {
    hide *;
    RunLength(v, params, states, calls);
    EveryStateSound(v, params, states, calls, now);
    var s := states[|calls|];
    SoundIsClear(v, params, s, now, a);
    SoundFits(v, params, s, now, a, cooldown);
    CooldownOptimal(LogOf(s.baked, a), LogOf(s.placements, a), cooldown, other);
    if Accepted(LogOf(s.baked, a), LogOf(s.placements, a), cooldown) != [] {
      CooldownCount(LogOf(s.baked, a), LogOf(s.placements, a), cooldown);
    }
  }

  lemma RunLength(v: Verifier, params: Params, states: seq<Wire>, calls: seq<Call>)
    requires Run(v, params, states, calls)
    ensures |states| == |calls| + 1
  {
  }

  /** In every state of every run a pixel shows the colour of the (ts, author, signature)
      maximum among valid placements there, which is unique, and the empty sentinel exactly
      where there is none. */
  lemma EveryStateCanvas(
      v: Verifier, params: Params, states: seq<Wire>, calls: seq<Call>, now: HostTime,
      tierOf: Bytes32 -> Option<Tier>, c: u16, color: u8)
    requires Run(v, params, states, calls) && (calls != [] ==> calls[|calls| - 1].now <= now)
    requires var s := states[|calls|]; PixelRule(ValidPlacements(s.placements, s.baked, tierOf), c, color)
    ensures var s := states[|calls|];
      var valid := ValidPlacements(s.placements, s.baked, tierOf);
      && OneEach(valid)
      && (forall w | Greatest(valid, c, w) :: color == w.color)
      && ((exists v :: v in valid && v.coord == c) ==> exists w :: ShownAt(valid, c, w) && color == w.color)
      && (color == 255 <==> forall w | w in valid :: w.coord != c)
  {
    hide *;
    RunLength(v, params, states, calls);
    EveryStateSound(v, params, states, calls, now);
    var s := states[|calls|];
    SoundIsKeyed(v, params, s, now);
    SoundFitsAll(v, params, s, now, tierOf);
    OnePerTimeExact(s.placements, s.baked, tierOf);
    SentinelByte();
    CanvasExact(s.placements, s.baked, tierOf, c, color);
    var valid := ValidPlacements(s.placements, s.baked, tierOf);
    forall w | Greatest(valid, c, w)
      ensures color == w.color
    {
      SoundFits(v, params, s, now, w.author, 1);
    }
    forall w | First(valid, c, w)
      ensures w.color != EMPTY_PIXEL && w in valid && w.coord == c
    {
      FirstIsGreatest(valid, c, w);
      GreatestIsValid(valid, c, w);
      ValidIsColoured(v, params, s, now, tierOf, w);
    }
  }

  lemma SentinelByte()
    ensures EMPTY_PIXEL == 255
  {
  }

  lemma SoundIsKeyed(v: Verifier, params: Params, s: Wire, now: HostTime)
    requires Sound(v, params, s, now)
    ensures CanvasLaws.Keyed(s.placements, s.baked)
  {
    hide KeyedLogs, CappedLogs, AllVerified;
  }

  lemma GreatestIsValid(valid: seq<SignedPlacement>, c: u16, w: SignedPlacement)
    requires Greatest(valid, c, w)
    ensures w in valid && w.coord == c
  {
  }

  lemma ValidIsColoured(
      v: Verifier, params: Params, s: Wire, now: HostTime, tierOf: Bytes32 -> Option<Tier>, w: SignedPlacement)
    requires Sound(v, params, s, now) && w in ValidPlacements(s.placements, s.baked, tierOf)
    ensures w.color != EMPTY_PIXEL
  {
    hide Sound, TileFilter.ValidPlacements, Accepted, All, LogOf;
    SoundIsClear(v, params, s, now, w.author);
    ValidIsAccepted(s.placements, s.baked, tierOf, w);
    AcceptedIsStored(s.placements, s.baked, w.author, Cooldown(tierOf(w.author).value), w);
  }

  /** In every state of every run a client holding the same placements has the same valid
      placements, the same winners and the same pixels. */
  lemma EveryStateClientAgrees(
      v: Verifier, params: Params, states: seq<Wire>, calls: seq<Call>, now: HostTime,
      jl: JsLogs, jb: JsLogs, jsTier: string -> Option<Tier>, tierOf: Bytes32 -> Option<Tier>)
    requires Run(v, params, states, calls) && (calls != [] ==> calls[|calls| - 1].now <= now)
    requires JsRegular(jl, jb) && ViewOf(states[|calls|]) == View(jl, jb)
    requires forall a: Bytes32 :: jsTier(TextKeys.HexOf(a)) == tierOf(a)
    ensures var s := states[|calls|];
      var js, valid := JsValidPlacements(jl, jb, jsTier, None), ValidPlacements(s.placements, s.baked, tierOf);
      && js == valid
      && (forall w, w' | Winners(js, w) && Winners(valid, w') :: w == w')
      && (forall c, x, y | PixelRule(js, c, x) && PixelRule(valid, c, y) :: x == y)
  {
    hide *;
    RunLength(v, params, states, calls);
    EveryStateSound(v, params, states, calls, now);
    var s := states[|calls|];
    SoundFitsAll(v, params, s, now, tierOf);
    BothKeyed(v, params, s, now, jl, jb);
    ViewOfShape(s);
    ClientAgrees(jl, jb, s.placements, s.baked, jsTier, tierOf);
  }

  lemma BothKeyed(v: Verifier, params: Params, s: Wire, now: HostTime, jl: JsLogs, jb: JsLogs)
    requires Sound(v, params, s, now) && JsRegular(jl, jb)
    ensures KeyedLogs(jl, TextKeys.HexOf) && KeyedLogs(jb, TextKeys.HexOf)
    ensures KeyedLogs(s.placements, Own) && KeyedLogs(s.baked, Own)
  {
    hide KeyedLogs, CappedLogs, AllVerified;
  }

  // ---- What a client decodes -----------------------------------------------------------------

  /** A client that has decoded a stored tile and inserted a decoded delta, whatever the
      bytes, agrees with a core that holds the same placements. */
  lemma DecodedClientAgrees(
      tile: Bytes, delta: Bytes, jl: JsLogs, jb: JsLogs, live: Logs<Bytes32>, baked: Logs<Bytes32>,
      jsTier: string -> Option<Tier>, tierOf: Bytes32 -> Option<Tier>)
    requires TileWire.DecodedState(tile).Some? && TileWire.DecodedDelta(delta).Some?
    requires JsRegular(jl, jb) && View(jl, jb) == TileMirror.Both().Join(
      TileMirror.Both().Join(Pair({}, {}), TileWire.DecodedState(tile).value), Pair(Elems(TileWire.DecodedDelta(delta).value), {}))
    requires KeyedLogs(live, Own) && KeyedLogs(baked, Own) && View(live, baked) == View(jl, jb)
    requires forall a: Bytes32 :: jsTier(TextKeys.HexOf(a)) == tierOf(a)
    ensures var js, valid := JsValidPlacements(jl, jb, jsTier, None), ValidPlacements(live, baked, tierOf);
      && js == valid
      && (forall w, w' | Winners(js, w) && Winners(valid, w') :: w == w')
      && (forall c, x, y | PixelRule(js, c, x) && PixelRule(valid, c, y) :: x == y)
  {
    hide *;
    TileWire.DecodedStateIsSafe(tile);
    TileWire.DecodedDeltaIsSafe(delta);
    TileWire.NothingIsSafe();
    var stored := TileMirror.Both().Join(Pair({}, {}), TileWire.DecodedState(tile).value);
    TileWire.JoinIsSafe(Pair({}, {}), TileWire.DecodedState(tile).value);
    TileWire.JoinIsSafe(stored, Pair(Elems(TileWire.DecodedDelta(delta).value), {}));
    JsRegularIsKeyed(jl, jb);
    SafeView(live, baked);
    SafeClientAgrees(jl, jb, live, baked, jsTier, tierOf);
  }

  lemma JsRegularIsKeyed(jl: JsLogs, jb: JsLogs)
    requires JsRegular(jl, jb)
    ensures KeyedLogs(jl, TextKeys.HexOf) && KeyedLogs(jb, TextKeys.HexOf)
  {
    hide KeyedLogs, CappedLogs;
  }

  lemma SafeView(live: Logs<Bytes32>, baked: Logs<Bytes32>)
    requires var s := View(live, baked); TileWire.AllSafe(s.live) && TileWire.AllSafe(s.baked)
    ensures SafeTimes(live, baked)
  {
    hide All;
  }
}
