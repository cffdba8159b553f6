/** The tile contract (contracts/tile-contract/src/lib.rs): which states validate, which
    updates are accepted, and what every run of updates keeps. Bytes that do not decode
    are None; signature checking is a parameter. */
module TileContract {
  import opened Bytes
  import opened Orders
  import opened Outcomes
  import opened Layers
  import opened TileLog
  import opened Tile
  import opened Host
  import TileFilter
  import Signing

  datatype Params = Params(canvasId: Bytes32, tileX: u8, tileY: u8, registry: Bytes32)

  datatype Wire = Wire(placements: AuthorLogs, baked: AuthorLogs)

  const GENESIS: Wire := Wire(map[], map[])

  datatype Payload =
    | State(wire: Option<Wire>)
    | Delta(placements: Option<seq<SignedPlacement>>)
    | StateAndDelta(wire: Option<Wire>, placements: Option<seq<SignedPlacement>>)
    | Related

  datatype Reason = Undecodable | ColorRange | BadSignature | Future | EmptyLog | OverCap | AuthorKey | TimeKey

  function VerifyPlacement(v: Verifier, params: Params, p: SignedPlacement, now: HostTime): (r: Option<Reason>)
    ensures r == None <==> Verified(v, params, p, now)
    ensures r == None <==> Authentic(v, params, p, now)
  {
    if p.color >= TileFilter.PALETTE_COLORS then Some(ColorRange)
    else if !v(p.author, Statement(params, p).Preimage(), p.signature) then Some(BadSignature)
    else if p.ts > Limit(now) then Some(Future)
    else None
  }

  function Statement(params: Params, p: SignedPlacement): Signing.Statement {
    Signing.Placement(params.canvasId, params.tileX, params.tileY, params.registry, p.author, p.coord, p.color, p.ts)
  }

  predicate Verified(v: Verifier, params: Params, p: SignedPlacement, now: HostTime) {
    && p.color < TileFilter.PALETTE_COLORS
    && v(p.author, Statement(params, p).Preimage(), p.signature)
    && p.ts <= now + MAX_FUTURE_SKEW_SECS
  }

  /** A palette colour, the author's signature over this very tile and every field, and a
      time at most 300 s ahead. */
  ghost predicate Authentic(v: Verifier, params: Params, p: SignedPlacement, now: HostTime) {
    && p.color < 255
    && v(p.author,
         Signing.Placement(
           params.canvasId, params.tileX, params.tileY, params.registry, p.author, p.coord, p.color, p.ts).Preimage(),
         p.signature)
    && p.ts <= now + 300
  }

  /** What is signed for one tile is signed for no other tile, placement or author. */
  lemma SignedForOneTile(params: Params, p: SignedPlacement, params': Params, q: SignedPlacement)
    ensures Statement(params, p).Preimage() == Statement(params', q).Preimage() <==>
      params == params' && p.author == q.author && p.coord == q.coord && p.color == q.color && p.ts == q.ts
  {
    if Statement(params, p).Preimage() == Statement(params', q).Preimage() {
      Signing.PlacementInjective(Statement(params, p), Statement(params', q));
    }
  }

  ghost predicate AllVerified(v: Verifier, params: Params, ps: set<SignedPlacement>, now: HostTime) {
    forall p | p in ps :: Verified(v, params, p, now)
  }

  /** What a stored tile must be. */
  ghost predicate Sound(v: Verifier, params: Params, s: Wire, now: HostTime) {
    && Regular(s.placements, s.baked, MAX_PLACEMENTS_PER_AUTHOR, MAX_BAKED_PER_AUTHOR)
    && AllVerified(v, params, All(s.placements) + All(s.baked), now)
  }

  ghost function ViewOf(s: Wire): Pair<SignedPlacement> { View(s.placements, s.baked) }

  ghost function Joined(a: Pair<SignedPlacement>, b: Pair<SignedPlacement>): Pair<SignedPlacement> {
    Tiles(MAX_PLACEMENTS_PER_AUTHOR, MAX_BAKED_PER_AUTHOR).Join(a, b)
  }

  // ---- Structure ------------------------------------------------------------------------------

  predicate SoundEntry(v: Verifier, params: Params, author: Bytes32, t: u64, p: SignedPlacement, now: HostTime) {
    p.author == author && p.ts == t && Verified(v, params, p, now)
  }

  ghost predicate SoundLog(v: Verifier, params: Params, author: Bytes32, log: Log, cap: nat, now: HostTime) {
    && log != map[] && |log| <= cap
    && forall t | t in log :: SoundEntry(v, params, author, t, log[t], now)
  }

  lemma LogInOrder(v: Verifier, params: Params, author: Bytes32, log: Log, cap: nat, now: HostTime)
    ensures var q := SortedTimes(log.Keys);
      && (forall t | t in q :: t in log)
      && (SoundLog(v, params, author, log, cap, now) <==>
          && log != map[] && |log| <= cap
          && forall j | 0 <= j < |q| :: SoundEntry(v, params, author, q[j], log[q[j]], now))
  {
    hide SoundEntry;
    var q := SortedTimes(log.Keys);
    assert forall t | t in q :: t in Elems(q);
    assert forall t | t in log :: t in Elems(q);
  }

  method VerifyLog(v: Verifier, params: Params, author: Bytes32, log: Log, cap: nat, now: HostTime) returns (r: Option<Reason>)
    ensures r == None <==> SoundLog(v, params, author, log, cap, now)
  {
    hide *;
    LogInOrder(v, params, author, log, cap, now);
    if log == map[] {
      return Some(EmptyLog);
    }
    if |log| > cap {
      return Some(OverCap);
    }
    var times := SortedTimes(log.Keys);
    for i := 0 to |times|
      invariant forall j | 0 <= j < i :: SoundEntry(v, params, author, times[j], log[times[j]], now)
    {
      var t := times[i];
      var placement := log[t];
      EntryShape(v, params, author, t, placement, now);
      if author != placement.author {
        return Some(AuthorKey);
      }
      if t != placement.ts {
        return Some(TimeKey);
      }
      var verdict := VerifyPlacement(v, params, placement, now);
      if verdict.Some? {
        return verdict;
      }
    }
    return None;
  }

  lemma EntryShape(v: Verifier, params: Params, author: Bytes32, t: u64, p: SignedPlacement, now: HostTime)
    ensures SoundEntry(v, params, author, t, p, now)
      <==> p.author == author && p.ts == t && VerifyPlacement(v, params, p, now) == None
  {
    hide Verified;
  }

  /** The state's two families under their caps. */
  method VerifyStateStructure(v: Verifier, params: Params, s: Wire, now: HostTime) returns (r: Option<Reason>)
    ensures r == None <==> Sound(v, params, s, now)
  {
    hide *;
    var families := [(s.placements, MAX_PLACEMENTS_PER_AUTHOR), (s.baked, MAX_BAKED_PER_AUTHOR)];
    SoundFamilies(v, params, s, now);
    for f := 0 to 2
      invariant forall g | 0 <= g < f :: SoundFamily(v, params, families[g].0, families[g].1, now)
    {
      var (logs, cap) := families[f];
      var authors := SortedAuthors(logs.Keys);
      FamilyInOrder(v, params, logs, cap, now);
      for i := 0 to |authors|
        invariant forall j | 0 <= j < i :: SoundLog(v, params, authors[j], logs[authors[j]], cap, now)
      {
        r := VerifyLog(v, params, authors[i], logs[authors[i]], cap, now);
        if r.Some? {
          return;
        }
      }
    }
    assert SoundFamily(v, params, families[0].0, families[0].1, now) && SoundFamily(v, params, families[1].0, families[1].1, now);
    return None;
  }

  ghost predicate SoundFamily(v: Verifier, params: Params, logs: AuthorLogs, cap: nat, now: HostTime) {
    forall a | a in logs :: SoundLog(v, params, a, logs[a], cap, now)
  }

  lemma FamilyInOrder(v: Verifier, params: Params, logs: AuthorLogs, cap: nat, now: HostTime)
    ensures var q := SortedAuthors(logs.Keys);
      && (forall a | a in q :: a in logs)
      && (SoundFamily(v, params, logs, cap, now)
          <==> forall j | 0 <= j < |q| :: SoundLog(v, params, q[j], logs[q[j]], cap, now))
  {
    hide SoundLog;
    var q := SortedAuthors(logs.Keys);
    assert forall a | a in q :: a in Elems(q);
    assert forall a | a in logs :: a in Elems(q);
  }

  lemma SoundFamilies(v: Verifier, params: Params, s: Wire, now: HostTime)
    ensures Sound(v, params, s, now) <==>
      && SoundFamily(v, params, s.placements, MAX_PLACEMENTS_PER_AUTHOR, now)
      && SoundFamily(v, params, s.baked, MAX_BAKED_PER_AUTHOR, now)
  {
    hide Verified;
    FamilySound(v, params, s.placements, MAX_PLACEMENTS_PER_AUTHOR, now);
    FamilySound(v, params, s.baked, MAX_BAKED_PER_AUTHOR, now);
    hide SoundFamily, All, KeyedLogs, CappedLogs;
    assert forall p | p in All(s.placements) + All(s.baked) :: p in All(s.placements) || p in All(s.baked);
  }

  lemma FamilySound(v: Verifier, params: Params, logs: AuthorLogs, cap: nat, now: HostTime)
    ensures SoundFamily(v, params, logs, cap, now) <==>
      KeyedLogs(logs, Own) && CappedLogs(logs, cap) && AllVerified(v, params, All(logs), now)
  {
    hide Verified;
    if KeyedLogs(logs, Own) && CappedLogs(logs, cap) && AllVerified(v, params, All(logs), now) {
      forall a, t | a in logs && t in logs[a]
        ensures Verified(v, params, logs[a][t], now)
      {
        assert logs[a][t] in All(logs);
      }
    }
  }

  // ---- Validation -----------------------------------------------------------------------------

  ghost function Authors(s: Wire): set<Bytes32> { s.placements.Keys + s.baked.Keys }

  /** A tile without live placements needs no registry, and one the host could not fetch
      is not held against the tile. */
  ghost predicate Passes(s: Wire, lookup: Lookup) {
    s.placements == map[] || lookup.Unavailable?
    || (lookup.Fetched? && lookup.identities.Some? && Authors(s) <= lookup.identities.value)
  }

  ghost predicate ValidFor(v: Verifier, params: Params, s: Wire, lookup: Lookup, now: HostTime) {
    Sound(v, params, s, now) && Passes(s, lookup)
  }

  /** Whatever registry is fetched, Valid means that every author is admitted, exactly for
      tiles that hold a live placement or nothing at all. */
  lemma ValidAdmitsExact(v: Verifier, params: Params, s: Wire, now: HostTime)
    requires Sound(v, params, s, now)
    ensures (forall ids | ValidFor(v, params, s, Fetched(Some(ids)), now) :: Authors(s) <= ids)
      <==> s.placements != map[] || s.baked == map[]
  {
    hide Sound;
    if s.placements == map[] && s.baked != map[] {
      var a :| a in s.baked;
      assert ValidFor(v, params, s, Fetched(Some({})), now) && a in Authors(s);
    }
  }

  method ValidateState(v: Verifier, params: Params, state: Option<Wire>, lookup: Lookup, now: HostTime)
    returns (verdict: Verdict)
    ensures verdict == Valid <==> state.Some? && ValidFor(v, params, state.value, lookup, now)
    ensures verdict == RequestRegistry <==>
      && state.Some? && Sound(v, params, state.value, now)
      && state.value.placements != map[] && lookup.NotFetched?
  {
    hide *;
    if state.None? {
      return Invalid;
    }
    ValidForShape(v, params, state.value, lookup, now);
    var bad := VerifyStateStructure(v, params, state.value, now);
    if bad.Some? {
      return Invalid;
    }
    if state.value.placements == map[] {
      return Valid;
    }
    match lookup {
      case NotFetched => return RequestRegistry;
      case Unavailable => return Valid;
      case Fetched(identities) =>
        var live, baked := SortedAuthors(state.value.placements.Keys), SortedAuthors(state.value.baked.Keys);
        ElemsConcat(live, baked);
        var ok := CheckRegistryMembership(live + baked, identities);
        return if ok then Valid else Invalid;
    }
  }

  lemma ValidForShape(v: Verifier, params: Params, s: Wire, lookup: Lookup, now: HostTime)
    ensures ValidFor(v, params, s, lookup, now) <==>
      && Sound(v, params, s, now)
      && (s.placements == map[] || lookup.Unavailable?
          || (lookup.Fetched? && lookup.identities.Some? && s.placements.Keys + s.baked.Keys <= lookup.identities.value))
  {
    hide Sound;
  }

  // ---- Updates ----------------------------------------------------------------------------------

  ghost predicate RegularWire(s: Wire) {
    Regular(s.placements, s.baked, MAX_PLACEMENTS_PER_AUTHOR, MAX_BAKED_PER_AUTHOR)
  }

  ghost function Contents(s: Pair<SignedPlacement>): set<SignedPlacement> { s.live + s.baked }

  ghost function Both(a: Pair<SignedPlacement>, b: Pair<SignedPlacement>): Pair<SignedPlacement> {
    Pair(a.live + b.live, a.baked + b.baked)
  }

  /** What one payload offers to the two layers. */
  ghost function OfferedBy(p: Payload): Pair<SignedPlacement> {
    match p
    case State(Some(w)) => ViewOf(w)
    case Delta(Some(ps)) => Pair(Elems(ps), {})
    case StateAndDelta(Some(w), Some(ps)) => Both(ViewOf(w), Pair(Elems(ps), {}))
    case _ => Pair({}, {})
  }

  ghost predicate Decodes(p: Payload) {
    match p
    case State(w) => w.Some?
    case Delta(ps) => ps.Some?
    case StateAndDelta(w, ps) => w.Some? && ps.Some?
    case Related => true
  }

  ghost predicate Good(v: Verifier, params: Params, p: Payload, now: HostTime) {
    Decodes(p) && AllVerified(v, params, Contents(OfferedBy(p)), now)
  }

  ghost predicate AllGood(v: Verifier, params: Params, data: seq<Payload>, now: HostTime) {
    forall p | p in data :: Good(v, params, p, now)
  }

  ghost function Offered(data: seq<Payload>): Pair<SignedPlacement> {
    if data == [] then Pair({}, {})
    else Both(Offered(data[..|data| - 1]), OfferedBy(data[|data| - 1]))
  }

  method VerifyAll(v: Verifier, params: Params, ps: seq<SignedPlacement>, now: HostTime) returns (r: Option<Reason>)
    ensures r == None <==> AllVerified(v, params, Elems(ps), now)
  {
    hide Verified;
    for i := 0 to |ps|
      invariant forall j | 0 <= j < i :: Verified(v, params, ps[j], now)
    {
      r := VerifyPlacement(v, params, ps[i], now);
      if r.Some? {
        assert ps[i] in Elems(ps);
        return;
      }
    }
    return None;
  }

  method VerifyLogs(v: Verifier, params: Params, logs: AuthorLogs, now: HostTime) returns (r: Option<Reason>)
    ensures r == None <==> AllVerified(v, params, All(logs), now)
  {
    hide *;
    var authors := SortedAuthors(logs.Keys);
    ElemsAll(authors);
    GatheredAll(logs);
    NothingToVerify(v, params, now);
    for i := 0 to |authors|
      invariant AllVerified(v, params, Gathered(logs, Elems(authors[..i])), now)
    {
      ElemsIndex(authors, i);
      GatheredStep(logs, authors, i);
      GatheredWithin(logs, Elems(authors[..i + 1]));
      var values := LogValues(logs[authors[i]]);
      r := VerifyAll(v, params, values, now);
      BothVerified(v, params, Gathered(logs, Elems(authors[..i])), Elems(values), now);
      AllWithin(v, params, Gathered(logs, Elems(authors[..i + 1])), All(logs), now);
      if r.Some? {
        return;
      }
    }
    return None;
  }

  lemma GatheredWithin(logs: AuthorLogs, authors: set<Bytes32>)
    ensures Gathered(logs, authors) <= All(logs)
  {
  }

  lemma NothingToVerify(v: Verifier, params: Params, now: HostTime)
    ensures AllVerified(v, params, {}, now)
  {
  }

  lemma BothVerified(v: Verifier, params: Params, x: set<SignedPlacement>, y: set<SignedPlacement>, now: HostTime)
    ensures AllVerified(v, params, x + y, now) <==> AllVerified(v, params, x, now) && AllVerified(v, params, y, now)
  {
    hide Verified;
    assert forall p | p in x :: p in x + y;
    assert forall p | p in y :: p in x + y;
  }

  lemma AllWithin(v: Verifier, params: Params, x: set<SignedPlacement>, y: set<SignedPlacement>, now: HostTime)
    requires x <= y
    ensures AllVerified(v, params, y, now) ==> AllVerified(v, params, x, now)
  {
    hide Verified;
  }

  /** The incoming state's keys and sizes are not checked: merging re-keys and re-caps. */
  method MergeState(current: TileState, v: Verifier, params: Params, incoming: Option<Wire>, now: HostTime)
    returns (r: Option<Reason>)
    modifies current
    ensures r == None <==> Good(v, params, State(incoming), now)
    ensures r == None && RegularWire(Wire(old(current.placements), old(current.baked))) ==>
      && RegularWire(Wire(current.placements, current.baked))
      && View(current.placements, current.baked)
         == Joined(View(old(current.placements), old(current.baked)), OfferedBy(State(incoming)))
  {
    hide *;
    GoodShape(v, params, now);
    if incoming.None? {
      return Some(Undecodable);
    }
    var other := new TileState();
    other.placements := incoming.value.placements;
    other.baked := incoming.value.baked;
    BothVerified(v, params, All(other.placements), All(other.baked), now);
    WireShape();
    r := VerifyLogs(v, params, other.placements, now);
    if r.Some? {
      return;
    }
    r := VerifyLogs(v, params, other.baked, now);
    if r.Some? {
      return;
    }
    current.Merge(other);
  }

  method ApplyDelta(current: TileState, v: Verifier, params: Params, delta: Option<seq<SignedPlacement>>, now: HostTime)
    returns (r: Option<Reason>)
    modifies current
    ensures r == None <==> Good(v, params, Delta(delta), now)
    ensures r == None && RegularWire(Wire(old(current.placements), old(current.baked))) ==>
      && RegularWire(Wire(current.placements, current.baked))
      && View(current.placements, current.baked)
         == Joined(View(old(current.placements), old(current.baked)), OfferedBy(Delta(delta)))
  {
    hide *;
    GoodShape(v, params, now);
    WireShape();
    if delta.None? {
      return Some(Undecodable);
    }
    r := VerifyAll(v, params, delta.value, now);
    assert Elems(delta.value) + {} == Elems(delta.value);
    if r.Some? {
      return;
    }
    current.ApplyDelta(delta.value);
  }

  lemma GoodShape(v: Verifier, params: Params, now: HostTime)
    ensures forall w :: Good(v, params, State(w), now) <==>
      w.Some? && AllVerified(v, params, All(w.value.placements) + All(w.value.baked), now)
    ensures forall w: Wire :: OfferedBy(State(Some(w))) == View(w.placements, w.baked)
    ensures forall ps :: Good(v, params, Delta(ps), now) <==>
      ps.Some? && AllVerified(v, params, Elems(ps.value) + {}, now)
    ensures forall ps: seq<SignedPlacement> :: OfferedBy(Delta(Some(ps))) == Pair(Elems(ps), {})
    ensures forall w, ps :: Good(v, params, StateAndDelta(w, ps), now) <==>
      Good(v, params, State(w), now) && Good(v, params, Delta(ps), now)
    ensures forall w: Wire, ps: seq<SignedPlacement> ::
      OfferedBy(StateAndDelta(Some(w), Some(ps))) == Both(OfferedBy(State(Some(w))), OfferedBy(Delta(Some(ps))))
    ensures Good(v, params, Related, now) && OfferedBy(Related) == Pair({}, {})
    ensures forall p :: Good(v, params, p, now) ==> Decodes(p)
  {
    hide Verified, All;
    forall w: Wire, ps: seq<SignedPlacement>
      ensures AllVerified(v, params, Contents(OfferedBy(StateAndDelta(Some(w), Some(ps)))), now) <==>
        AllVerified(v, params, Contents(OfferedBy(State(Some(w)))), now) && AllVerified(v, params, Contents(OfferedBy(Delta(Some(ps)))), now)
    {
      BothVerified(v, params, Contents(OfferedBy(State(Some(w)))), Elems(ps) + {}, now);
      assert Contents(OfferedBy(StateAndDelta(Some(w), Some(ps)))) == Contents(OfferedBy(State(Some(w)))) + (Elems(ps) + {});
    }
  }

  lemma WireShape()
    ensures forall live, baked :: RegularWire(Wire(live, baked)) <==>
      Regular(live, baked, MAX_PLACEMENTS_PER_AUTHOR, MAX_BAKED_PER_AUTHOR)
    ensures forall a, b :: Joined(a, b) == Tiles(MAX_PLACEMENTS_PER_AUTHOR, MAX_BAKED_PER_AUTHOR).Join(a, b)
  {
  }

  lemma JoinedBoth(s: Pair<SignedPlacement>, x: Pair<SignedPlacement>, y: Pair<SignedPlacement>)
    ensures Joined(Joined(s, x), y) == Joined(s, Both(x, y))
  {
    hide *;
    WireShape();
    BothShape(x, y);
    JoinOffersOf(MAX_PLACEMENTS_PER_AUTHOR, MAX_BAKED_PER_AUTHOR, s, x, y);
  }

  lemma BothShape(x: Pair<SignedPlacement>, y: Pair<SignedPlacement>)
    ensures Both(x, y) == Pair(x.live + y.live, x.baked + y.baked)
    ensures Both(x, Pair({}, {})) == x && Both(Pair({}, {}), x) == x && Both(x, y) == Both(y, x)
  {
    assert x.live + {} == x.live && x.baked + {} == x.baked;
    assert {} + x.live == x.live && {} + x.baked == x.baked;
    assert x.live + y.live == y.live + x.live && x.baked + y.baked == y.baked + x.baked;
  }

  lemma JoinedNothing(s: Wire)
    requires RegularWire(s)
    ensures ViewOf(s) == Joined(ViewOf(s), Pair({}, {}))
  {
    hide *;
    WireShape();
    ViewShape(s.placements, s.baked);
    StartJoin(s.placements, s.baked, MAX_PLACEMENTS_PER_AUTHOR, MAX_BAKED_PER_AUTHOR);
    ViewOfShape(s);
  }

  lemma ViewOfShape(s: Wire)
    ensures ViewOf(s) == View(s.placements, s.baked)
  {
  }

  lemma OfferedStep(data: seq<Payload>, i: nat)
    requires i < |data|
    ensures Offered(data[..i + 1]) == Both(Offered(data[..i]), OfferedBy(data[i]))
  {
    assert data[..i + 1][..i] == data[..i];
  }

  lemma OfferedNone()
    ensures Offered([]) == Pair({}, {})
  {
  }

  lemma AllGoodShape(v: Verifier, params: Params, data: seq<Payload>, now: HostTime)
    ensures AllGood(v, params, data, now) <==> forall i | 0 <= i < |data| :: Good(v, params, data[i], now)
  {
    hide Good;
  }

  /** The tile after an accepted update is the join with everything the update offers;
      one undecodable payload or unverifiable placement rejects the whole update. */
  method UpdateState(v: Verifier, params: Params, state: Option<Wire>, data: seq<Payload>, now: HostTime)
    returns (r: Result<Wire, Reason>)
    ensures r.Ok? <==> state.Some? && AllGood(v, params, data, now)
    ensures r.Ok? && RegularWire(state.value) ==>
      RegularWire(r.value) && ViewOf(r.value) == Joined(ViewOf(state.value), Offered(data))
  {
    hide *;
    if state.None? {
      return Err(Undecodable);
    }
    var current := new TileState();
    current.placements := state.value.placements;
    current.baked := state.value.baked;
    ghost var pre, start := RegularWire(state.value), ViewOf(state.value);
    AllGoodShape(v, params, data, now);
    GoodShape(v, params, now);
    OfferedNone();
    DropNothing(data);
    ViewOfShape(state.value);
    assert state.value == Wire(current.placements, current.baked);
    if pre { JoinedNothing(state.value); }
    for i := 0 to |data|
      invariant forall j | 0 <= j < i :: Good(v, params, data[j], now)
      invariant pre ==> RegularWire(Wire(current.placements, current.baked))
      invariant pre ==> View(current.placements, current.baked) == Joined(start, Offered(data[..i]))
    {
      OfferedStep(data, i);
      ghost var before := Offered(data[..i]);
      match data[i] {
        case State(incoming) =>
          var refused := MergeState(current, v, params, incoming, now);
          if refused.Some? { return Err(refused.value); }
          JoinedBoth(start, before, OfferedBy(State(incoming)));
        case Delta(delta) =>
          var refused := ApplyDelta(current, v, params, delta, now);
          if refused.Some? { return Err(refused.value); }
          JoinedBoth(start, before, OfferedBy(Delta(delta)));
        case StateAndDelta(incoming, delta) =>
          var refused := MergeState(current, v, params, incoming, now);
          if refused.Some? { return Err(refused.value); }
          JoinedBoth(start, before, OfferedBy(State(incoming)));
          refused := ApplyDelta(current, v, params, delta, now);
          if refused.Some? { return Err(refused.value); }
          JoinedBoth(start, Both(before, OfferedBy(State(incoming))), OfferedBy(Delta(delta)));
          BothTwice(before, OfferedBy(State(incoming)), OfferedBy(Delta(delta)));
        case Related =>
          BothShape(before, before);
      }
    }
    ViewOfShape(Wire(current.placements, current.baked));
    return Ok(Wire(current.placements, current.baked));
  }

  lemma BothTwice(x: Pair<SignedPlacement>, y: Pair<SignedPlacement>, z: Pair<SignedPlacement>)
    ensures Both(Both(x, y), z) == Both(x, Both(y, z))
  {
    assert x.live + y.live + z.live == x.live + (y.live + z.live);
    assert x.baked + y.baked + z.baked == x.baked + (y.baked + z.baked);
  }

  // ---- Runs ---------------------------------------------------------------------------------------

  datatype Call = Call(data: seq<Payload>, now: HostTime)

  /** What one update call, accepted or refused, does to the stored state. */
  ghost predicate Updates(v: Verifier, params: Params, s: Wire, call: Call, s': Wire) {
    if AllGood(v, params, call.data, call.now)
    then RegularWire(s') && ViewOf(s') == Joined(ViewOf(s), Offered(call.data))
    else s' == s
  }

  /** A run from genesis under a host clock that never goes back. */
  ghost predicate Run(v: Verifier, params: Params, states: seq<Wire>, calls: seq<Call>) {
    && |states| == |calls| + 1 && states[0] == GENESIS
    && (forall i | 0 <= i < |calls| :: Updates(v, params, states[i], calls[i], states[i + 1]))
    && (forall i, j | 0 <= i < j < |calls| :: calls[i].now <= calls[j].now)
  }

  ghost function AcceptedOffers(v: Verifier, params: Params, calls: seq<Call>): Pair<SignedPlacement> {
    if calls == [] then Pair({}, {})
    else
      var last := calls[|calls| - 1];
      Both(AcceptedOffers(v, params, calls[..|calls| - 1]),
           if AllGood(v, params, last.data, last.now) then Offered(last.data) else Pair({}, {}))
  }

  lemma {:induction false} OfferedVerified(v: Verifier, params: Params, data: seq<Payload>, now: HostTime)
    requires AllGood(v, params, data, now)
    ensures AllVerified(v, params, Contents(Offered(data)), now)
  {
    hide Verified, OfferedBy;
    if data != [] {
      var init, last := data[..|data| - 1], data[|data| - 1];
      OfferedVerified(v, params, init, now);
      assert Good(v, params, last, now);
      BothVerified(v, params, Contents(Offered(init)), Contents(OfferedBy(last)), now);
      assert Contents(Offered(data)) == Contents(Offered(init)) + Contents(OfferedBy(last));
    }
  }

  lemma NormalWithin(cap: nat, x: set<SignedPlacement>)
    ensures Layer(cap).Normal(x) <= x && Layer(cap).Rest(x) <= x
  {
  }

  lemma JoinedShape(a: Pair<SignedPlacement>, b: Pair<SignedPlacement>)
    ensures Joined(a, b).live == Layer(MAX_PLACEMENTS_PER_AUTHOR).Normal(a.live + b.live)
    ensures Joined(a, b).baked == Layer(MAX_BAKED_PER_AUTHOR).Normal(
      a.baked + b.baked + Layer(MAX_PLACEMENTS_PER_AUTHOR).Rest(a.live + b.live))
  {
    hide Layer;
  }

  lemma ContentsShape(a: Pair<SignedPlacement>)
    ensures Contents(a) == a.live + a.baked
  {
  }

  /** A join holds nothing that was not offered. */
  lemma JoinedWithin(a: Pair<SignedPlacement>, b: Pair<SignedPlacement>)
    ensures Contents(Joined(a, b)) <= Contents(a) + Contents(b)
  {
    hide *;
    JoinedShape(a, b);
    ContentsShape(a);
    ContentsShape(b);
    ContentsShape(Joined(a, b));
    NormalWithin(MAX_PLACEMENTS_PER_AUTHOR, a.live + b.live);
    NormalWithin(MAX_BAKED_PER_AUTHOR, a.baked + b.baked + Layer(MAX_PLACEMENTS_PER_AUTHOR).Rest(a.live + b.live));
  }

  lemma LaterVerified(v: Verifier, params: Params, ps: set<SignedPlacement>, now: HostTime, later: HostTime)
    requires now <= later && AllVerified(v, params, ps, now)
    ensures AllVerified(v, params, ps, later)
  {
    forall p | p in ps
      ensures Verified(v, params, p, later)
    {
      assert Verified(v, params, p, now);
    }
  }

  /** One call keeps a sound state sound, whatever the incoming states look like. */
  lemma UpdateKeepsSound(v: Verifier, params: Params, s: Wire, before: HostTime, call: Call, s': Wire)
    requires Sound(v, params, s, before) && before <= call.now && Updates(v, params, s, call, s')
    ensures Sound(v, params, s', call.now)
  {
    hide Verified, Joined, All, Regular;
    LaterVerified(v, params, Contents(ViewOf(s)), before, call.now);
    if AllGood(v, params, call.data, call.now) {
      OfferedVerified(v, params, call.data, call.now);
      JoinedWithin(ViewOf(s), Offered(call.data));
      BothVerified(v, params, Contents(ViewOf(s)), Contents(Offered(call.data)), call.now);
      AllWithin(v, params, Contents(ViewOf(s')), Contents(ViewOf(s)) + Contents(Offered(call.data)), call.now);
    }
  }

  lemma GenesisSound(v: Verifier, params: Params, now: HostTime)
    ensures Sound(v, params, GENESIS, now) && RegularWire(GENESIS) && ViewOf(GENESIS) == Pair({}, {})
  {
    assert All(GENESIS.placements) == {} && All(GENESIS.baked) == {};
  }

  lemma RunPrefix(v: Verifier, params: Params, states: seq<Wire>, calls: seq<Call>)
    requires Run(v, params, states, calls) && calls != []
    ensures Run(v, params, states[..|calls|], calls[..|calls| - 1])
    ensures Updates(v, params, states[|calls| - 1], calls[|calls| - 1], states[|calls|])
  {
    hide Updates;
  }

  /** Every state of every run passes the structure check at the host's time, and is the
      join of everything accepted so far: batching, order and repetition leave no trace. */
  lemma {:induction false} EveryStateSound(v: Verifier, params: Params, states: seq<Wire>, calls: seq<Call>, now: HostTime)
    requires Run(v, params, states, calls)
    requires calls != [] ==> calls[|calls| - 1].now <= now
    ensures Sound(v, params, states[|calls|], now)
    ensures ViewOf(states[|calls|]) == Joined(Pair({}, {}), AcceptedOffers(v, params, calls))
    decreases |calls|
  {
    hide Updates, Sound, ViewOf, Joined, AllGood;
    GenesisSound(v, params, now);
    if calls == [] {
      JoinedNothing(GENESIS);
    } else {
      RunPrefix(v, params, states, calls);
      var n := |calls| - 1;
      var init, last := calls[..n], calls[n];
      EveryStateSound(v, params, states[..n + 1], init, last.now);
      assert states[..n + 1][n] == states[n];
      UpdateKeepsSound(v, params, states[n], last.now, last, states[n + 1]);
      SoundLater(v, params, states[n + 1], last.now, now);
      UpdatesShape(v, params, states[n], last, states[n + 1]);
      var offers := AcceptedOffers(v, params, init);
      JoinedBoth(Pair({}, {}), offers, Offered(last.data));
      BothShape(offers, offers);
    }
  }

  ghost predicate KeptLogs(v: Verifier, params: Params, logs: AuthorLogs, cap: nat, now: HostTime) {
    forall a | a in logs ::
      && 0 < |logs[a]| <= cap
      && forall t | t in logs[a] ::
           logs[a][t].author == a && logs[a][t].ts == t && Authentic(v, params, logs[a][t], now)
  }

  /** So at any time every author has 1 to 8 live and 1 to 65536 baked placements, if any,
      each authentic and under its own author and time. */
  lemma EveryStateAuthentic(v: Verifier, params: Params, states: seq<Wire>, calls: seq<Call>, now: HostTime)
    requires Run(v, params, states, calls) && |states| == |calls| + 1
    requires calls != [] ==> calls[|calls| - 1].now <= now
    ensures KeptLogs(v, params, states[|calls|].placements, 8, now)
    ensures KeptLogs(v, params, states[|calls|].baked, 65536, now)
  {
    EveryStateSound(v, params, states, calls, now);
    hide Run, Joined, AcceptedOffers;
    var s := states[|calls|];
    forall p | p in All(s.placements) + All(s.baked)
      ensures Authentic(v, params, p, now)
    {
      var r := VerifyPlacement(v, params, p, now);
    }
    hide Verified, Authentic;
    KeptFamily(v, params, s.placements, MAX_PLACEMENTS_PER_AUTHOR, now);
    KeptFamily(v, params, s.baked, MAX_BAKED_PER_AUTHOR, now);
  }

  lemma KeptFamily(v: Verifier, params: Params, logs: AuthorLogs, cap: nat, now: HostTime)
    requires KeyedLogs(logs, Own) && CappedLogs(logs, cap) && forall p | p in All(logs) :: Authentic(v, params, p, now)
    ensures KeptLogs(v, params, logs, cap, now)
  {
    hide Authentic;
    forall a, t | a in logs && t in logs[a]
      ensures Authentic(v, params, logs[a][t], now)
    {
      assert logs[a][t] in All(logs);
    }
    forall a | a in logs
      ensures |logs[a]| > 0
    {
      assert |logs[a]| == |logs[a].Keys|;
    }
  }

  lemma UpdatesShape(v: Verifier, params: Params, s: Wire, call: Call, s': Wire)
    requires Updates(v, params, s, call, s')
    ensures AllGood(v, params, call.data, call.now) ==> ViewOf(s') == Joined(ViewOf(s), Offered(call.data))
    ensures !AllGood(v, params, call.data, call.now) ==> s' == s
  {
  }

  lemma SoundLater(v: Verifier, params: Params, s: Wire, now: HostTime, later: HostTime)
    requires Sound(v, params, s, now) && now <= later
    ensures Sound(v, params, s, later)
  {
    LaterVerified(v, params, All(s.placements) + All(s.baked), now, later);
  }

  /** Replicas that accepted the same offers, in any order and batching, store the same tile. */
  lemma SameOffersSameTile(
      v: Verifier, params: Params, xs: seq<Wire>, cs: seq<Call>, ys: seq<Wire>, ds: seq<Call>, now: HostTime)
    requires Run(v, params, xs, cs) && Run(v, params, ys, ds)
    requires cs != [] ==> cs[|cs| - 1].now <= now
    requires ds != [] ==> ds[|ds| - 1].now <= now
    requires AcceptedOffers(v, params, cs) == AcceptedOffers(v, params, ds)
    ensures xs[|cs|] == ys[|ds|]
  {
    EveryStateSound(v, params, xs, cs, now);
    EveryStateSound(v, params, ys, ds, now);
    var x, y := xs[|cs|], ys[|ds|];
    hide All, KeyedLogs, CappedLogs, Joined, AcceptedOffers;
    SameViewSameTile(x.placements, x.baked, y.placements, y.baked, Own, MAX_PLACEMENTS_PER_AUTHOR, MAX_BAKED_PER_AUTHOR);
  }

  /** Merging a crafted state whose only placement is baked stores exactly that, and the
      stored tile is valid against a registry that admits nobody. */
  lemma BakedAloneIsStored(v: Verifier, params: Params, p: SignedPlacement, now: HostTime)
    requires Verified(v, params, p, now)
    ensures var s := Wire(map[], map[p.author := map[p.ts := p]]);
      && ViewOf(s) == Pair({}, {p})
      && AllGood(v, params, [State(Some(s))], now)
      && Updates(v, params, GENESIS, Call([State(Some(s))], now), s)
      && ValidFor(v, params, s, Fetched(Some({})), now) && p.author in Authors(s)
  {
    var s := Wire(map[], map[p.author := map[p.ts := p]]);
    BakedAloneView(p);
    BakedAloneGood(v, params, p, s, now);
    BakedAloneJoin(p, s);
    OfferedOne(State(Some(s)));
    BakedAloneSound(v, params, p, s, now);
    hide Verified, Regular, Joined, View, All, AllVerified;
  }

  lemma BakedAloneView(p: SignedPlacement)
    ensures var s := Wire(map[], map[p.author := map[p.ts := p]]);
      RegularWire(s) && ViewOf(s) == Pair({}, {p}) && ViewOf(GENESIS) == Pair({}, {})
  {
    var s := Wire(map[], map[p.author := map[p.ts := p]]);
    assert All(s.placements) == {};
    assert s.baked[p.author][p.ts] == p;
    assert All(s.baked) == {p};
    var log: Log := map[p.ts := p];
    assert |log| == |log.Keys| && log.Keys == {p.ts} && p.ts in log;
  }

  lemma BakedAloneSound(v: Verifier, params: Params, p: SignedPlacement, s: Wire, now: HostTime)
    requires Verified(v, params, p, now) && RegularWire(s) && ViewOf(s) == Pair({}, {p})
    ensures Sound(v, params, s, now)
  {
    hide Verified, Regular, All;
  }

  lemma BakedAloneGood(v: Verifier, params: Params, p: SignedPlacement, s: Wire, now: HostTime)
    requires Verified(v, params, p, now) && ViewOf(s) == Pair({}, {p})
    ensures AllGood(v, params, [State(Some(s))], now) && OfferedBy(State(Some(s))) == Pair({}, {p})
  {
    hide Verified, View;
    assert Contents(OfferedBy(State(Some(s)))) == {p};
    AllGoodShape(v, params, [State(Some(s))], now);
  }

  lemma BakedAloneJoin(p: SignedPlacement, s: Wire)
    requires RegularWire(s) && ViewOf(s) == Pair({}, {p})
    ensures Joined(Pair({}, {}), Pair({}, {p})) == Pair({}, {p})
  {
    hide *;
    JoinedNothing(s);
    WireShape();
    Tiles(MAX_PLACEMENTS_PER_AUTHOR, MAX_BAKED_PER_AUTHOR).JoinCommutes(Pair({}, {}), Pair({}, {p}));
  }

  lemma OfferedOne(p: Payload)
    ensures Offered([p]) == OfferedBy(p)
  {
    assert [p][..0] == [];
    BothShape(OfferedBy(p), OfferedBy(p));
  }
}
