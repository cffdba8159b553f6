/** The facade contract (contracts/facade-contract/src/lib.rs): a last-writer-wins
    register on (version, signature). Decoding CBOR, hashing and signature checking are
    parameters. The contract runs on wasm32, so a slice stays below half of 2^32 bytes. */
module FacadeContract {
  import opened Bytes
  import opened Outcomes
  import opened Orders
  import Facade
  import Signing

  const FACADE_MAX_PREV_APPS: nat := 8
  const USIZE_MAX: nat := 0xFFFF_FFFF

  type Slice = b: Bytes | 2 * |b| <= USIZE_MAX witness []

  datatype Params = Params(ownerVk: Bytes32, instance: u64)

  datatype Pointer = Pointer(version: u64, currentApp: Option<Bytes32>, prevApps: seq<Bytes32>, webHash: Bytes32)

  datatype Metadata = Metadata(pointer: Pointer, signature: Bytes64)

  datatype Host = Host(
    fromCbor: Bytes -> Option<Metadata>,
    hash: Bytes -> Bytes32,
    verifyStrict: (Bytes32, Bytes, Bytes64) -> bool)

  datatype Reason = Framing(error: Facade.FrameError) | NotMetadata | RingTooLong | WrongWebHash | WrongSignature

  datatype UpdateData = State(state: Slice) | Delta(delta: Slice) | StateAndDelta(state: Slice, delta: Slice) | Related

  function SigningBytes(params: Params, p: Pointer): Bytes {
    Signing.Pointer(params.ownerVk, params.instance, p.version, p.currentApp, p.prevApps, p.webHash).Preimage()
  }

  function Verify(h: Host, params: Params, m: Metadata, web: Bytes): Option<Reason> {
    if |m.pointer.prevApps| > FACADE_MAX_PREV_APPS then Some(RingTooLong)
    else if m.pointer.webHash != h.hash(web) then Some(WrongWebHash)
    else if !h.verifyStrict(params.ownerVk, SigningBytes(params, m.pointer), m.signature) then Some(WrongSignature)
    else None
  }

  /** decode_facade_state. */
  function DecodeFacadeState(h: Host, params: Params, bytes: Slice): Result<Metadata, Reason> {
    match Facade.ParseFacadeFrame(bytes, USIZE_MAX)
    case Err(e) => Err(Framing(e))
    case Ok(slots) =>
      match h.fromCbor(slots.meta)
      case None => Err(NotMetadata)
      case Some(m) =>
        match Verify(h, params, m, slots.web)
        case Some(reason) => Err(reason)
        case None => Ok(m)
  }

  /** decode_verified: empty bytes are the genesis state. */
  function DecodeVerified(h: Host, params: Params, bytes: Slice): Result<Option<Metadata>, Reason> {
    if bytes == [] then Ok(None)
    else match DecodeFacadeState(h, params, bytes)
      case Err(e) => Err(e)
      case Ok(m) => Ok(Some(m))
  }

  predicate KeyLess(a: Metadata, b: Metadata) {
    a.pointer.version < b.pointer.version
    || (a.pointer.version == b.pointer.version && BytesLess(a.signature, b.signature))
  }

  // ---- What an update means -----------------------------------------------------------------

  predicate Acceptable(h: Host, params: Params, b: Slice) {
    DecodeFacadeState(h, params, b).Ok?
  }

  predicate Storable(h: Host, params: Params, b: Slice) {
    b == [] || Acceptable(h, params, b)
  }

  /** b is the frame of m and a web archive: a short ring, the archive's hash, and the
      owner's signature over every field of the pointer. */
  ghost predicate Genuine(h: Host, params: Params, b: Slice, slots: Facade.Slots, m: Metadata) {
    var p := m.pointer;
    && Facade.Frames(b, slots)
    && h.fromCbor(slots.meta) == Some(m)
    && |p.prevApps| <= 8
    && p.webHash == h.hash(slots.web)
    && h.verifyStrict(
         params.ownerVk,
         Signing.Pointer(params.ownerVk, params.instance, p.version, p.currentApp, p.prevApps, p.webHash).Preimage(),
         m.signature)
  }

  ghost predicate IsGenuine(h: Host, params: Params, b: Slice) {
    exists slots, m :: Genuine(h, params, b, slots, m)
  }

  /** m is not above w in version and then signature. */
  ghost predicate NotAbove(m: Metadata, w: Metadata) {
    m.pointer.version < w.pointer.version
    || (m.pointer.version == w.pointer.version && !BytesLess(w.signature, m.signature))
  }

  /** The contract accepts exactly the genuine states, and reads the metadata in them. */
  lemma AcceptableExact(h: Host, params: Params, b: Slice)
    ensures Acceptable(h, params, b) <==> IsGenuine(h, params, b)
    ensures forall slots, m | Genuine(h, params, b, slots, m) :: DecodeFacadeState(h, params, b) == Ok(m)
  {
    hide Facade.Frames, Facade.ParseFacadeFrame;
    forall slots, m | Genuine(h, params, b, slots, m)
      ensures DecodeFacadeState(h, params, b) == Ok(m)
    {
      Facade.ParseExact(b, slots, USIZE_MAX);
    }
    if Acceptable(h, params, b) {
      var slots := Facade.ParseFacadeFrame(b, USIZE_MAX).value;
      Facade.ParseExact(b, slots, USIZE_MAX);
      assert Genuine(h, params, b, slots, DecodeFacadeState(h, params, b).value);
    }
  }

  /** The order of genuine states, on the fields. */
  lemma BelowExact(h: Host, params: Params, a: Slice, b: Slice)
    ensures forall s, t, m, w | Genuine(h, params, a, s, m) && Genuine(h, params, b, t, w) ::
      !Below(h, params, b, a) <==> NotAbove(m, w)
    ensures forall t, w | Genuine(h, params, b, t, w) :: Below(h, params, [], b) && VersionOf(h, params, b) == w.pointer.version
    ensures VersionOf(h, params, []) == 0
  {
    hide DecodeFacadeState, Genuine;
    GenesisNotAcceptable(h, params);
    AcceptableExact(h, params, a);
    AcceptableExact(h, params, b);
    BytesOrder();
    hide BytesLess;
    forall s, t, m, w | Genuine(h, params, a, s, m) && Genuine(h, params, b, t, w)
      ensures !Below(h, params, b, a) <==> NotAbove(m, w)
    {
    }
  }

  /** a's order key is below b's; the genesis state is below every pointer. */
  predicate Below(h: Host, params: Params, a: Slice, b: Slice) {
    Acceptable(h, params, b) &&
    (Acceptable(h, params, a) ==>
      KeyLess(DecodeFacadeState(h, params, a).value, DecodeFacadeState(h, params, b).value))
  }

  /** The stored version, 0 for genesis. */
  function VersionOf(h: Host, params: Params, b: Slice): u64 {
    match DecodeFacadeState(h, params, b)
    case Err(_) => 0
    case Ok(m) => m.pointer.version
  }

  /** State and Delta payloads are both framed states; related-contract data is skipped. */
  function Payloads(data: seq<UpdateData>): seq<Slice> {
    if data == [] then []
    else (match data[0]
          case State(b) => [b]
          case Delta(b) => [b]
          case StateAndDelta(b, _) => [b]
          case Related => []) + Payloads(data[1..])
  }

  predicate AllAcceptable(h: Host, params: Params, data: seq<UpdateData>) {
    forall b | b in Payloads(data) :: Acceptable(h, params, b)
  }

  function Latest(h: Host, params: Params, current: Slice, payloads: seq<Slice>): Slice
    decreases |payloads|
  {
    if payloads == [] then current
    else Latest(h, params, if Below(h, params, current, payloads[0]) then payloads[0] else current, payloads[1..])
  }

  /** w is the first of the candidates with the greatest order key. */
  ghost predicate FirstGreatest(h: Host, params: Params, candidates: seq<Slice>, w: Slice) {
    exists i :: 0 <= i < |candidates| && FirstGreatestAt(h, params, candidates, w, i)
  }

  ghost predicate FirstGreatestAt(h: Host, params: Params, candidates: seq<Slice>, w: Slice, i: nat)
    requires i < |candidates|
  {
    && candidates[i] == w
    && (forall j | 0 <= j < i :: Below(h, params, candidates[j], w))
    && (forall j | i <= j < |candidates| :: !Below(h, params, w, candidates[j]))
  }

  /** w is one of the candidates, genuine unless all are genesis, and none is above it. */
  ghost predicate Newest(h: Host, params: Params, candidates: seq<Slice>, w: Slice) {
    && w in candidates
    && (w != [] ==> IsGenuine(h, params, w))
    && (forall b | b in candidates && b != [] :: w != [])
    && (forall b, s, m, t, n | b in candidates && Genuine(h, params, b, s, m) && Genuine(h, params, w, t, n) :: NotAbove(m, n))
  }

  /** One bad payload rejects the whole update; otherwise the first greatest order key
      among the stored state and the payloads wins. */
  method UpdateState(h: Host, params: Params, state: Slice, data: seq<UpdateData>) returns (r: Result<Slice, Reason>)
    ensures r.Ok? <==> Storable(h, params, state) && AllAcceptable(h, params, data)
    ensures r.Ok? ==> r.value == Latest(h, params, state, Payloads(data))
    ensures r.Ok? ==> FirstGreatest(h, params, [state] + Payloads(data), r.value)
    ensures r.Ok? <==>
      (state == [] || IsGenuine(h, params, state)) && forall b | b in Payloads(data) :: IsGenuine(h, params, b)
    ensures r.Ok? ==> Newest(h, params, [state] + Payloads(data), r.value)
  {
    hide *;
    AllGenuine(h, params, state, data);
    if Storable(h, params, state) && AllAcceptable(h, params, data) {
      NewestIsLatest(h, params, state, Payloads(data));
    }
    StorableShape(h, params, state);
    LatestIsFirst(h, params, state, Payloads(data));
    var winnerBytes := state;
    var decoded := DecodeVerified(h, params, winnerBytes);
    if decoded.Err? {
      return Err(decoded.error);
    }
    var winner := decoded.value;
    var i := 0;
    DropNothing(data);
    while i < |data|
      invariant 0 <= i <= |data|
      invariant DecodeVerified(h, params, winnerBytes) == Ok(winner)
      invariant Latest(h, params, winnerBytes, Payloads(data[i..])) == Latest(h, params, state, Payloads(data))
      invariant AllAcceptable(h, params, data) <==> AllAcceptable(h, params, data[i..])
    {
      DropHead(data, i);
      PayloadsStep(h, params, data[i..]);
      var incomingBytes: Slice;
      match data[i] {
        case State(b) => incomingBytes := b;
        case Delta(b) => incomingBytes := b;
        case StateAndDelta(b, _) => incomingBytes := b;
        case Related => i := i + 1; continue;
      }
      AcceptableShape(h, params, incomingBytes);
      var incoming := DecodeFacadeState(h, params, incomingBytes);
      if incoming.Err? {
        return Err(incoming.error);
      }
      LatestStep(h, params, winnerBytes, incomingBytes, Payloads(data[i + 1..]));
      BelowShape(h, params, winnerBytes, incomingBytes);
      if winner.None? || KeyLess(winner.value, incoming.value) {
        winnerBytes := incomingBytes;
        winner := Some(incoming.value);
      }
      i := i + 1;
    }
    NothingLeft(h, params, winnerBytes, data[|data|..]);
    return Ok(winnerBytes);
  }

  lemma StorableShape(h: Host, params: Params, b: Slice)
    ensures DecodeVerified(h, params, b).Ok? <==> Storable(h, params, b)
  {
    hide DecodeFacadeState;
  }

  lemma AcceptableShape(h: Host, params: Params, b: Slice)
    ensures DecodeFacadeState(h, params, b).Ok? <==> Acceptable(h, params, b)
    ensures Acceptable(h, params, b) ==> DecodeVerified(h, params, b) == Ok(Some(DecodeFacadeState(h, params, b).value))
  {
    GenesisNotAcceptable(h, params);
    hide DecodeFacadeState;
  }

  lemma BelowShape(h: Host, params: Params, a: Slice, b: Slice)
    requires DecodeVerified(h, params, a).Ok? && Acceptable(h, params, b)
    ensures var winner := DecodeVerified(h, params, a).value;
      DecodeFacadeState(h, params, b).Ok? &&
      (Below(h, params, a, b) <==> winner.None? || KeyLess(winner.value, DecodeFacadeState(h, params, b).value))
  {
    GenesisNotAcceptable(h, params);
    hide DecodeFacadeState, KeyLess;
  }

  lemma NothingLeft(h: Host, params: Params, current: Slice, rest: seq<UpdateData>)
    requires rest == []
    ensures Latest(h, params, current, Payloads(rest)) == current && AllAcceptable(h, params, rest)
  {
  }

  lemma GenesisNotAcceptable(h: Host, params: Params)
    ensures !Acceptable(h, params, [])
  {
  }

  lemma PayloadsStep(h: Host, params: Params, data: seq<UpdateData>)
    requires data != []
    ensures data[0].Related? ==> Payloads(data) == Payloads(data[1..])
    ensures data[0].Delta? ==> Payloads(data) == [data[0].delta] + Payloads(data[1..])
    ensures data[0].State? || data[0].StateAndDelta? ==> Payloads(data) == [data[0].state] + Payloads(data[1..])
    ensures AllAcceptable(h, params, data) <==>
      AllAcceptable(h, params, data[1..]) &&
      (data[0].Related? || Acceptable(h, params, if data[0].Delta? then data[0].delta else data[0].state))
  {
    hide Acceptable;
    var tail := Payloads(data[1..]);
    forall b
      ensures b in Payloads(data) <==>
        b in tail || (!data[0].Related? && b == if data[0].Delta? then data[0].delta else data[0].state)
    {
    }
  }

  lemma NewestIsLatest(h: Host, params: Params, state: Slice, payloads: seq<Slice>)
    requires Storable(h, params, state) && forall b | b in payloads :: Acceptable(h, params, b)
    ensures Newest(h, params, [state] + payloads, Latest(h, params, state, payloads))
  {
    hide *;
    var candidates: seq<Slice> := [state] + payloads;
    var w := Latest(h, params, state, payloads);
    LatestIsMaximum(h, params, state, payloads);
    StorableCases(h, params);
    assert candidates[0] == state && forall b :: b in candidates <==> b == state || b in payloads;
    AcceptableExact(h, params, w);
    forall b | b in candidates && b != []
      ensures w != []
    {
      GenuineIsAbove(h, params, b);
    }
    forall b, s, m, t, n | b in candidates && Genuine(h, params, b, s, m) && Genuine(h, params, w, t, n)
      ensures NotAbove(m, n)
    {
      BelowExact(h, params, b, w);
    }
    NewestShape(h, params, candidates, w);
  }

  lemma GenuineIsAbove(h: Host, params: Params, b: Slice)
    ensures Acceptable(h, params, b) ==> Below(h, params, [], b)
  {
    GenesisNotAcceptable(h, params);
    hide DecodeFacadeState;
  }

  lemma NewestShape(h: Host, params: Params, candidates: seq<Slice>, w: Slice)
    requires w in candidates && (w != [] ==> IsGenuine(h, params, w))
    requires forall b | b in candidates && b != [] :: w != []
    requires forall b, s, m, t, n | b in candidates && Genuine(h, params, b, s, m) && Genuine(h, params, w, t, n) :: NotAbove(m, n)
    ensures Newest(h, params, candidates, w)
  {
    hide Genuine, IsGenuine, NotAbove;
  }

  lemma StorableCases(h: Host, params: Params)
    ensures forall b: Slice :: Storable(h, params, b) <==> b == [] || Acceptable(h, params, b)
  {
    hide DecodeFacadeState;
  }

  lemma AllGenuine(h: Host, params: Params, state: Slice, data: seq<UpdateData>)
    ensures Storable(h, params, state) <==> state == [] || IsGenuine(h, params, state)
    ensures AllAcceptable(h, params, data) <==> forall b | b in Payloads(data) :: IsGenuine(h, params, b)
    ensures AllAcceptable(h, params, data) ==> forall b | b in Payloads(data) :: Acceptable(h, params, b)
  {
    hide IsGenuine, Acceptable;
    AcceptableExact(h, params, state);
    forall b: Slice
      ensures Acceptable(h, params, b) <==> IsGenuine(h, params, b)
    {
      AcceptableExact(h, params, b);
    }
  }

  lemma LatestStep(h: Host, params: Params, current: Slice, b: Slice, rest: seq<Slice>)
    ensures Latest(h, params, current, [b] + rest)
         == Latest(h, params, if Below(h, params, current, b) then b else current, rest)
  {
    assert ([b] + rest)[1..] == rest;
  }

  // ---- The register over runs -----------------------------------------------------------------

  lemma BelowOrder(h: Host, params: Params)
    ensures forall a :: !Below(h, params, a, a)
    ensures forall a, b, c | Below(h, params, a, b) && Below(h, params, b, c) :: Below(h, params, a, c)
    ensures forall a, b, c | Below(h, params, a, c) && !Below(h, params, b, c) :: Below(h, params, a, b)
    ensures forall a, b | Below(h, params, a, b) :: VersionOf(h, params, a) <= VersionOf(h, params, b)
  {
    BytesOrder();
    hide DecodeFacadeState;
  }

  /** The winner is one of the candidates, and nothing is above it. */
  lemma {:induction false} LatestIsMaximum(h: Host, params: Params, current: Slice, payloads: seq<Slice>)
    ensures var w := Latest(h, params, current, payloads);
      && (w == current || w in payloads)
      && !Below(h, params, w, current)
      && (forall b | b in payloads :: !Below(h, params, w, b))
    decreases |payloads|
  {
    BelowOrder(h, params);
    hide Below;
    if payloads != [] {
      var next := if Below(h, params, current, payloads[0]) then payloads[0] else current;
      LatestIsMaximum(h, params, next, payloads[1..]);
    }
  }

  /** Ties go to the earlier candidate. */
  lemma {:induction false} LatestIsFirst(h: Host, params: Params, current: Slice, payloads: seq<Slice>)
    ensures FirstGreatest(h, params, [current] + payloads, Latest(h, params, current, payloads))
    decreases |payloads|
  {
    BelowOrder(h, params);
    hide Below;
    var all: seq<Slice> := [current] + payloads;
    var w := Latest(h, params, current, payloads);
    if payloads == [] {
      assert FirstGreatestAt(h, params, all, w, 0);
    } else {
      var taken := Below(h, params, current, payloads[0]);
      var next, rest := if taken then payloads[0] else current, payloads[1..];
      LatestIsFirst(h, params, next, rest);
      var tail: seq<Slice> := [next] + rest;
      var i :| 0 <= i < |tail| && FirstGreatestAt(h, params, tail, w, i);
      assert all[0] == current && all[1] == payloads[0] && tail[0] == next;
      assert forall j | 2 <= j < |all| :: all[j] == tail[j - 1];
      FirstBefore(h, params, all, w, if i == 0 && !taken then 0 else i + 1, next, i, taken);
    }
  }

  lemma FirstBefore(
      h: Host, params: Params, all: seq<Slice>, w: Slice, at: nat, next: Slice, i: nat, taken: bool)
    requires |all| >= 2 && at < |all| && all[at] == w && at == (if i == 0 && !taken then 0 else i + 1)
    requires taken == Below(h, params, all[0], all[1]) && next == (if taken then all[1] else all[0])
    requires (i == 0 ==> w == next) && (i > 0 ==> Below(h, params, next, w))
    requires !Below(h, params, w, next)
    requires forall j | 2 <= j < i + 1 :: Below(h, params, all[j], w)
    requires forall j | i + 1 <= j < |all| && j >= 2 :: !Below(h, params, w, all[j])
    ensures FirstGreatest(h, params, all, w)
  {
    BelowOrder(h, params);
    hide Below;
    assert FirstGreatestAt(h, params, all, w, at);
  }

  /** Only accepted payloads ever reach the register. */
  function Accepted(h: Host, params: Params, updates: seq<seq<UpdateData>>): seq<Slice> {
    if updates == [] then []
    else
      var init, last := updates[..|updates| - 1], updates[|updates| - 1];
      Accepted(h, params, init) + (if AllAcceptable(h, params, last) then Payloads(last) else [])
  }

  /** The state after a run of update calls; a rejected call leaves it alone. */
  function Stored(h: Host, params: Params, state: Slice, updates: seq<seq<UpdateData>>): Slice {
    if updates == [] then state
    else
      var before, last := Stored(h, params, state, updates[..|updates| - 1]), updates[|updates| - 1];
      if Storable(h, params, before) && AllAcceptable(h, params, last) then Latest(h, params, before, Payloads(last))
      else before
  }

  lemma {:induction false} LatestInRounds(h: Host, params: Params, current: Slice, p: seq<Slice>, q: seq<Slice>)
    ensures Latest(h, params, Latest(h, params, current, p), q) == Latest(h, params, current, p + q)
    decreases |p|
  {
    hide Below;
    if p == [] {
      assert p + q == q;
    } else {
      assert (p + q)[1..] == p[1..] + q;
      LatestInRounds(h, params, if Below(h, params, current, p[0]) then p[0] else current, p[1..], q);
    }
  }

  lemma {:induction false} AcceptedAreAcceptable(h: Host, params: Params, updates: seq<seq<UpdateData>>)
    ensures forall b | b in Accepted(h, params, updates) :: Acceptable(h, params, b)
  {
    hide Acceptable;
    if updates != [] { AcceptedAreAcceptable(h, params, updates[..|updates| - 1]); }
  }

  /** A whole run is one update with everything accepted in it. */
  lemma {:induction false} RunIsOneUpdate(h: Host, params: Params, state: Slice, updates: seq<seq<UpdateData>>)
    requires Storable(h, params, state)
    ensures Stored(h, params, state, updates) == Latest(h, params, state, Accepted(h, params, updates))
    ensures Storable(h, params, Stored(h, params, state, updates))
  {
    hide Acceptable, AllAcceptable, Below, Latest;
    LatestIsMaximum(h, params, state, Accepted(h, params, updates));
    AcceptedAreAcceptable(h, params, updates);
    if updates == [] {
      LatestStart(h, params, state);
    } else {
      var init, last := updates[..|updates| - 1], updates[|updates| - 1];
      RunIsOneUpdate(h, params, state, init);
      LatestInRounds(h, params, state, Accepted(h, params, init), Payloads(last));
      assert Accepted(h, params, init) + [] == Accepted(h, params, init);
    }
  }

  lemma LatestStart(h: Host, params: Params, state: Slice)
    ensures Latest(h, params, state, []) == state
  {
  }

  /** The register holds the maximum order key among the initial state and everything
      accepted, and every further call can only raise the version. */
  lemma RegisterOverRuns(
      h: Host, params: Params, state: Slice, updates: seq<seq<UpdateData>>, next: seq<UpdateData>)
    requires Storable(h, params, state)
    ensures var s := Stored(h, params, state, updates);
      && (s == state || s in Accepted(h, params, updates))
      && !Below(h, params, s, state)
      && (forall b | b in Accepted(h, params, updates) :: !Below(h, params, s, b))
      && (forall b | b in Accepted(h, params, updates) :: VersionOf(h, params, b) <= VersionOf(h, params, s))
      && VersionOf(h, params, s) <= VersionOf(h, params, Stored(h, params, state, updates + [next]))
  {
    var s := Stored(h, params, state, updates);
    RunIsOneUpdate(h, params, state, updates);
    LatestIsMaximum(h, params, state, Accepted(h, params, updates));
    AcceptedAreAcceptable(h, params, updates);
    assert (updates + [next])[..|updates|] == updates;
    LatestIsMaximum(h, params, s, Payloads(next));
    hide Below, Accepted, Latest, Storable, AllAcceptable, Acceptable, VersionOf, Stored;
    forall b: Slice | Acceptable(h, params, b) && !Below(h, params, s, b)
      ensures VersionOf(h, params, b) <= VersionOf(h, params, s)
    {
      NotBelowVersion(h, params, s, b);
    }
    var s' := Stored(h, params, state, updates + [next]);
    StoredStep(h, params, state, updates, next);
    NotBelowVersion(h, params, s', s);
  }

  /** Over every run from genesis or a genuine state, what is stored is genuine, and the
      newest in version and signature of the initial state and everything accepted. */
  lemma EveryStoredIsGenuine(h: Host, params: Params, state: Slice, updates: seq<seq<UpdateData>>)
    requires state == [] || IsGenuine(h, params, state)
    ensures forall b | b in Accepted(h, params, updates) :: IsGenuine(h, params, b)
    ensures Newest(h, params, [state] + Accepted(h, params, updates), Stored(h, params, state, updates))
  {
    hide *;
    StorableCases(h, params);
    AcceptableExact(h, params, state);
    AcceptedAreAcceptable(h, params, updates);
    RunIsOneUpdate(h, params, state, updates);
    NewestIsLatest(h, params, state, Accepted(h, params, updates));
    forall b | b in Accepted(h, params, updates)
      ensures IsGenuine(h, params, b)
    {
      AcceptableExact(h, params, b);
    }
  }

  lemma StoredStep(h: Host, params: Params, state: Slice, updates: seq<seq<UpdateData>>, next: seq<UpdateData>)
    ensures var s := Stored(h, params, state, updates);
      Stored(h, params, state, updates + [next])
      == if Storable(h, params, s) && AllAcceptable(h, params, next) then Latest(h, params, s, Payloads(next)) else s
  {
    assert (updates + [next])[..|updates|] == updates;
  }

  lemma NotBelowVersion(h: Host, params: Params, w: Slice, b: Slice)
    ensures !Below(h, params, w, b) ==> VersionOf(h, params, b) <= VersionOf(h, params, w)
  {
    hide DecodeFacadeState;
  }

  /** Where one order key is signed for one state only, the register depends on nothing but
      which states were accepted: not on their order, their repetition or how calls batched them. */
  lemma AcceptanceOrderIrrelevant(
      h: Host, params: Params, state: Slice, us: seq<seq<UpdateData>>, vs: seq<seq<UpdateData>>)
    requires Storable(h, params, state)
    requires Elems(Accepted(h, params, us)) == Elems(Accepted(h, params, vs))
    requires forall a, b |
      a in Elems(Accepted(h, params, us)) + {state} && b in Elems(Accepted(h, params, us)) + {state}
      && !Below(h, params, a, b) && !Below(h, params, b, a) :: a == b
    ensures Stored(h, params, state, us) == Stored(h, params, state, vs)
  {
    hide Below, Accepted, Latest, Storable, Stored;
    RunIsOneUpdate(h, params, state, us);
    RunIsOneUpdate(h, params, state, vs);
    LatestIsMaximum(h, params, state, Accepted(h, params, us));
    LatestIsMaximum(h, params, state, Accepted(h, params, vs));
    var a, b := Stored(h, params, state, us), Stored(h, params, state, vs);
    assert a in Elems(Accepted(h, params, us)) + {state} && b in Elems(Accepted(h, params, vs)) + {state};
    assert forall x | x in Elems(Accepted(h, params, us)) :: x in Accepted(h, params, us);
    assert forall x | x in Elems(Accepted(h, params, vs)) :: x in Accepted(h, params, vs);
  }

  // ---- Summaries and deltas ---------------------------------------------------------------------

  /** get_state_delta against a peer's version; a converged or newer peer gets nothing. */
  function StateDelta(h: Host, params: Params, state: Slice, theirs: u64): Slice {
    if VersionOf(h, params, state) <= theirs then [] else state
  }

  /** What a peer holds after a delta; nothing is sent for an empty one. */
  function Sync(h: Host, params: Params, peer: Slice, delta: Slice): Slice {
    if delta == [] then peer else Latest(h, params, peer, [delta])
  }

  /** The version summary misses a newer state exactly when only the signature ranks it
      above the peer's, or a version-0 pointer meets a genesis peer. */
  lemma VersionSyncExact(h: Host, params: Params, ours: Slice, peer: Slice)
    requires Storable(h, params, ours) && Storable(h, params, peer)
    ensures Sync(h, params, peer, StateDelta(h, params, ours, VersionOf(h, params, peer)))
         == Latest(h, params, peer, [ours])
      <==> !(VersionOf(h, params, ours) == VersionOf(h, params, peer) && Below(h, params, peer, ours))
  {
    hide DecodeFacadeState, Below;
    BelowOrder(h, params);
    assert VersionOf(h, params, []) == 0 by { GenesisNotAcceptable(h, params); }
    var merged := Latest(h, params, peer, [ours]);
    assert merged == if Below(h, params, peer, ours) then ours else peer by {
      assert [ours] == [ours] + [];
      LatestStep(h, params, peer, ours, []);
      LatestStart(h, params, peer);
      LatestStart(h, params, ours);
    }
  }

  /** The same on the fields: a genuine state is sent exactly to peers of a lower version,
      which misses what is ahead in the signature, and version 0 at a genesis peer. */
  lemma SyncInFields(
      h: Host, params: Params, ours: Slice, s: Facade.Slots, m: Metadata, peer: Slice, t: Facade.Slots, n: Metadata, theirs: u64)
    requires Genuine(h, params, ours, s, m) && Genuine(h, params, peer, t, n)
    ensures StateDelta(h, params, ours, theirs) == if m.pointer.version > theirs then ours else []
    ensures StateDelta(h, params, [], theirs) == []
    ensures Sync(h, params, peer, StateDelta(h, params, ours, VersionOf(h, params, peer))) == Latest(h, params, peer, [ours])
      <==> !(m.pointer.version == n.pointer.version && BytesLess(n.signature, m.signature))
    ensures Sync(h, params, [], StateDelta(h, params, ours, VersionOf(h, params, []))) == Latest(h, params, [], [ours])
      <==> m.pointer.version != 0
  {
    hide *;
    BelowExact(h, params, peer, ours);
    BelowExact(h, params, ours, peer);
    AcceptableExact(h, params, ours);
    AcceptableExact(h, params, peer);
    GenuineOne(h, params, ours, s, m);
    GenuineOne(h, params, peer, t, n);
    StorableCases(h, params);
    VersionSyncExact(h, params, ours, peer);
    VersionSyncExact(h, params, ours, []);
    DeltaShape(h, params, ours, theirs);
    DeltaShape(h, params, [], theirs);
    NotAboveCases(m, n);
  }

  lemma DeltaShape(h: Host, params: Params, state: Slice, theirs: u64)
    ensures StateDelta(h, params, state, theirs) == if VersionOf(h, params, state) > theirs then state else []
  {
    hide VersionOf;
  }

  lemma NotAboveCases(m: Metadata, n: Metadata)
    ensures m.pointer.version == n.pointer.version ==> (NotAbove(m, n) <==> !BytesLess(n.signature, m.signature))
    ensures m.pointer.version < n.pointer.version ==> NotAbove(m, n) && !NotAbove(n, m)
  {
    hide BytesLess;
  }

  lemma GenuineOne(h: Host, params: Params, b: Slice, s: Facade.Slots, m: Metadata)
    requires Genuine(h, params, b, s, m)
    ensures IsGenuine(h, params, b)
  {
    hide Genuine;
  }

  /** A version-0 pointer is not sent to a genesis peer, which would have stored it. */
  lemma VersionZeroNotSent(h: Host, params: Params, ours: Slice)
    requires Acceptable(h, params, ours) && VersionOf(h, params, ours) == 0
    ensures StateDelta(h, params, ours, VersionOf(h, params, [])) == []
    ensures Sync(h, params, [], StateDelta(h, params, ours, VersionOf(h, params, []))) == []
    ensures Latest(h, params, [], [ours]) == ours != []
  {
    GenesisNotAcceptable(h, params);
    hide DecodeFacadeState;
    assert [ours] == [ours] + [];
    LatestStep(h, params, [], ours, []);
    LatestStart(h, params, ours);
  }

  /** Nor is a pointer ahead by signature alone sent to a peer with the same version. */
  lemma TiedNotSent(h: Host, params: Params, ours: Slice, peer: Slice)
    requires Acceptable(h, params, ours) && Acceptable(h, params, peer)
    requires VersionOf(h, params, ours) == VersionOf(h, params, peer) && Below(h, params, peer, ours)
    ensures StateDelta(h, params, ours, VersionOf(h, params, peer)) == []
    ensures Sync(h, params, peer, StateDelta(h, params, ours, VersionOf(h, params, peer))) == peer
    ensures Latest(h, params, peer, [ours]) == ours != peer
  {
    BelowOrder(h, params);
    hide DecodeFacadeState, Below;
    assert [ours] == [ours] + [];
    LatestStep(h, params, peer, ours, []);
    LatestStart(h, params, ours);
  }

  /** There are such pointers wherever the owner signs two of version 0: whatever the
      hash, two metadata that decode from two byte strings and verify. */
  lemma TiedPointersExist(h: Host, params: Params, lower: Metadata, higher: Metadata, web: Bytes, x: Bytes, y: Bytes)
      returns (peer: Slice, ours: Slice)
    requires h.fromCbor(x) == Some(lower) && h.fromCbor(y) == Some(higher)
    requires Verify(h, params, lower, web) == None && Verify(h, params, higher, web) == None
    requires lower.pointer.version == higher.pointer.version == 0 && BytesLess(lower.signature, higher.signature)
    requires 2 * (16 + |x| + |web|) <= USIZE_MAX && 2 * (16 + |y| + |web|) <= USIZE_MAX
    ensures Acceptable(h, params, peer) && Acceptable(h, params, ours)
    ensures VersionOf(h, params, peer) == VersionOf(h, params, ours) == 0 && Below(h, params, peer, ours)
  {
    hide *;
    peer := Framed(h, params, lower, web, x);
    ours := Framed(h, params, higher, web, y);
    KeyedBySignature(h, params, peer, ours);
  }

  lemma Framed(h: Host, params: Params, m: Metadata, web: Bytes, x: Bytes) returns (b: Slice)
    requires h.fromCbor(x) == Some(m) && Verify(h, params, m, web) == None
    requires 2 * (16 + |x| + |web|) <= USIZE_MAX
    ensures DecodeFacadeState(h, params, b) == Ok(m)
  {
    hide Verify, Be;
    b := Be(|x|, 8) + x + Be(|web|, 8) + web;
    Facade.ParseExact(b, Facade.Slots(x, web), USIZE_MAX);
  }

  lemma KeyedBySignature(h: Host, params: Params, a: Slice, b: Slice)
    requires DecodeFacadeState(h, params, a).Ok? && DecodeFacadeState(h, params, b).Ok?
    requires var x, y := DecodeFacadeState(h, params, a).value, DecodeFacadeState(h, params, b).value;
      x.pointer.version == y.pointer.version == 0 && BytesLess(x.signature, y.signature)
    ensures Acceptable(h, params, a) && Acceptable(h, params, b) && Below(h, params, a, b)
    ensures VersionOf(h, params, a) == VersionOf(h, params, b) == 0
  {
    hide DecodeFacadeState;
  }
}
