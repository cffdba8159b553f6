/** The chat contract (contracts/chat-contract/src/lib.rs): which rooms validate, which
    updates are accepted, and what every run of updates keeps. Bytes that do not decode
    are None; signature checking is a parameter. */
module ChatContract {
  import opened Bytes
  import opened Orders
  import opened Outcomes
  import opened Choice
  import opened Stores
  import opened ChatBuffer
  import opened Chat
  import opened Host
  import Signing

  datatype Params = Params(canvasId: Bytes32, registry: Bytes32)

  datatype Payload =
    | State(messages: Option<Messages>)
    | Delta(newer: Option<seq<SignedMessage>>)
    | StateAndDelta(messages: Option<Messages>, newer: Option<seq<SignedMessage>>)
    | Related

  datatype Reason = Undecodable | ContentLength | BadSignature | Future | TooManyMessages | IdKey | AuthorOverCap

  function Statement(params: Params, m: SignedMessage): Signing.Statement {
    Signing.Message(params.canvasId, params.registry, m.author, m.ts, m.seqNo, m.content)
  }

  function VerifyMessage(v: Verifier, params: Params, m: SignedMessage, now: HostTime): (r: Option<Reason>)
    ensures r == None <==> Verified(v, params, m, now)
    ensures r == None <==> Authentic(v, params, m, now)
  {
    if |m.content| == 0 || |m.content| > MAX_CHAT_MESSAGE_BYTES then Some(ContentLength)
    else if !v(m.author, Statement(params, m).Preimage(), m.signature) then Some(BadSignature)
    else if m.ts > Limit(now) then Some(Future)
    else None
  }

  predicate Verified(v: Verifier, params: Params, m: SignedMessage, now: HostTime) {
    && 1 <= |m.content| <= MAX_CHAT_MESSAGE_BYTES
    && v(m.author, Statement(params, m).Preimage(), m.signature)
    && m.ts <= now + MAX_FUTURE_SKEW_SECS
  }

  /** 1 to 512 bytes, the author's signature over this very room and every field, and a time
      at most 300 s ahead. */
  ghost predicate Authentic(v: Verifier, params: Params, m: SignedMessage, now: HostTime) {
    && 1 <= |m.content| <= 512
    && v(m.author, Signing.Message(params.canvasId, params.registry, m.author, m.ts, m.seqNo, m.content).Preimage(), m.signature)
    && m.ts <= now + 300
  }

  /** What is signed for one room is signed for no other room, message or author. */
  lemma SignedForOneRoom(params: Params, m: SignedMessage, params': Params, n: SignedMessage)
    requires |m.content| < 0x1_0000_0000 && |n.content| < 0x1_0000_0000
    ensures Statement(params, m).Preimage() == Statement(params', n).Preimage() <==>
      params == params' && m.author == n.author && m.ts == n.ts && m.seqNo == n.seqNo && m.content == n.content
  {
    if Statement(params, m).Preimage() == Statement(params', n).Preimage() {
      Signing.MessageInjective(Statement(params, m), Statement(params', n));
    }
  }

  ghost predicate AllVerified(v: Verifier, params: Params, ms: set<SignedMessage>, now: HostTime) {
    forall m | m in ms :: Verified(v, params, m, now)
  }

  ghost predicate FullBuffer(m: Messages) {
    Buffer(m, CHAT_MESSAGE_CAP, CHAT_MAX_MESSAGES_PER_AUTHOR)
  }

  /** What a stored room must be. */
  ghost predicate Sound(v: Verifier, params: Params, m: Messages, now: HostTime) {
    FullBuffer(m) && AllVerified(v, params, m.Values, now)
  }

  ghost function Settled(ms: set<SignedMessage>): set<SignedMessage> {
    Room(CHAT_MESSAGE_CAP, CHAT_MAX_MESSAGES_PER_AUTHOR).Normal(ms)
  }

  // ---- Structure ------------------------------------------------------------------------------

  /** per_author counts the ids seen so far. */
  ghost predicate Counts(count: map<Bytes32, nat>, ids: set<MessageId>) {
    && (forall a | a in count :: count[a] == |Group(AuthorOf, ids, a)|)
    && (forall id | id in ids :: id.author in count)
  }

  lemma CountStep(count: map<Bytes32, nat>, q: seq<MessageId>, i: nat)
    requires i < |q| && Ascending(IdLess, q) && Counts(count, Elems(q[..i]))
    ensures var a := q[i].author;
      Counts(count[a := (if a in count then count[a] else 0) + 1], Elems(q[..i + 1]))
  {
    hide *;
    ElemsTake(q, i);
    NotSeen(q, i);
    CountAnother(count, Elems(q[..i]), q[i]);
  }

  lemma CountAnother(count: map<Bytes32, nat>, seen: set<MessageId>, id: MessageId)
    requires id !in seen && Counts(count, seen)
    ensures Counts(count[id.author := (if id.author in count then count[id.author] else 0) + 1], seen + {id})
  {
    hide Group;
    forall a
      ensures |Group(AuthorOf, seen + {id}, a)| == |Group(AuthorOf, seen, a)| + (if a == id.author then 1 else 0)
      ensures (forall x | x in seen :: x.author != a) ==> |Group(AuthorOf, seen, a)| == 0
    {
      GroupAnother(seen, id, a);
    }
  }

  lemma GroupAnother(seen: set<MessageId>, id: MessageId, a: Bytes32)
    requires id !in seen
    ensures |Group(AuthorOf, seen + {id}, a)| == |Group(AuthorOf, seen, a)| + (if a == id.author then 1 else 0)
    ensures (forall x | x in seen :: x.author != a) ==> |Group(AuthorOf, seen, a)| == 0
  {
    var mine := Group(AuthorOf, seen, a);
    assert id !in mine;
    if a == id.author {
      assert Group(AuthorOf, seen + {id}, a) == mine + {id};
    } else {
      assert Group(AuthorOf, seen + {id}, a) == mine;
    }
    if forall x | x in seen :: x.author != a {
      assert mine == {};
    }
  }

  lemma NotSeen(q: seq<MessageId>, i: nat)
    requires i < |q| && Ascending(IdLess, q)
    ensures q[i] !in Elems(q[..i])
  {
    IdLessTotal();
  }

  ghost predicate SoundEntry(v: Verifier, params: Params, id: MessageId, m: SignedMessage, now: HostTime) {
    m.Id() == id && Verified(v, params, m, now)
  }

  ghost predicate WithinAuthorCap(ids: set<MessageId>) {
    forall id | id in ids :: |Group(AuthorOf, ids, id.author)| <= CHAT_MAX_MESSAGES_PER_AUTHOR
  }

  lemma NothingSeen()
    ensures Counts(map[], {}) && WithinAuthorCap({})
  {
  }

  /** The counter passes the cap exactly when the ids seen do. */
  lemma CapStep(count: map<Bytes32, nat>, q: seq<MessageId>, i: nat)
    requires i < |q| && WithinAuthorCap(Elems(q[..i])) && Counts(count, Elems(q[..i + 1]))
    ensures q[i].author in count
    ensures WithinAuthorCap(Elems(q[..i + 1])) <==> count[q[i].author] <= CHAT_MAX_MESSAGES_PER_AUTHOR
  {
    ElemsTake(q, i);
    var seen, id := Elems(q[..i]), q[i];
    assert id in Elems(q[..i + 1]);
    forall x | x in seen && x.author != id.author
      ensures Group(AuthorOf, Elems(q[..i + 1]), x.author) == Group(AuthorOf, seen, x.author)
    {
    }
  }

  lemma MoreIdsMorePerAuthor(ids: set<MessageId>, more: set<MessageId>)
    requires ids <= more && WithinAuthorCap(more)
    ensures WithinAuthorCap(ids)
  {
    forall id | id in ids
      ensures |Group(AuthorOf, ids, id.author)| <= CHAT_MAX_MESSAGES_PER_AUTHOR
    {
      SubsetSize(Group(AuthorOf, ids, id.author), Group(AuthorOf, more, id.author));
    }
  }

  method VerifyStateStructure(v: Verifier, params: Params, messages: Messages, now: HostTime) returns (r: Option<Reason>)
    ensures r == None <==> Sound(v, params, messages, now)
  {
    hide *;
    SoundInOrder(v, params, messages, now);
    if |messages| > CHAT_MESSAGE_CAP {
      return Some(TooManyMessages);
    }
    var perAuthor: map<Bytes32, nat> := map[];
    var order := SortedIds(messages.Keys);
    ElemsAll(order);
    NothingSeen();
    for i := 0 to |order|
      invariant Counts(perAuthor, Elems(order[..i])) && WithinAuthorCap(Elems(order[..i]))
      invariant forall j | 0 <= j < i :: SoundEntry(v, params, order[j], messages[order[j]], now)
    {
      var id := order[i];
      var message := messages[id];
      SoundPrefix(messages, order, i);
      EntryShape(v, params, id, message, now);
      if id != message.Id() {
        return Some(IdKey);
      }
      CountStep(perAuthor, order, i);
      var count := (if id.author in perAuthor then perAuthor[id.author] else 0) + 1;
      perAuthor := perAuthor[id.author := count];
      CapStep(perAuthor, order, i);
      if count > CHAT_MAX_MESSAGES_PER_AUTHOR {
        return Some(AuthorOverCap);
      }
      r := VerifyMessage(v, params, message, now);
      if r.Some? {
        return;
      }
    }
    return None;
  }

  lemma EntryShape(v: Verifier, params: Params, id: MessageId, m: SignedMessage, now: HostTime)
    ensures SoundEntry(v, params, id, m, now) <==> m.Id() == id && VerifyMessage(v, params, m, now) == None
  {
  }

  lemma SoundPrefix(messages: Messages, q: seq<MessageId>, i: nat)
    requires i < |q|
    ensures WithinAuthorCap(Elems(q)) ==> WithinAuthorCap(Elems(q[..i + 1]))
  {
    assert Elems(q[..i + 1]) <= Elems(q);
    if WithinAuthorCap(Elems(q)) { MoreIdsMorePerAuthor(Elems(q[..i + 1]), Elems(q)); }
  }

  lemma BufferShape(messages: Messages)
    ensures FullBuffer(messages) <==>
      && (forall id | id in messages :: messages[id].Id() == id)
      && |messages| <= CHAT_MESSAGE_CAP && WithinAuthorCap(messages.Keys)
  {
  }

  lemma SoundInOrder(v: Verifier, params: Params, messages: Messages, now: HostTime)
    ensures var q := SortedIds(messages.Keys);
      && (forall id | id in q :: id in messages)
      && (Sound(v, params, messages, now) <==>
          && |messages| <= CHAT_MESSAGE_CAP && WithinAuthorCap(messages.Keys)
          && forall j | 0 <= j < |q| :: SoundEntry(v, params, q[j], messages[q[j]], now))
  {
    hide Verified, FullBuffer, WithinAuthorCap, SortedIds;
    BufferShape(messages);
    var q := SortedIds(messages.Keys);
    assert forall id | id in q :: id in Elems(q);
    assert forall id | id in messages :: id in Elems(q);
    if Sound(v, params, messages, now) {
      assert forall id | id in messages :: messages[id] in messages.Values;
    }
  }

  // ---- Validation -----------------------------------------------------------------------------

  /** An empty room needs no registry, and one the host could not fetch is not held
      against the room. */
  method ValidateState(v: Verifier, params: Params, state: Option<Messages>, lookup: Lookup, now: HostTime)
    returns (verdict: Verdict)
    ensures verdict == Valid <==>
      && state.Some? && Sound(v, params, state.value, now)
      && (|| state.value == map[] || lookup.Unavailable?
          || (lookup.Fetched? && lookup.identities.Some?
              && forall id | id in state.value :: id.author in lookup.identities.value))
    ensures verdict == RequestRegistry <==>
      && state.Some? && Sound(v, params, state.value, now)
      && state.value != map[] && lookup.NotFetched?
  {
    hide *;
    if state.None? {
      return Invalid;
    }
    var bad := VerifyStateStructure(v, params, state.value, now);
    if bad.Some? {
      return Invalid;
    }
    if state.value == map[] {
      return Valid;
    }
    match lookup {
      case NotFetched => return RequestRegistry;
      case Unavailable => return Valid;
      case Fetched(identities) =>
        var order := SortedIds(state.value.Keys);
        var authors := seq(|order|, i requires 0 <= i < |order| => order[i].author);
        AuthorsOf(order, authors);
        var ok := CheckRegistryMembership(authors, identities);
        return if ok then Valid else Invalid;
    }
  }

  lemma AuthorsOf(q: seq<MessageId>, authors: seq<Bytes32>)
    requires |authors| == |q| && forall i | 0 <= i < |q| :: authors[i] == q[i].author
    ensures forall known :: Elems(authors) <= known <==> forall id | id in Elems(q) :: id.author in known
  {
    forall id | id in Elems(q)
      ensures id.author in Elems(authors)
    {
      var i :| 0 <= i < |q| && q[i] == id;
      assert authors[i] == id.author;
    }
  }

  // ---- Updates ----------------------------------------------------------------------------------

  /** What one payload offers to the room. */
  ghost function OfferedBy(p: Payload): set<SignedMessage> {
    match p
    case State(Some(m)) => m.Values
    case Delta(Some(ms)) => Elems(ms)
    case StateAndDelta(Some(m), Some(ms)) => m.Values + Elems(ms)
    case _ => {}
  }

  ghost predicate Decodes(p: Payload) {
    match p
    case State(m) => m.Some?
    case Delta(ms) => ms.Some?
    case StateAndDelta(m, ms) => m.Some? && ms.Some?
    case Related => true
  }

  ghost predicate Good(v: Verifier, params: Params, p: Payload, now: HostTime) {
    Decodes(p) && AllVerified(v, params, OfferedBy(p), now)
  }

  ghost predicate AllGood(v: Verifier, params: Params, data: seq<Payload>, now: HostTime) {
    forall p | p in data :: Good(v, params, p, now)
  }

  ghost function Offered(data: seq<Payload>): set<SignedMessage> {
    if data == [] then {} else Offered(data[..|data| - 1]) + OfferedBy(data[|data| - 1])
  }

  method VerifyAll(v: Verifier, params: Params, ms: seq<SignedMessage>, now: HostTime) returns (r: Option<Reason>)
    ensures r == None <==> AllVerified(v, params, Elems(ms), now)
  {
    hide Verified;
    for i := 0 to |ms|
      invariant forall j | 0 <= j < i :: Verified(v, params, ms[j], now)
    {
      r := VerifyMessage(v, params, ms[i], now);
      if r.Some? {
        assert ms[i] in Elems(ms);
        return;
      }
    }
    return None;
  }

  /** The incoming state's keys and sizes are not checked: merging re-keys and re-caps. */
  method MergeState(current: ChatState, v: Verifier, params: Params, incoming: Option<Messages>, now: HostTime)
    returns (r: Option<Reason>)
    modifies current
    ensures r == None <==> Good(v, params, State(incoming), now)
    ensures r == None && FullBuffer(old(current.messages)) ==>
      && FullBuffer(current.messages)
      && current.messages.Values == Settled(old(current.messages).Values + OfferedBy(State(incoming)))
  {
    hide *;
    GoodShape(v, params, now);
    RoomShape();
    if incoming.None? {
      return Some(Undecodable);
    }
    var other := new ChatState();
    other.messages := incoming.value;
    var values := ValuesInOrder(other.messages);
    r := VerifyAll(v, params, values, now);
    if r.Some? {
      return;
    }
    current.Merge(other);
  }

  method ApplyDelta(current: ChatState, v: Verifier, params: Params, delta: Option<seq<SignedMessage>>, now: HostTime)
    returns (r: Option<Reason>)
    modifies current
    ensures r == None <==> Good(v, params, Delta(delta), now)
    ensures r == None && FullBuffer(old(current.messages)) ==>
      && FullBuffer(current.messages)
      && current.messages.Values == Settled(old(current.messages).Values + OfferedBy(Delta(delta)))
  {
    hide *;
    GoodShape(v, params, now);
    RoomShape();
    if delta.None? {
      return Some(Undecodable);
    }
    r := VerifyAll(v, params, delta.value, now);
    if r.Some? {
      return;
    }
    current.ApplyDelta(delta.value);
  }

  lemma RoomShape()
    ensures forall m :: FullBuffer(m) <==> Buffer(m, CHAT_MESSAGE_CAP, CHAT_MAX_MESSAGES_PER_AUTHOR)
    ensures forall ms :: Settled(ms) == Room(CHAT_MESSAGE_CAP, CHAT_MAX_MESSAGES_PER_AUTHOR).Normal(ms)
  {
  }

  lemma BothVerified(v: Verifier, params: Params, x: set<SignedMessage>, y: set<SignedMessage>, now: HostTime)
    ensures AllVerified(v, params, x + y, now) <==> AllVerified(v, params, x, now) && AllVerified(v, params, y, now)
  {
    hide Verified;
    assert forall m | m in x :: m in x + y;
    assert forall m | m in y :: m in x + y;
  }

  lemma GoodShape(v: Verifier, params: Params, now: HostTime)
    ensures forall w :: Good(v, params, State(w), now) <==> w.Some? && AllVerified(v, params, w.value.Values, now)
    ensures forall w: Messages :: OfferedBy(State(Some(w))) == w.Values
    ensures forall ms :: Good(v, params, Delta(ms), now) <==> ms.Some? && AllVerified(v, params, Elems(ms.value), now)
    ensures forall ms: seq<SignedMessage> :: OfferedBy(Delta(Some(ms))) == Elems(ms)
    ensures forall w, ms :: Good(v, params, StateAndDelta(w, ms), now) <==>
      Good(v, params, State(w), now) && Good(v, params, Delta(ms), now)
    ensures forall w: Messages, ms: seq<SignedMessage> ::
      OfferedBy(StateAndDelta(Some(w), Some(ms))) == OfferedBy(State(Some(w))) + OfferedBy(Delta(Some(ms)))
    ensures Good(v, params, Related, now) && OfferedBy(Related) == {}
    ensures forall p :: Good(v, params, p, now) ==> Decodes(p)
  {
    hide Verified;
    forall w: Messages, ms: seq<SignedMessage>
      ensures AllVerified(v, params, w.Values + Elems(ms), now) <==>
        AllVerified(v, params, w.Values, now) && AllVerified(v, params, Elems(ms), now)
    {
      BothVerified(v, params, w.Values, Elems(ms), now);
    }
  }

  lemma SettledTwice(s: set<SignedMessage>, x: set<SignedMessage>, y: set<SignedMessage>)
    ensures Settled(Settled(s + x) + y) == Settled(s + (x + y))
  {
    hide *;
    RoomShape();
    RoomAbsorbs(CHAT_MESSAGE_CAP, CHAT_MAX_MESSAGES_PER_AUTHOR, s + x, y);
    assert s + x + y == s + (x + y);
  }

  lemma SettledNothing(m: Messages)
    requires FullBuffer(m)
    ensures m.Values == Settled(m.Values + {})
  {
    hide *;
    RoomShape();
    BufferIsNormal(m, CHAT_MESSAGE_CAP, CHAT_MAX_MESSAGES_PER_AUTHOR);
    assert m.Values + {} == m.Values;
  }

  lemma OfferedStep(data: seq<Payload>, i: nat)
    requires i < |data|
    ensures Offered(data[..i + 1]) == Offered(data[..i]) + OfferedBy(data[i])
  {
    assert data[..i + 1][..i] == data[..i];
  }

  lemma OfferedNone()
    ensures Offered([]) == {}
  {
  }

  lemma AllGoodShape(v: Verifier, params: Params, data: seq<Payload>, now: HostTime)
    ensures AllGood(v, params, data, now) <==> forall i | 0 <= i < |data| :: Good(v, params, data[i], now)
  {
    hide Good;
  }

  /** The room after an accepted update is the truncation of everything held and offered;
      one undecodable payload or unverifiable message rejects the whole update. */
  method UpdateState(v: Verifier, params: Params, state: Option<Messages>, data: seq<Payload>, now: HostTime)
    returns (r: Result<Messages, Reason>)
    ensures r.Ok? <==> state.Some? && AllGood(v, params, data, now)
    ensures r.Ok? && FullBuffer(state.value) ==>
      FullBuffer(r.value) && r.value.Values == Settled(state.value.Values + Offered(data))
  {
    hide *;
    if state.None? {
      return Err(Undecodable);
    }
    var current := new ChatState();
    current.messages := state.value;
    ghost var pre, start := FullBuffer(state.value), state.value.Values;
    AllGoodShape(v, params, data, now);
    GoodShape(v, params, now);
    OfferedNone();
    DropNothing(data);
    if pre { SettledNothing(state.value); }
    for i := 0 to |data|
      invariant forall j | 0 <= j < i :: Good(v, params, data[j], now)
      invariant pre ==> FullBuffer(current.messages)
      invariant pre ==> current.messages.Values == Settled(start + Offered(data[..i]))
    {
      OfferedStep(data, i);
      ghost var before := Offered(data[..i]);
      match data[i] {
        case State(incoming) =>
          var refused := MergeState(current, v, params, incoming, now);
          if refused.Some? { return Err(refused.value); }
          SettledTwice(start, before, OfferedBy(State(incoming)));
        case Delta(delta) =>
          var refused := ApplyDelta(current, v, params, delta, now);
          if refused.Some? { return Err(refused.value); }
          SettledTwice(start, before, OfferedBy(Delta(delta)));
        case StateAndDelta(incoming, delta) =>
          var refused := MergeState(current, v, params, incoming, now);
          if refused.Some? { return Err(refused.value); }
          SettledTwice(start, before, OfferedBy(State(incoming)));
          refused := ApplyDelta(current, v, params, delta, now);
          if refused.Some? { return Err(refused.value); }
          SettledTwice(start, before + OfferedBy(State(incoming)), OfferedBy(Delta(delta)));
          UnionAssociates(before, OfferedBy(State(incoming)), OfferedBy(Delta(delta)));
        case Related =>
          assert before + {} == before;
      }
    }
    return Ok(current.messages);
  }

  // ---- Runs ---------------------------------------------------------------------------------------

  datatype Call = Call(data: seq<Payload>, now: HostTime)

  /** What one update call, accepted or refused, does to the stored state. */
  ghost predicate Updates(v: Verifier, params: Params, s: Messages, call: Call, s': Messages) {
    if AllGood(v, params, call.data, call.now)
    then FullBuffer(s') && s'.Values == Settled(s.Values + Offered(call.data))
    else s' == s
  }

  /** A run from genesis under a host clock that never goes back. */
  ghost predicate Run(v: Verifier, params: Params, states: seq<Messages>, calls: seq<Call>) {
    && |states| == |calls| + 1 && states[0] == map[]
    && (forall i | 0 <= i < |calls| :: Updates(v, params, states[i], calls[i], states[i + 1]))
    && (forall i, j | 0 <= i < j < |calls| :: calls[i].now <= calls[j].now)
  }

  ghost function AcceptedOffers(v: Verifier, params: Params, calls: seq<Call>): set<SignedMessage> {
    if calls == [] then {}
    else
      var last := calls[|calls| - 1];
      AcceptedOffers(v, params, calls[..|calls| - 1])
      + if AllGood(v, params, last.data, last.now) then Offered(last.data) else {}
  }

  lemma {:induction false} OfferedVerified(v: Verifier, params: Params, data: seq<Payload>, now: HostTime)
    requires AllGood(v, params, data, now)
    ensures AllVerified(v, params, Offered(data), now)
  {
    hide Verified, OfferedBy;
    if data != [] {
      var init, last := data[..|data| - 1], data[|data| - 1];
      OfferedVerified(v, params, init, now);
      assert Good(v, params, last, now);
      BothVerified(v, params, Offered(init), OfferedBy(last), now);
    }
  }

  lemma SettledWithin(ms: set<SignedMessage>)
    ensures Settled(ms) <= ms
  {
  }

  lemma LaterVerified(v: Verifier, params: Params, ms: set<SignedMessage>, now: HostTime, later: HostTime)
    requires now <= later && AllVerified(v, params, ms, now)
    ensures AllVerified(v, params, ms, later)
  {
    forall m | m in ms
      ensures Verified(v, params, m, later)
    {
      assert Verified(v, params, m, now);
    }
  }

  lemma AllWithin(v: Verifier, params: Params, x: set<SignedMessage>, y: set<SignedMessage>, now: HostTime)
    requires x <= y && AllVerified(v, params, y, now)
    ensures AllVerified(v, params, x, now)
  {
    hide Verified;
  }

  lemma SoundShape(v: Verifier, params: Params, s: Messages, now: HostTime)
    ensures Sound(v, params, s, now) <==> FullBuffer(s) && AllVerified(v, params, s.Values, now)
  {
  }

  lemma UpdatesShape(v: Verifier, params: Params, s: Messages, call: Call, s': Messages)
    requires Updates(v, params, s, call, s')
    ensures AllGood(v, params, call.data, call.now) ==>
      FullBuffer(s') && s'.Values == Settled(s.Values + Offered(call.data))
    ensures !AllGood(v, params, call.data, call.now) ==> s' == s
  {
  }

  /** One call keeps a sound room sound, whatever the incoming states look like. */
  lemma UpdateKeepsSound(v: Verifier, params: Params, s: Messages, before: HostTime, call: Call, s': Messages)
    requires Sound(v, params, s, before) && before <= call.now && Updates(v, params, s, call, s')
    ensures Sound(v, params, s', call.now)
  {
    hide *;
    SoundShape(v, params, s, before);
    SoundShape(v, params, s', call.now);
    UpdatesShape(v, params, s, call, s');
    LaterVerified(v, params, s.Values, before, call.now);
    if AllGood(v, params, call.data, call.now) {
      OfferedVerified(v, params, call.data, call.now);
      SettledWithin(s.Values + Offered(call.data));
      BothVerified(v, params, s.Values, Offered(call.data), call.now);
      AllWithin(v, params, s'.Values, s.Values + Offered(call.data), call.now);
    }
  }

  lemma GenesisSound(v: Verifier, params: Params, now: HostTime)
    ensures Sound(v, params, map[], now)
  {
  }

  lemma RunPrefix(v: Verifier, params: Params, states: seq<Messages>, calls: seq<Call>)
    requires Run(v, params, states, calls)
    ensures |states| == |calls| + 1
    ensures calls == [] ==> states[|calls|] == map[] && AcceptedOffers(v, params, calls) == {}
    ensures calls != [] ==>
      var n, last := |calls|, calls[|calls| - 1];
      && Run(v, params, states[..n], calls[..n - 1])
      && Updates(v, params, states[n - 1], last, states[n])
      && (n >= 2 ==> calls[..n - 1][n - 2].now <= last.now)
      && AcceptedOffers(v, params, calls) ==
         AcceptedOffers(v, params, calls[..n - 1]) + (if AllGood(v, params, last.data, last.now) then Offered(last.data) else {})
  {
    hide Updates, AllGood;
  }

  /** Every state of every run passes the structure check at the host's time, and is the
      truncation of everything accepted so far: batching, order and repetition leave no trace. */
  lemma {:induction false} EveryStateSound(v: Verifier, params: Params, states: seq<Messages>, calls: seq<Call>, now: HostTime)
    requires Run(v, params, states, calls)
    requires calls != [] ==> calls[|calls| - 1].now <= now
    ensures Sound(v, params, states[|calls|], now)
    ensures states[|calls|].Values == Settled(AcceptedOffers(v, params, calls))
    decreases |calls|
  {
    hide *;
    RunPrefix(v, params, states, calls);
    var n := |calls|;
    if calls == [] {
      GenesisSound(v, params, now);
      var genesis: Messages := map[];
      SoundShape(v, params, genesis, now);
      SettledNothing(genesis);
      assert genesis.Values == {} && genesis.Values + {} == {};
    } else {
      var init, last := calls[..n - 1], calls[n - 1];
      EveryStateSound(v, params, states[..n], init, last.now);
      UpdateKeepsSound(v, params, states[n - 1], last.now, last, states[n]);
      SoundShape(v, params, states[n], last.now);
      LaterVerified(v, params, states[n].Values, last.now, now);
      SoundShape(v, params, states[n], now);
      UpdatesShape(v, params, states[n - 1], last, states[n]);
      var offers := AcceptedOffers(v, params, init);
      SettledTwice({}, offers, Offered(last.data));
      assert {} + offers == offers && {} + (offers + Offered(last.data)) == offers + Offered(last.data);
      assert offers + {} == offers;
    }
  }

  ghost function IdsOfAuthor(room: Messages, a: Bytes32): set<MessageId> {
    set id | id in room && id.author == a
  }

  /** So at any time the room holds at most 500 messages and 32 of any author, each authentic
      and under its own id. */
  lemma EveryStateAuthentic(v: Verifier, params: Params, states: seq<Messages>, calls: seq<Call>, now: HostTime)
    requires Run(v, params, states, calls) && |states| == |calls| + 1
    requires calls != [] ==> calls[|calls| - 1].now <= now
    ensures var room := states[|calls|];
      && |room| <= 500
      && (forall a: Bytes32 :: |IdsOfAuthor(room, a)| <= 32)
      && forall id | id in room ::
           room[id].ts == id.ts && room[id].author == id.author && room[id].seqNo == id.seqNo
           && Authentic(v, params, room[id], now)
  {
    EveryStateSound(v, params, states, calls, now);
    hide Run, Settled, AcceptedOffers;
    var room := states[|calls|];
    forall id | id in room
      ensures Authentic(v, params, room[id], now)
    {
      assert room[id] in room.Values;
      var r := VerifyMessage(v, params, room[id], now);
    }
    hide Verified, Authentic;
    forall a: Bytes32
      ensures |IdsOfAuthor(room, a)| <= 32
    {
      AuthorGroup(room, a);
    }
  }

  lemma AuthorGroup(room: Messages, a: Bytes32)
    requires Capped(room, CHAT_MESSAGE_CAP, CHAT_MAX_MESSAGES_PER_AUTHOR)
    ensures |IdsOfAuthor(room, a)| <= CHAT_MAX_MESSAGES_PER_AUTHOR
  {
    var mine := IdsOfAuthor(room, a);
    assert mine == Group(AuthorOf, room.Keys, a);
    if mine != {} {
      var id :| id in mine;
      assert id.author == a;
    }
  }

  /** Replicas that accepted the same messages, in any order and batching, store the same room. */
  lemma SameOffersSameRoom(
      v: Verifier, params: Params, xs: seq<Messages>, cs: seq<Call>, ys: seq<Messages>, ds: seq<Call>, now: HostTime)
    requires Run(v, params, xs, cs) && Run(v, params, ys, ds)
    requires cs != [] ==> cs[|cs| - 1].now <= now
    requires ds != [] ==> ds[|ds| - 1].now <= now
    requires AcceptedOffers(v, params, cs) == AcceptedOffers(v, params, ds)
    ensures xs[|cs|] == ys[|ds|]
  {
    EveryStateSound(v, params, xs, cs, now);
    EveryStateSound(v, params, ys, ds, now);
    hide Settled, AcceptedOffers, Capped, AllVerified;
    SameMessagesSameBuffer(xs[|cs|], ys[|ds|]);
  }
}
