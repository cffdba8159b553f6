/** What the chat core promises over whole histories: convergence, the merge algebra,
    watermark synchronisation, the flood bound and the rate limit. */
module ChatLaws {
  import opened Bytes
  import opened Orders
  import opened Choice
  import opened Stores
  import opened ChatBuffer
  import opened Chat
  import opened Filter

  // ---- Convergence ----------------------------------------------------------------

  /** The buffer after inserting messages one by one into a buffer. */
  ghost function InsertedAll(a: Messages, ms: seq<SignedMessage>, cap: nat, authorCap: nat): Messages {
    if ms == [] then a
    else Inserted(InsertedAll(a, ms[..|ms| - 1], cap, authorCap), ms[|ms| - 1], cap, authorCap)
  }

  ghost function Built(ms: seq<SignedMessage>, cap: nat, authorCap: nat): Messages {
    InsertedAll(map[], ms, cap, authorCap)
  }

  /** What the merge loop leaves behind: other's values inserted in key order. */
  ghost function Merged(a: Messages, b: Messages, cap: nat, authorCap: nat): Messages {
    InsertedAll(a, ValuesInOrder(b), cap, authorCap)
  }

  lemma InsertedAllStep(a: Messages, ms: seq<SignedMessage>, cap: nat, authorCap: nat)
    ensures InsertedAll(a, ms, cap, authorCap) ==
      if ms == [] then a
      else Inserted(InsertedAll(a, ms[..|ms| - 1], cap, authorCap), ms[|ms| - 1], cap, authorCap)
  {
  }

  lemma {:induction false} InsertedAllIsNormal(a: Messages, ms: seq<SignedMessage>, cap: nat, authorCap: nat)
    requires Buffer(a, cap, authorCap)
    ensures Buffer(InsertedAll(a, ms, cap, authorCap), cap, authorCap)
    ensures InsertedAll(a, ms, cap, authorCap).Values == Room(cap, authorCap).Normal(a.Values + Elems(ms))
  {
    hide *;
    InsertedAllStep(a, ms, cap, authorCap);
    var base := a.Values;
    if ms == [] {
      ElemsNone(ms);
      BufferIsNormal(a, cap, authorCap);
      assert base + Elems(ms) == base;
    } else {
      var init, m := ms[..|ms| - 1], ms[|ms| - 1];
      InsertedAllIsNormal(a, init, cap, authorCap);
      InsertStep(InsertedAll(a, init, cap, authorCap), base + Elems(init), m, cap, authorCap);
      assert ms == init + [m];
      ElemsSnoc(init, m);
      UnionAssociates(base, Elems(init), {m});
    }
  }

  lemma EmptyBuffer(cap: nat, authorCap: nat)
    ensures Buffer(map[], cap, authorCap)
  {
  }

  /** Although every step sees only a truncated buffer, the result is slot winner per
      id, newest authorCap per author, newest cap overall, of all messages inserted. */
  lemma BuiltIsNormal(ms: seq<SignedMessage>, cap: nat, authorCap: nat)
    ensures Buffer(Built(ms, cap, authorCap), cap, authorCap)
    ensures Built(ms, cap, authorCap).Values == Room(cap, authorCap).Normal(Elems(ms))
  {
    hide Room, Buffer;
    EmptyBuffer(cap, authorCap);
    InsertedAllIsNormal(map[], ms, cap, authorCap);
    var none: Messages := map[];
    assert none.Values + Elems(ms) == Elems(ms);
  }

  lemma MergedIsNormal(a: Messages, b: Messages, cap: nat, authorCap: nat)
    requires Buffer(a, cap, authorCap)
    ensures Buffer(Merged(a, b, cap, authorCap), cap, authorCap)
    ensures Merged(a, b, cap, authorCap).Values == Room(cap, authorCap).Normal(a.Values + b.Values)
  {
    hide Room, Buffer;
    InsertedAllIsNormal(a, ValuesInOrder(b), cap, authorCap);
  }

  lemma SameBuffer(a: Messages, b: Messages, cap: nat, authorCap: nat)
    requires Buffer(a, cap, authorCap) && Buffer(b, cap, authorCap) && a.Values == b.Values
    ensures a == b
  {
    SameMessagesSameBuffer(a, b);
  }

  /** Arrival order and repetition leave no trace. */
  lemma ArrivalOrderIrrelevant(p: seq<SignedMessage>, q: seq<SignedMessage>, cap: nat, authorCap: nat)
    requires Elems(p) == Elems(q)
    ensures Built(p, cap, authorCap) == Built(q, cap, authorCap)
  {
    hide *;
    BuiltIsNormal(p, cap, authorCap);
    BuiltIsNormal(q, cap, authorCap);
    SameBuffer(Built(p, cap, authorCap), Built(q, cap, authorCap), cap, authorCap);
  }

  // ---- What is kept ---------------------------------------------------------------------

  /** x is later than y: by time, then author bytes, then sequence number. */
  ghost predicate LaterId(x: MessageId, y: MessageId) {
    || x.ts > y.ts
    || (x.ts == y.ts && BytesLess(y.author, x.author))
    || (x.ts == y.ts && x.author == y.author && x.seqNo > y.seqNo)
  }

  /** m keeps its slot against n: a greater signature, or an equal one and content that is
      not smaller. */
  ghost predicate HoldsSlot(m: SignedMessage, n: SignedMessage) {
    BytesLess(n.signature, m.signature) || (n.signature == m.signature && !BytesLess(m.content, n.content))
  }

  ghost function IdsIn(s: set<SignedMessage>): set<MessageId> {
    set m | m in s :: m.Id()
  }

  ghost function LaterOfAuthor(ids: set<MessageId>, x: MessageId): set<MessageId> {
    set y | y in ids && y.author == x.author && (y.ts > x.ts || (y.ts == x.ts && y.seqNo > x.seqNo))
  }

  /** The ids among their author's k newest that are later than x. */
  ghost function LaterKept(ids: set<MessageId>, x: MessageId, k: nat): set<MessageId> {
    set y | y in ids && |LaterOfAuthor(ids, y)| < k && LaterId(y, x)
  }

  ghost predicate Kept(s: set<SignedMessage>, m: SignedMessage, cap: nat, authorCap: nat) {
    && m in s
    && (forall n | n in s && n.ts == m.ts && n.author == m.author && n.seqNo == m.seqNo :: HoldsSlot(m, n))
    && |LaterOfAuthor(IdsIn(s), m.Id())| < authorCap
    && |LaterKept(IdsIn(s), m.Id(), authorCap)| < cap
  }

  lemma OrdersExact()
    ensures forall x: MessageId, y: MessageId :: IdLess(y, x) <==> LaterId(x, y)
    ensures forall m: SignedMessage, n: SignedMessage :: HoldsSlot(m, n) <==> !SlotBeats(n, m)
  {
    BytesOrder();
    hide BytesLess;
  }

  lemma AboveOfAuthor(ids: set<MessageId>, x: MessageId)
    ensures Above(IdLess, Group(AuthorOf, ids, x.author), x) == LaterOfAuthor(ids, x)
  {
    BytesOrder();
    hide BytesLess;
  }

  lemma KeptIds(ids: set<MessageId>, x: MessageId, cap: nat, authorCap: nat)
    ensures x in Nested(IdLess, AuthorOf, ids, cap, authorCap) <==>
      x in ids && |LaterOfAuthor(ids, x)| < authorCap && |LaterKept(ids, x, authorCap)| < cap
  {
    hide IdLess, LaterId, LaterOfAuthor;
    OrdersExact();
    forall y: MessageId
      ensures Above(IdLess, Group(AuthorOf, ids, y.author), y) == LaterOfAuthor(ids, y)
    {
      AboveOfAuthor(ids, y);
    }
    var own := GroupTop(IdLess, AuthorOf, ids, authorCap);
    forall y: MessageId
      ensures y in own <==> y in ids && |LaterOfAuthor(ids, y)| < authorCap
    {
      assert y in Group(AuthorOf, ids, AuthorOf(y)) <==> y in ids;
    }
    assert Above(IdLess, own, x) == LaterKept(ids, x, authorCap);
  }

  /** The truncated room of a set: the holder of each id, if fewer than authorCap later ids
      of its author and fewer than cap later ids that pass that test exist. */
  lemma RoomKeepsExactly(s: set<SignedMessage>, m: SignedMessage, cap: nat, authorCap: nat)
    ensures m in Room(cap, authorCap).Normal(s) <==> Kept(s, m, cap, authorCap)
  {
    hide IdLess, SlotBeats, HoldsSlot, LaterId, LaterOfAuthor, LaterKept, Nested;
    OrdersExact();
    var room := Room(cap, authorCap);
    KeptIds(room.Slots(s), m.Id(), cap, authorCap);
    assert room.Slots(s) == IdsIn(s);
    forall n: SignedMessage
      ensures room.slot(n) == room.slot(m) <==> n.ts == m.ts && n.author == m.author && n.seqNo == m.seqNo
    {
    }
  }

  /** After any insertions, in any order, exactly those of the messages inserted are held. */
  lemma HeldExact(ms: seq<SignedMessage>, m: SignedMessage, cap: nat, authorCap: nat)
    ensures m in Built(ms, cap, authorCap).Values <==> Kept(Elems(ms), m, cap, authorCap)
  {
    hide *;
    BuiltIsNormal(ms, cap, authorCap);
    RoomKeepsExactly(Elems(ms), m, cap, authorCap);
  }

  // ---- The merge algebra ------------------------------------------------------------

  lemma MergeCommutes(a: Messages, b: Messages, cap: nat, authorCap: nat)
    requires Buffer(a, cap, authorCap) && Buffer(b, cap, authorCap)
    ensures Merged(a, b, cap, authorCap) == Merged(b, a, cap, authorCap)
  {
    hide *;
    MergedIsNormal(a, b, cap, authorCap);
    MergedIsNormal(b, a, cap, authorCap);
    assert a.Values + b.Values == b.Values + a.Values;
    SameBuffer(Merged(a, b, cap, authorCap), Merged(b, a, cap, authorCap), cap, authorCap);
  }

  lemma MergeAssociates(a: Messages, b: Messages, c: Messages, cap: nat, authorCap: nat)
    requires Buffer(a, cap, authorCap) && Buffer(b, cap, authorCap) && Buffer(c, cap, authorCap)
    ensures Merged(Merged(a, b, cap, authorCap), c, cap, authorCap)
         == Merged(a, Merged(b, c, cap, authorCap), cap, authorCap)
  {
    hide *;
    var room, ab, bc := Room(cap, authorCap), Merged(a, b, cap, authorCap), Merged(b, c, cap, authorCap);
    MergedIsNormal(a, b, cap, authorCap);
    MergedIsNormal(b, c, cap, authorCap);
    MergedIsNormal(ab, c, cap, authorCap);
    MergedIsNormal(a, bc, cap, authorCap);
    RoomAbsorbs(cap, authorCap, a.Values + b.Values, c.Values);
    RoomAbsorbs(cap, authorCap, b.Values + c.Values, a.Values);
    assert a.Values + bc.Values == bc.Values + a.Values;
    assert a.Values + b.Values + c.Values == b.Values + c.Values + a.Values;
    SameBuffer(Merged(ab, c, cap, authorCap), Merged(a, bc, cap, authorCap), cap, authorCap);
  }

  /** Merging with itself, with nothing and into nothing all leave a buffer as it is. */
  lemma MergeIdempotentUnit(a: Messages, cap: nat, authorCap: nat)
    requires Buffer(a, cap, authorCap)
    ensures Merged(a, a, cap, authorCap) == a
    ensures Merged(a, map[], cap, authorCap) == a && Merged(map[], a, cap, authorCap) == a
  {
    hide Room, Buffer, Merged;
    EmptyBuffer(cap, authorCap);
    BufferIsNormal(a, cap, authorCap);
    MergedIsNormal(a, a, cap, authorCap);
    MergedIsNormal(a, map[], cap, authorCap);
    MergeCommutes(a, map[], cap, authorCap);
    assert a.Values + a.Values == a.Values;
    var none: Messages := map[];
    assert a.Values + none.Values == a.Values;
    SameBuffer(Merged(a, a, cap, authorCap), a, cap, authorCap);
    SameBuffer(Merged(a, map[], cap, authorCap), a, cap, authorCap);
  }

  /** Merging two histories' buffers is building from both histories. */
  lemma MergeIsUnion(p: seq<SignedMessage>, q: seq<SignedMessage>, cap: nat, authorCap: nat)
    ensures Merged(Built(p, cap, authorCap), Built(q, cap, authorCap), cap, authorCap)
         == Built(p + q, cap, authorCap)
  {
    hide *;
    var a, b, room := Built(p, cap, authorCap), Built(q, cap, authorCap), Room(cap, authorCap);
    BuiltIsNormal(p, cap, authorCap);
    BuiltIsNormal(q, cap, authorCap);
    BuiltIsNormal(p + q, cap, authorCap);
    MergedIsNormal(a, b, cap, authorCap);
    ElemsConcat(p, q);
    RoomAbsorbsBoth(cap, authorCap, Elems(p), Elems(q));
    SameBuffer(Merged(a, b, cap, authorCap), Built(p + q, cap, authorCap), cap, authorCap);
  }

  // ---- Watermark synchronisation -----------------------------------------------------

  /** A converged requester gets nothing, for every buffer whatever its keys. */
  lemma OwnDeltaEmpty(m: Messages, s: Summary)
    requires Summarizes(s, m.Keys)
    ensures MissingFrom(s, m) == {}
  {
  }

  /** An empty summary fetches everything, from which the whole buffer is rebuilt. */
  lemma FreshPeerRebuilds(b: Messages, ms: seq<SignedMessage>, cap: nat, authorCap: nat)
    requires Buffer(b, cap, authorCap) && Elems(ms) == MissingFrom(map[], b)
    ensures Built(ms, cap, authorCap) == b
  {
    assert MissingFrom(map[], b) == b.Values;
    BuiltIsNormal(ms, cap, authorCap);
    BufferIsNormal(b, cap, authorCap);
    SameMessagesSameBuffer(Built(ms, cap, authorCap), b);
  }

  /** A delta answers a summary exactly when every message of the merged buffer is
      already held or newer than its author's watermark. */
  lemma DeltaExact(a: Messages, b: Messages, s: Summary, cap: nat, authorCap: nat)
    requires Buffer(a, cap, authorCap)
    ensures Room(cap, authorCap).Normal(a.Values + MissingFrom(s, b)) == Merged(a, b, cap, authorCap).Values
       <==> forall m | m in Merged(a, b, cap, authorCap).Values :: m in a.Values || m in MissingFrom(s, b)
  {
    hide Room, Merged, Beyond;
    RoomLawful(cap, authorCap);
    MergedIsNormal(a, b, cap, authorCap);
    hide Store.Lawful;
    assert MissingFrom(s, b) <= b.Values;
    Room(cap, authorCap).OnlySurvivorsMatter(a.Values + MissingFrom(s, b), a.Values + b.Values);
  }

  /** The requester lacks b's message: its slot is empty or loses to it. */
  ghost predicate Lacks(a: Messages, m: SignedMessage) {
    m.Id() !in a || !HoldsSlot(a[m.Id()], m)
  }

  /** If everything b holds and a lacks is newer than a's watermarks, a summary and a
      delta have the effect of a full merge. */
  lemma WatermarkSync(a: Messages, b: Messages, s: Summary, cap: nat, authorCap: nat)
    requires Buffer(a, cap, authorCap) && WellKeyed(b)
    requires forall id | id in b && Lacks(a, b[id]) ::
      || id.author !in s
      || id.ts > s[id.author].0
      || (id.ts == s[id.author].0 && id.seqNo > s[id.author].1)
    ensures Room(cap, authorCap).Normal(a.Values + MissingFrom(s, b)) == Merged(a, b, cap, authorCap).Values
  {
    hide Merged;
    MergedIsNormal(a, b, cap, authorCap);
    var room, part, all := Room(cap, authorCap), a.Values + MissingFrom(s, b), a.Values + b.Values;
    forall m | m in room.Normal(all)
      ensures m in part
    {
      if m !in a.Values {
        assert b[m.Id()] == m;
        if !Lacks(a, m) {
          var held := a[m.Id()];
          assert held in all && room.slot(held) == room.slot(m);
          BytesOrder();
        }
      }
    }
    DeltaExact(a, b, s, cap, authorCap);
  }

  lemma PairStored(m: SignedMessage, n: SignedMessage)
    requires m.Id() != n.Id()
    ensures m in Room(2, 2).Normal({n, m})
  {
    var room, both := Room(2, 2), {n, m};
    var ids := {n.Id(), m.Id()};
    assert room.Slots(both) == ids;
    forall id | id in ids
      ensures |Group(AuthorOf, ids, AuthorOf(id))| <= 2
    {
      SubsetSize(Group(AuthorOf, ids, id.author), ids);
    }
    IdLessTotal();
    NestedWithinCaps(IdLess, AuthorOf, ids, 2, 2);
    RoomLawful(2, 2);
  }

  /** The condition is needed: an older message behind the watermark is never sent. */
  lemma OlderMessageNotSent(m: SignedMessage, n: SignedMessage, s: Summary)
    requires m.author == n.author && m.ts < n.ts
    requires Summarizes(s, {n.Id()})
    ensures MissingFrom(s, map[m.Id() := m]) == {}
    ensures Room(2, 2).Normal({n} + MissingFrom(s, map[m.Id() := m])) != Room(2, 2).Normal({n, m})
  {
    hide Room;
    assert n.Id() in {n.Id()};
    var room, sent := Room(2, 2), MissingFrom(s, map[m.Id() := m]);
    assert sent == {};
    assert room.Normal({n} + sent) <= {n} + sent;
    PairStored(m, n);
  }

  // ---- The flood bound -----------------------------------------------------------------

  ghost function IdsOf(ms: seq<SignedMessage>): set<MessageId> {
    set m | m in ms :: m.Id()
  }

  lemma OfferedIds(a: Messages, ms: seq<SignedMessage>, cap: nat, authorCap: nat)
    requires WellKeyed(a)
    ensures Room(cap, authorCap).Slots(a.Values + Elems(ms)) == a.Keys + IdsOf(ms)
  {
    var room := Room(cap, authorCap);
    SlotsAreKeys(a, cap, authorCap);
    room.SlotsOfUnion(a.Values, Elems(ms));
    forall id | id in IdsOf(ms)
      ensures id in room.Slots(Elems(ms))
    {
      var m :| m in ms && m.Id() == id;
      assert m in Elems(ms) && room.slot(m) == id;
    }
  }

  lemma KeysAreKept(a: Messages, ms: seq<SignedMessage>, cap: nat, authorCap: nat)
    requires Buffer(a, cap, authorCap)
    ensures InsertedAll(a, ms, cap, authorCap).Keys
         == Nested(IdLess, AuthorOf, a.Keys + IdsOf(ms), cap, authorCap)
  {
    hide *;
    var room, b := Room(cap, authorCap), InsertedAll(a, ms, cap, authorCap);
    InsertedAllIsNormal(a, ms, cap, authorCap);
    BufferIsWellKeyed(a, cap, authorCap);
    BufferIsWellKeyed(b, cap, authorCap);
    SlotsAreKeys(b, cap, authorCap);
    OfferedIds(a, ms, cap, authorCap);
    RoomKeeps(a.Values + Elems(ms), cap, authorCap);
  }

  lemma BufferIsWellKeyed(m: Messages, cap: nat, authorCap: nat)
    requires Buffer(m, cap, authorCap)
    ensures WellKeyed(m)
  {
  }

  lemma RoomKeeps(s: set<SignedMessage>, cap: nat, authorCap: nat)
    ensures Room(cap, authorCap).Slots(Room(cap, authorCap).Normal(s))
         == Nested(IdLess, AuthorOf, Room(cap, authorCap).Slots(s), cap, authorCap)
  {
    RoomLawful(cap, authorCap);
    Room(cap, authorCap).SlotsOfNormal(s);
  }

  /** However many messages one author posts, at most authorCap messages of other
      authors leave the buffer. */
  lemma FloodBound(a: Messages, flood: seq<SignedMessage>, author: Bytes32, cap: nat, authorCap: nat)
    requires Buffer(a, cap, authorCap) && forall m | m in flood :: m.author == author
    ensures |set id | id in a.Keys && id.author != author && id !in InsertedAll(a, flood, cap, authorCap).Keys| <= authorCap
  {
    hide Room, InsertedAll, Inserted, Buffer, StrictTotal, IdLess, Nested;
    IdLessTotal();
    KeysAreKept(a, flood, cap, authorCap);
    KeysAreKept(a, [], cap, authorCap);
    InsertedAllStep(a, [], cap, authorCap);
    assert a.Keys + IdsOf([]) == a.Keys;
    Choice.FloodBound(IdLess, AuthorOf, a.Keys, IdsOf(flood), author, cap, authorCap);
    assert (set id | id in a.Keys && id.author != author && id !in InsertedAll(a, flood, cap, authorCap).Keys)
        == Lost(IdLess, AuthorOf, a.Keys, IdsOf(flood), author, cap, authorCap);
  }

  /** And the messages of others that stay are the ones that were there. */
  lemma OthersUntouched(a: Messages, flood: seq<SignedMessage>, author: Bytes32, cap: nat, authorCap: nat)
    requires Buffer(a, cap, authorCap) && forall m | m in flood :: m.author == author
    ensures var b := InsertedAll(a, flood, cap, authorCap);
      forall id | id in b && id.author != author :: id in a && b[id] == a[id]
  {
    var b := InsertedAll(a, flood, cap, authorCap);
    InsertedAllIsNormal(a, flood, cap, authorCap);
    forall id | id in b && id.author != author
      ensures id in a && b[id] == a[id]
    {
      assert b[id] in b.Values && b[id].author != author;
    }
  }

  ghost function AuthorsOf(ms: seq<SignedMessage>): set<Bytes32> {
    set m | m in ms :: m.author
  }

  lemma AuthorsOfIds(ms: seq<SignedMessage>)
    ensures Image(AuthorOf, IdsOf(ms)) == AuthorsOf(ms)
  {
    forall m | m in ms
      ensures m.author in Image(AuthorOf, IdsOf(ms))
    {
      assert m.Id() in IdsOf(ms) && AuthorOf(m.Id()) == m.author;
    }
  }

  /** While distinct authors times authorCap fit into the buffer, every author keeps
      exactly its own authorCap newest messages. */
  lemma EveryAuthorKept(ms: seq<SignedMessage>, cap: nat, authorCap: nat)
    requires |AuthorsOf(ms)| * authorCap <= cap
    ensures Built(ms, cap, authorCap).Keys
         == GroupTop(IdLess, AuthorOf, IdsOf(ms), authorCap)
  {
    hide Room, InsertedAll, Inserted, Buffer, StrictTotal, IdLess, Top, GroupTop;
    var ids := IdsOf(ms);
    EmptyBuffer(cap, authorCap);
    KeysAreKept(map[], ms, cap, authorCap);
    IdLessTotal();
    GroupTopTotal(IdLess, AuthorOf, ids, authorCap);
    AuthorsOfIds(ms);
    TopSmall(IdLess, GroupTop(IdLess, AuthorOf, ids, authorCap), cap);
    var none: Messages := map[];
    assert none.Keys + ids == ids;
  }

  // ---- The rate limit --------------------------------------------------------------------

  function TsOf(id: MessageId): nat { id.ts }

  function Only(ids: seq<MessageId>, author: Bytes32): seq<MessageId> {
    if ids == [] then []
    else (if ids[0].author == author then [ids[0]] else []) + Only(ids[1..], author)
  }

  /** The least acceptable timestamp of an author's next message. */
  function Bar(last: map<Bytes32, u64>, author: Bytes32): nat {
    if author in last then last[author] + CHAT_MIN_MESSAGE_INTERVAL_SECS else 0
  }

  lemma OnlyCons(id: MessageId, rest: seq<MessageId>, author: Bytes32)
    ensures Only([id] + rest, author) == if id.author == author then [id] + Only(rest, author) else Only(rest, author)
  {
    assert ([id] + rest)[1..] == rest;
  }

  lemma GreedyCons(id: MessageId, rest: seq<MessageId>, bar: nat -> nat, lo: nat)
    ensures Greedy([id] + rest, TsOf, bar, lo) ==
      if id.ts >= lo then [id] + Greedy(rest, TsOf, bar, bar(id.ts)) else Greedy(rest, TsOf, bar, lo)
  {
    assert ([id] + rest)[1..] == rest;
  }

  lemma ChosenCons(ids: seq<MessageId>, last: map<Bytes32, u64>)
    requires ids != []
    ensures Chosen(ids, last) ==
      if ids[0].ts >= Bar(last, ids[0].author)
      then [ids[0]] + Chosen(ids[1..], last[ids[0].author := ids[0].ts])
      else Chosen(ids[1..], last)
    ensures Bar(last[ids[0].author := ids[0].ts], ids[0].author) == Plus(CHAT_MIN_MESSAGE_INTERVAL_SECS)(ids[0].ts)
    ensures forall a | a != ids[0].author :: Bar(last[ids[0].author := ids[0].ts], a) == Bar(last, a)
  {
  }

  /** The interleaved filter is, per author, the greedy filter. */
  lemma {:induction false} ChosenIsGreedy(ids: seq<MessageId>, last: map<Bytes32, u64>, author: Bytes32)
    ensures Only(Chosen(ids, last), author)
         == Greedy(Only(ids, author), TsOf, Plus(CHAT_MIN_MESSAGE_INTERVAL_SECS), Bar(last, author))
  {
    if ids != [] {
      hide Chosen, Only, Greedy, Bar, Plus;
      var id, rest, bar := ids[0], ids[1..], Plus(CHAT_MIN_MESSAGE_INTERVAL_SECS);
      var next := last[id.author := id.ts];
      assert ids == [id] + rest;
      ChosenIsGreedy(rest, next, author);
      ChosenIsGreedy(rest, last, author);
      ChosenCons(ids, last);
      OnlyCons(id, rest, author);
      OnlyCons(id, Chosen(rest, next), author);
      GreedyCons(id, Only(rest, author), bar, Bar(last, author));
    }
  }

  lemma {:induction false} OnlyMembers(ids: seq<MessageId>, author: Bytes32)
    ensures forall id :: id in Only(ids, author) <==> id in ids && id.author == author
  {
    if ids != [] { OnlyMembers(ids[1..], author); }
  }

  lemma {:induction false} OnlyByTime(ids: seq<MessageId>, author: Bytes32)
    requires ByTime(ids, TsOf)
    ensures ByTime(Only(ids, author), TsOf)
  {
    if ids != [] {
      OnlyByTime(ids[1..], author);
      OnlyMembers(ids[1..], author);
      var tail := Only(ids[1..], author);
      forall j | 0 <= j < |tail|
        ensures TsOf(ids[0]) <= TsOf(tail[j])
      {
        assert tail[j] in tail;
      }
    }
  }

  /** One author's ids in the display. */
  function ShownOf(m: Messages, author: Bytes32): seq<MessageId> {
    Only(Chosen(SortedIds(m.Keys), map[]), author)
  }

  lemma ShownIsGreedy(m: Messages, author: Bytes32)
    ensures ShownOf(m, author)
         == Greedy(Only(SortedIds(m.Keys), author), TsOf, Plus(CHAT_MIN_MESSAGE_INTERVAL_SECS), 0)
  {
    hide Plus, Greedy, Only, Chosen, SortedIds;
    ChosenIsGreedy(SortedIds(m.Keys), map[], author);
  }

  lemma MineByTime(m: Messages, author: Bytes32)
    ensures ByTime(Only(SortedIds(m.Keys), author), TsOf)
    ensures forall id | id in m && id.author == author :: id in Only(SortedIds(m.Keys), author)
  {
    var order := SortedIds(m.Keys);
    forall i, j | 0 <= i < j < |order|
      ensures TsOf(order[i]) <= TsOf(order[j])
    {
      NotBefore(order, i, j);
    }
    OnlyByTime(order, author);
    OnlyMembers(order, author);
    assert forall id | id in Elems(order) :: id in order;
  }

  lemma IntervalRises()
    ensures Rising(Plus(CHAT_MIN_MESSAGE_INTERVAL_SECS))
    ensures forall id: MessageId :: Plus(CHAT_MIN_MESSAGE_INTERVAL_SECS)(TsOf(id)) == id.ts + CHAT_MIN_MESSAGE_INTERVAL_SECS
  {
  }

  /** The display shows an author at most once per 3 seconds, hides a message only
      within 3 seconds of an earlier shown one, and no other selection of the
      author's messages that is as well spaced is larger. */
  lemma RateLimit(m: Messages, author: Bytes32, other: seq<MessageId>)
    requires forall id | id in other :: id in m && id.author == author
    requires Spaced(other, TsOf, Plus(3))
    ensures Spaced(ShownOf(m, author), TsOf, Plus(3))
    ensures forall id | id in m && id.author == author && id !in ShownOf(m, author) ::
      exists a :: a in ShownOf(m, author) && a.ts <= id.ts < a.ts + 3
    ensures |other| <= |ShownOf(m, author)|
  {
    hide Plus, Rising, ByTime, Spaced, Greedy, Only, Chosen, ShownOf, SortedIds;
    var mine, bar := Only(SortedIds(m.Keys), author), Plus(CHAT_MIN_MESSAGE_INTERVAL_SECS);
    ShownIsGreedy(m, author);
    MineByTime(m, author);
    IntervalRises();
    GreedySpaced(mine, TsOf, bar, 0);
    GreedyOptimal(mine, TsOf, bar, 0, other);
    forall id | id in m && id.author == author && id !in ShownOf(m, author)
      ensures exists a :: a in ShownOf(m, author) && a.ts <= id.ts < a.ts + 3
    {
      GreedyRejects(mine, TsOf, bar, 0, id);
      var a :| a in ShownOf(m, author) && TsOf(a) <= TsOf(id) < bar(TsOf(a));
    }
  }

  lemma {:induction false} ChosenAscends(ids: seq<MessageId>, last: map<Bytes32, u64>)
    requires Ascending(IdLess, ids)
    ensures Ascending(IdLess, Chosen(ids, last))
  {
    hide IdLess;
    if ids != [] {
      var next := last[ids[0].author := ids[0].ts];
      ChosenAscends(ids[1..], next);
      ChosenAscends(ids[1..], last);
      ChosenFrom(ids[1..], next);
      var tail := Chosen(ids[1..], next);
      forall j | 0 <= j < |tail|
        ensures IdLess(ids[0], tail[j])
      {
        assert tail[j] in tail;
        var k :| 0 <= k < |ids[1..]| && ids[1..][k] == tail[j];
        assert ids[k + 1] == tail[j];
      }
    }
  }

  /** The display lists stored messages oldest first: by time, then author, then sequence
      number. */
  lemma ShownInOrder(m: Messages)
    requires WellKeyed(m)
    ensures forall x | x in Shown(m) :: x in m.Values
    ensures forall i, j | 0 <= i < j < |Shown(m)| :: LaterId(Shown(m)[j].Id(), Shown(m)[i].Id())
  {
    hide IdLess, LaterId, Chosen, SortedIds;
    OrdersExact();
    ShownShape(m);
    var ids := Chosen(SortedIds(m.Keys), map[]);
    SortedAscends(m);
    ChosenAscends(SortedIds(m.Keys), map[]);
    forall i | 0 <= i < |ids|
      ensures ids[i] in m && m[ids[i]].Id() == ids[i] && Shown(m)[i] == m[ids[i]]
    {
      assert ids[i] in ids;
    }
  }

  lemma SortedAscends(m: Messages)
    ensures Ascending(IdLess, SortedIds(m.Keys))
  {
  }
}
