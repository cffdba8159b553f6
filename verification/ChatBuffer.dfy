/** The chat ring buffer (common/src/chat.rs) as a value: signed messages keyed by id
    under a per-author cap and a global cap, and its normal form. */
module ChatBuffer {
  import opened Bytes
  import opened Orders
  import opened Choice
  import opened Stores
  import opened Outcomes

  const CHAT_MESSAGE_CAP: nat := 500
  const CHAT_MAX_MESSAGES_PER_AUTHOR: nat := 32
  const CHAT_MIN_MESSAGE_INTERVAL_SECS: nat := 3
  const MAX_CHAT_MESSAGE_BYTES: nat := 512

  datatype MessageId = MessageId(ts: u64, author: Bytes32, seqNo: u32)

  /** The content is carried as its UTF-8 bytes. */
  datatype SignedMessage = SignedMessage(
    content: Bytes, ts: u64, seqNo: u32, author: Bytes32, signature: Bytes64)
  {
    function Id(): MessageId { MessageId(ts, author, seqNo) }
  }

  type Messages = map<MessageId, SignedMessage>

  /** Requester watermarks: newest (ts, seq) per author. */
  type Summary = map<Bytes32, (u64, u32)>

  predicate IdLess(a: MessageId, b: MessageId) {
    a.ts < b.ts
    || (a.ts == b.ts && (BytesLess(a.author, b.author) || (a.author == b.author && a.seqNo < b.seqNo)))
  }

  predicate SlotBeats(challenger: SignedMessage, incumbent: SignedMessage) {
    BytesLess(incumbent.signature, challenger.signature)
    || (incumbent.signature == challenger.signature && BytesLess(incumbent.content, challenger.content))
  }

  lemma IdLessTotal()
    ensures StrictTotal(IdLess)
  {
    BytesOrder();
  }

  /** The first key of a BTreeMap of messages. */
  function FirstId(ids: set<MessageId>): (id: MessageId)
    requires ids != {}
    ensures id in ids && forall other | other in ids && other != id :: IdLess(id, other)
  {
    IdLessTotal();
    Least(IdLess, ids)
  }

  /** The keys of a BTreeMap of messages, in iteration order. */
  function SortedIds(ids: set<MessageId>): (q: seq<MessageId>)
    ensures Elems(q) == ids && |q| == |ids| && Ascending(IdLess, q)
  {
    IdLessTotal();
    Sorted(IdLess, ids)
  }

  function Pick(m: Messages, ids: seq<MessageId>): (r: seq<SignedMessage>)
    requires forall id | id in ids :: id in m
    ensures |r| == |ids| && forall i | 0 <= i < |ids| :: r[i] == m[ids[i]]
  {
    seq(|ids|, i requires 0 <= i < |ids| => m[ids[i]])
  }

  /** The values of a BTreeMap of messages, in iteration order. */
  function ValuesInOrder(m: Messages): (r: seq<SignedMessage>)
    ensures Elems(r) == m.Values
  {
    var q := SortedIds(m.Keys);
    assert forall id | id in q :: id in Elems(q);
    var r := Pick(m, q);
    PickValues(m, q);
    r
  }

  lemma PickValues(m: Messages, q: seq<MessageId>)
    requires Elems(q) == m.Keys && forall id | id in q :: id in m
    ensures Elems(Pick(m, q)) == m.Values
  {
    var r := Pick(m, q);
    forall v | v in m.Values
      ensures v in r
    {
      var id :| id in m && m[id] == v;
      assert id in Elems(q);
      var i :| 0 <= i < |q| && q[i] == id;
      assert r[i] == v;
    }
  }

  // ---- The ring buffer as a store ------------------------------------------------

  function AuthorOf(id: MessageId): Bytes32 { id.author }

  function IdOf(m: SignedMessage): MessageId { m.Id() }

  ghost function Room(cap: nat, authorCap: nat): Store<SignedMessage, MessageId> {
    Store(IdOf, SlotBeats,
          (ids: set<MessageId>) => Nested(IdLess, AuthorOf, ids, cap, authorCap))
  }

  lemma RoomLawful(cap: nat, authorCap: nat)
    ensures Room(cap, authorCap).Lawful()
  {
    BytesOrder();
    IdLessTotal();
    var keep := Room(cap, authorCap).keep;
    assert Contracts(keep);
    forall a, b, x | a <= b && x in a && x in keep(b)
      ensures x in keep(a)
    {
      NestedHeredity(IdLess, AuthorOf, a, b, cap, authorCap, x);
    }
    forall a, b | a <= b
      ensures |keep(a)| <= |keep(b)|
    {
      NestedSizeMonotone(IdLess, AuthorOf, a, b, cap, authorCap);
    }
    PathIndependence(keep);
  }

  lemma RoomAbsorbs(cap: nat, authorCap: nat, a: set<SignedMessage>, b: set<SignedMessage>)
    ensures Room(cap, authorCap).Normal(Room(cap, authorCap).Normal(a) + b) == Room(cap, authorCap).Normal(a + b)
  {
    RoomLawful(cap, authorCap);
    Room(cap, authorCap).NormalAbsorbs(a, b);
  }

  lemma RoomAbsorbsBoth(cap: nat, authorCap: nat, a: set<SignedMessage>, b: set<SignedMessage>)
    ensures Room(cap, authorCap).Normal(Room(cap, authorCap).Normal(a) + Room(cap, authorCap).Normal(b))
         == Room(cap, authorCap).Normal(a + b)
  {
    hide *;
    var na, nb := Room(cap, authorCap).Normal(a), Room(cap, authorCap).Normal(b);
    RoomAbsorbs(cap, authorCap, a, nb);
    RoomAbsorbs(cap, authorCap, b, a);
    assert a + nb == nb + a && a + b == b + a;
  }

  // ---- Buffers --------------------------------------------------------------------

  ghost predicate WellKeyed(m: Messages) {
    forall id | id in m :: m[id].Id() == id
  }

  ghost predicate Capped(m: Messages, cap: nat, authorCap: nat) {
    |m| <= cap && forall id | id in m :: |Group(AuthorOf, m.Keys, id.author)| <= authorCap
  }

  ghost predicate Buffer(m: Messages, cap: nat, authorCap: nat) {
    WellKeyed(m) && Capped(m, cap, authorCap)
  }

  /** A well-keyed buffer and the set of its messages determine each other. */
  lemma SameMessagesSameBuffer(a: Messages, b: Messages)
    requires WellKeyed(a) && WellKeyed(b) && a.Values == b.Values
    ensures a == b
  {
    forall id | id in a
      ensures id in b && b[id] == a[id]
    {
      assert a[id] in b.Values;
    }
    forall id | id in b
      ensures id in a
    {
      assert b[id] in a.Values;
    }
  }

  lemma SlotsAreKeys(m: Messages, cap: nat, authorCap: nat)
    requires WellKeyed(m)
    ensures Room(cap, authorCap).Slots(m.Values) == m.Keys
  {
    forall id | id in m
      ensures id in Room(cap, authorCap).Slots(m.Values)
    {
      assert m[id] in m.Values;
    }
  }

  lemma BufferIsNormal(m: Messages, cap: nat, authorCap: nat)
    requires Buffer(m, cap, authorCap)
    ensures Room(cap, authorCap).Normal(m.Values) == m.Values
  {
    IdLessTotal();
    RoomLawful(cap, authorCap);
    SlotsAreKeys(m, cap, authorCap);
    NestedWithinCaps(IdLess, AuthorOf, m.Keys, cap, authorCap);
    Room(cap, authorCap).AlreadyNormal(m.Values);
  }

  // ---- One insertion, map level --------------------------------------------------

  ghost function Resolved(m: Messages, message: SignedMessage): Messages {
    var id := message.Id();
    if id in m && !SlotBeats(message, m[id]) then m else m[id := message]
  }

  /** Only the inserted message's author is cut back to its newest authorCap ids. */
  ghost function OwnCap(ids: set<MessageId>, author: Bytes32, authorCap: nat): set<MessageId> {
    set id | id in ids && (id.author == author ==> id in Top(IdLess, Group(AuthorOf, ids, author), authorCap))
  }

  ghost function Restrict(m: Messages, ids: set<MessageId>): Messages {
    map id | id in m && id in ids :: m[id]
  }

  lemma RestrictKeys(m: Messages, ids: set<MessageId>)
    ensures Restrict(m, m.Keys) == m && Restrict(m, m.Keys - {}) == m
    ensures ids <= m.Keys ==> Restrict(m, ids).Keys == ids
  {
    assert m.Keys - {} == m.Keys;
  }

  lemma RestrictDrop(m: Messages, ids: set<MessageId>, id: MessageId)
    ensures Restrict(m, ids) - {id} == Restrict(m, ids - {id})
    ensures ids <= m.Keys ==> (Restrict(m, ids) - {id}).Keys == ids - {id}
  {
  }

  ghost function Inserted(m: Messages, message: SignedMessage, cap: nat, authorCap: nat): Messages {
    var r := Resolved(m, message);
    Restrict(r, Top(IdLess, OwnCap(r.Keys, message.author, authorCap), cap))
  }

  lemma InsertedShape(m: Messages, message: SignedMessage, cap: nat, authorCap: nat)
    ensures var id, r := message.Id(), Resolved(m, message);
      && id.author == message.author
      && r == (if id in m && !SlotBeats(message, m[id]) then m else m[id := message])
      && OwnCap(r.Keys, message.author, authorCap) <= r.Keys
      && Inserted(m, message, cap, authorCap)
         == Restrict(r, Top(IdLess, OwnCap(r.Keys, message.author, authorCap), cap))
  {
  }

  lemma GroupOfAuthor(ids: set<MessageId>, author: Bytes32)
    ensures Group(AuthorOf, ids, author) == set id | id in ids && id.author == author
  {
  }

  /** On a capped buffer, cutting back the one author is the full nested truncation. */
  lemma OwnCapSuffices(m: Messages, message: SignedMessage, cap: nat, authorCap: nat)
    requires Capped(m, cap, authorCap)
    ensures OwnCap(m.Keys + {message.Id()}, message.author, authorCap)
         == GroupTop(IdLess, AuthorOf, m.Keys + {message.Id()}, authorCap)
  {
    IdLessTotal();
    var ids := m.Keys + {message.Id()};
    forall id | id in ids && id.author != message.author
      ensures id in Top(IdLess, Group(AuthorOf, ids, id.author), authorCap)
    {
      assert Group(AuthorOf, ids, id.author) == Group(AuthorOf, m.Keys, id.author);
      TopSmall(IdLess, Group(AuthorOf, ids, id.author), authorCap);
    }
  }

  /** Resolving a slot keeps exactly the slot winners of the old messages and the new one. */
  lemma ResolvedWinners(m: Messages, message: SignedMessage, cap: nat, authorCap: nat)
    requires WellKeyed(m)
    ensures var r := Resolved(m, message);
      && WellKeyed(r) && r.Keys == m.Keys + {message.Id()}
      && r.Values == Room(cap, authorCap).Winners(m.Values + {message})
  {
    BytesOrder();
    var room, r, all := Room(cap, authorCap), Resolved(m, message), m.Values + {message};
    forall e | e in r.Values
      ensures e in room.Winners(all)
    {
      assert r[e.Id()] == e;
    }
    forall e | e in room.Winners(all)
      ensures e in r.Values
    {
      if e.Id() == message.Id() && e != message {
        assert e in m.Values && m[e.Id()] == e && room.slot(message) == room.slot(e);
      } else if e == message && e.Id() in m && m[e.Id()] != e {
        assert m[e.Id()] in all && room.slot(m[e.Id()]) == room.slot(e);
        assert SlotBeats(message, m[e.Id()]);
      }
      assert e.Id() in r && r[e.Id()] == e;
    }
  }

  lemma RestrictIsNormal(r: Messages, all: set<SignedMessage>, cap: nat, authorCap: nat)
    requires WellKeyed(r) && r.Values == Room(cap, authorCap).Winners(all)
    requires r.Keys == Room(cap, authorCap).Slots(all)
    ensures Restrict(r, Nested(IdLess, AuthorOf, r.Keys, cap, authorCap)).Values
         == Room(cap, authorCap).Normal(all)
  {
    var room, kept := Room(cap, authorCap), Nested(IdLess, AuthorOf, r.Keys, cap, authorCap);
    assert room.keep(room.Slots(all)) == kept;
    var n := Restrict(r, kept);
    forall e | e in n.Values
      ensures e in room.Normal(all)
    {
      assert e in r.Values && e.Id() in kept;
    }
    forall e | e in room.Normal(all)
      ensures e in n.Values
    {
      assert e in r.Values && room.slot(e) == e.Id();
      assert n[e.Id()] == e;
    }
  }

  lemma InsertedKeeps(m: Messages, message: SignedMessage, cap: nat, authorCap: nat)
    requires Buffer(m, cap, authorCap)
    ensures Inserted(m, message, cap, authorCap)
         == Restrict(Resolved(m, message), Nested(IdLess, AuthorOf, m.Keys + {message.Id()}, cap, authorCap))
  {
    OwnCapSuffices(m, message, cap, authorCap);
    assert Resolved(m, message).Keys == m.Keys + {message.Id()};
  }

  lemma OfferedSlots(m: Messages, message: SignedMessage, cap: nat, authorCap: nat)
    requires WellKeyed(m)
    ensures Room(cap, authorCap).Slots(m.Values + {message}) == m.Keys + {message.Id()}
  {
    var room := Room(cap, authorCap);
    room.SlotsOfUnion(m.Values, {message});
    SlotsAreKeys(m, cap, authorCap);
    assert room.slot(message) == message.Id();
    assert room.Slots({message}) == {message.Id()};
  }

  lemma InsertedIsNormal(m: Messages, message: SignedMessage, cap: nat, authorCap: nat)
    requires Buffer(m, cap, authorCap)
    ensures Inserted(m, message, cap, authorCap).Values == Room(cap, authorCap).Normal(m.Values + {message})
  {
    InsertedKeeps(m, message, cap, authorCap);
    ResolvedWinners(m, message, cap, authorCap);
    OfferedSlots(m, message, cap, authorCap);
    RestrictIsNormal(Resolved(m, message), m.Values + {message}, cap, authorCap);
  }

  lemma InsertedIsBuffer(m: Messages, message: SignedMessage, cap: nat, authorCap: nat)
    requires Buffer(m, cap, authorCap)
    ensures Buffer(Inserted(m, message, cap, authorCap), cap, authorCap)
  {
    hide *;
    var ids := m.Keys + {message.Id()};
    var kept := Nested(IdLess, AuthorOf, ids, cap, authorCap);
    InsertedKeeps(m, message, cap, authorCap);
    NestedCaps(ids, cap, authorCap);
    NestedWithin(ids, cap, authorCap);
    ResolvedKeyed(m, message, cap, authorCap);
    RestrictKeyed(Resolved(m, message), kept);
    BufferByKeys(Inserted(m, message, cap, authorCap), cap, authorCap);
  }

  lemma NestedWithin(ids: set<MessageId>, cap: nat, authorCap: nat)
    ensures Nested(IdLess, AuthorOf, ids, cap, authorCap) <= ids
  {
  }

  lemma ResolvedKeyed(m: Messages, message: SignedMessage, cap: nat, authorCap: nat)
    requires Buffer(m, cap, authorCap)
    ensures WellKeyed(Resolved(m, message)) && Resolved(m, message).Keys == m.Keys + {message.Id()}
  {
  }

  lemma RestrictKeyed(r: Messages, ids: set<MessageId>)
    requires WellKeyed(r) && ids <= r.Keys
    ensures WellKeyed(Restrict(r, ids)) && Restrict(r, ids).Keys == ids
  {
  }

  lemma BufferByKeys(m: Messages, cap: nat, authorCap: nat)
    requires WellKeyed(m) && |m.Keys| <= cap
    requires forall id | id in m.Keys :: |Group(AuthorOf, m.Keys, id.author)| <= authorCap
    ensures Buffer(m, cap, authorCap)
  {
    assert |m| == |m.Keys|;
  }

  /** The insertion step over everything offered so far. */
  lemma InsertStep(m: Messages, offered: set<SignedMessage>, message: SignedMessage, cap: nat, authorCap: nat)
    requires Buffer(m, cap, authorCap) && m.Values == Room(cap, authorCap).Normal(offered)
    ensures Buffer(Inserted(m, message, cap, authorCap), cap, authorCap)
    ensures Inserted(m, message, cap, authorCap).Values == Room(cap, authorCap).Normal(offered + {message})
  {
    hide *;
    InsertedIsNormal(m, message, cap, authorCap);
    InsertedIsBuffer(m, message, cap, authorCap);
    RoomAbsorbs(cap, authorCap, offered, {message});
  }

  lemma NestedCaps(ids: set<MessageId>, cap: nat, authorCap: nat)
    ensures var kept := Nested(IdLess, AuthorOf, ids, cap, authorCap);
      |kept| <= cap && forall id | id in kept :: |Group(AuthorOf, kept, id.author)| <= authorCap
  {
    IdLessTotal();
    var byAuthor := GroupTop(IdLess, AuthorOf, ids, authorCap);
    var kept := Nested(IdLess, AuthorOf, ids, cap, authorCap);
    TopSize(IdLess, byAuthor, cap);
    forall id | id in kept
      ensures |Group(AuthorOf, kept, id.author)| <= authorCap
    {
      TopSize(IdLess, Group(AuthorOf, ids, id.author), authorCap);
      SubsetSize(Group(AuthorOf, kept, id.author),
                 Top(IdLess, Group(AuthorOf, ids, id.author), authorCap));
    }
  }

  /** Evicting the author's oldest surplus ids, or the globally oldest id of an
      oversized buffer, steps towards the truncation. */
  lemma EvictedOwn(ids: set<MessageId>, author: Bytes32, authorCap: nat, excess: nat)
    requires excess == if |Group(AuthorOf, ids, author)| > authorCap then |Group(AuthorOf, ids, author)| - authorCap else 0
    ensures ids - Elems(SortedIds(Group(AuthorOf, ids, author))[..excess]) == OwnCap(ids, author, authorCap)
  {
    IdLessTotal();
    var mine := Group(AuthorOf, ids, author);
    TopDropsHead(IdLess, mine, authorCap, excess);
    assert forall x | x in Elems(SortedIds(mine)[..excess]) :: x in Elems(SortedIds(mine));
  }

  lemma EvictedFirst(ids: set<MessageId>, cap: nat)
    ensures |ids| > cap ==> Top(IdLess, ids - {FirstId(ids)}, cap) == Top(IdLess, ids, cap)
    ensures |ids| <= cap ==> Top(IdLess, ids, cap) == ids
  {
    IdLessTotal();
    if |ids| > cap {
      TopDropLeast(IdLess, ids, cap, FirstId(ids));
    } else {
      TopSmall(IdLess, ids, cap);
    }
  }

  lemma TopWithin(ids: set<MessageId>, cap: nat)
    ensures Top(IdLess, ids, cap) <= ids
  {
  }

  lemma RestrictTwice(m: Messages, ids: set<MessageId>, part: set<MessageId>)
    requires part <= ids
    ensures Restrict(Restrict(m, ids), part) == Restrict(m, part)
  {
  }
}
