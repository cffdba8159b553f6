/** The chat room core (common/src/chat.rs): inserting, merging, summarising and
    filtering a ring buffer in place. */
module Chat {
  import opened Bytes
  import opened Orders
  import opened Choice
  import opened Stores
  import opened Outcomes
  import opened ChatBuffer

  /** The ids the rate limit lets through, given the last accepted time per author. */
  function Chosen(ids: seq<MessageId>, last: map<Bytes32, u64>): seq<MessageId> {
    if ids == [] then []
    else
      var id := ids[0];
      if id.author !in last || id.ts - last[id.author] >= CHAT_MIN_MESSAGE_INTERVAL_SECS
      then [id] + Chosen(ids[1..], last[id.author := id.ts])
      else Chosen(ids[1..], last)
  }

  lemma {:induction false} ChosenFrom(ids: seq<MessageId>, last: map<Bytes32, u64>)
    ensures forall id | id in Chosen(ids, last) :: id in ids
  {
    if ids != [] {
      ChosenFrom(ids[1..], last[ids[0].author := ids[0].ts]);
      ChosenFrom(ids[1..], last);
    }
  }

  lemma ChosenStep(ids: seq<MessageId>, last: map<Bytes32, u64>)
    ensures ids == [] ==> Chosen(ids, last) == []
    ensures ids != [] ==>
      var id := ids[0];
      Chosen(ids, last) ==
        if id.author !in last || id.ts - last[id.author] >= CHAT_MIN_MESSAGE_INTERVAL_SECS
        then [id] + Chosen(ids[1..], last[id.author := id.ts])
        else Chosen(ids[1..], last)
  {
  }

  lemma NotBefore(q: seq<MessageId>, j: nat, i: nat)
    requires j < i < |q| && Ascending(IdLess, q)
    ensures q[j].ts <= q[i].ts
  {
    assert IdLess(q[j], q[i]);
  }

  /** What the display shows, in id order. */
  function Shown(m: Messages): seq<SignedMessage> {
    var order := SortedIds(m.Keys);
    ChosenFrom(order, map[]);
    assert forall id | id in order :: id in Elems(order);
    Pick(m, Chosen(order, map[]))
  }

  lemma ShownShape(m: Messages)
    ensures forall id | id in SortedIds(m.Keys) :: id in m
    ensures forall id | id in Chosen(SortedIds(m.Keys), map[]) :: id in m
    ensures Shown(m) == Pick(m, Chosen(SortedIds(m.Keys), map[]))
  {
    ChosenFrom(SortedIds(m.Keys), map[]);
    assert forall id | id in SortedIds(m.Keys) :: id in Elems(SortedIds(m.Keys));
  }

  /** (ts, seq), the order of watermarks. */
  predicate MarkLess(a: (u64, u32), b: (u64, u32)) {
    a.0 < b.0 || (a.0 == b.0 && a.1 < b.1)
  }

  function Mark(id: MessageId): (u64, u32) { (id.ts, id.seqNo) }

  /** The newest watermark of every author occurring in a set of ids. */
  ghost predicate Summarizes(s: Summary, ids: set<MessageId>) {
    && (forall id | id in ids ::
          && id.author in s
          && id.ts <= s[id.author].0 && (id.ts == s[id.author].0 ==> id.seqNo <= s[id.author].1))
    && (forall a | a in s :: exists id :: id in ids && id.author == a && (id.ts, id.seqNo) == s[a])
  }

  /** The author is unknown to the summary, or the id is later than the watermark. */
  ghost predicate Beyond(s: Summary, id: MessageId) {
    || id.author !in s
    || id.ts > s[id.author].0
    || (id.ts == s[id.author].0 && id.seqNo > s[id.author].1)
  }

  predicate Missing(s: Summary, id: MessageId) {
    id.author !in s || MarkLess(s[id.author], Mark(id))
  }

  ghost function MissingFrom(s: Summary, m: Messages): set<SignedMessage> {
    set id | id in m && Beyond(s, id) :: m[id]
  }

  lemma SummarizeStep(s: Summary, q: seq<MessageId>, i: nat)
    requires i < |q| && Ascending(IdLess, q) && Summarizes(s, Elems(q[..i]))
    ensures Summarizes(s[q[i].author := Mark(q[i])], Elems(q[..i + 1]))
  {
    hide *;
    ElemsTake(q, i);
    forall x | x in Elems(q[..i]) && x.author == q[i].author
      ensures !MarkLess(Mark(q[i]), Mark(x))
    {
      EarlierMark(q, i, x);
    }
    MarkRaised(s, Elems(q[..i]), q[i]);
  }

  lemma EarlierMark(q: seq<MessageId>, i: nat, x: MessageId)
    requires i < |q| && Ascending(IdLess, q) && x in Elems(q[..i]) && x.author == q[i].author
    ensures !MarkLess(Mark(q[i]), Mark(x))
  {
    BytesOrder();
    assert IdLess(x, q[i]);
  }

  lemma MarkRaised(s: Summary, ids: set<MessageId>, id: MessageId)
    requires Summarizes(s, ids)
    requires forall x | x in ids && x.author == id.author :: !MarkLess(Mark(id), Mark(x))
    ensures Summarizes(s[id.author := Mark(id)], ids + {id})
  {
    var t := s[id.author := Mark(id)];
    forall a | a in t
      ensures exists x :: x in ids + {id} && x.author == a && Mark(x) == t[a]
    {
      if a == id.author {
        assert id in ids + {id};
      } else {
        var x :| x in ids && x.author == a && Mark(x) == s[a];
        assert x in ids + {id};
      }
    }
    assert !MarkLess(Mark(id), Mark(id)) by { NoMarkBelowItself(Mark(id)); }
  }

  lemma NoMarkBelowItself(a: (u64, u32))
    ensures !MarkLess(a, a)
  {
  }

  ghost function MissingAmong(s: Summary, m: Messages, ids: set<MessageId>): set<SignedMessage> {
    set id | id in ids && id in m && Missing(s, id) :: m[id]
  }

  lemma MissingStep(s: Summary, m: Messages, q: seq<MessageId>, i: nat)
    requires i < |q| && q[i] in m
    ensures MissingAmong(s, m, Elems(q[..i + 1]))
         == MissingAmong(s, m, Elems(q[..i])) + if Missing(s, q[i]) then {m[q[i]]} else {}
  {
    ElemsTake(q, i);
  }

  lemma MissingAll(s: Summary, m: Messages)
    ensures MissingAmong(s, m, {}) == {} && MissingAmong(s, m, m.Keys) == MissingFrom(s, m)
  {
  }

  lemma SentExactly(s: Summary, m: Messages)
    ensures forall id | id in m && Beyond(s, id) :: m[id] in MissingFrom(s, m)
    ensures forall x | x in MissingFrom(s, m) :: exists id :: id in m && m[id] == x && Beyond(s, id)
  {
    hide Beyond;
  }

  class ChatState {
    var messages: Messages

    constructor ()
      ensures messages == map[]
    {
      messages := map[];
    }

    method InsertBounded(message: SignedMessage, cap: nat, authorCap: nat)
      modifies this
      ensures messages == Inserted(old(messages), message, cap, authorCap)
      ensures Buffer(old(messages), cap, authorCap) ==>
        && Buffer(messages, cap, authorCap)
        && messages.Values == Room(cap, authorCap).Normal(old(messages).Values + {message})
    {
      hide *;
      var id := message.Id();
      ghost var before := messages;
      InsertedShape(before, message, cap, authorCap);
      if id in messages {
        if SlotBeats(message, messages[id]) {
          messages := messages[id := message];
        }
      } else {
        messages := messages[id := message];
      }
      ghost var resolved := messages;
      ghost var own := OwnCap(resolved.Keys, id.author, authorCap);
      EvictAuthor(id.author, authorCap);
      RestrictKeys(resolved, own);
      EvictOldest(cap);
      TopWithin(own, cap);
      RestrictTwice(resolved, own, Top(IdLess, own, cap));
      if Buffer(before, cap, authorCap) {
        InsertedIsNormal(before, message, cap, authorCap);
        InsertedIsBuffer(before, message, cap, authorCap);
      }
    }

    /** The author's surplus, oldest first. */
    method EvictAuthor(author: Bytes32, authorCap: nat)
      modifies this
      ensures messages == Restrict(old(messages), OwnCap(old(messages).Keys, author, authorCap))
    {
      hide *;
      ghost var before := messages;
      var mine := set other | other in messages.Keys && other.author == author;
      GroupOfAuthor(messages.Keys, author);
      var authorIds := SortedIds(mine);
      var excess := if |authorIds| > authorCap then |authorIds| - authorCap else 0;
      ElemsAll(authorIds);
      RestrictKeys(before, before.Keys);
      for i := 0 to excess
        invariant messages == Restrict(before, before.Keys - Elems(authorIds[..i]))
      {
        ElemsTake(authorIds, i);
        RestrictDrop(before, before.Keys - Elems(authorIds[..i]), authorIds[i]);
        messages := messages - {authorIds[i]};
        MinusOne(before.Keys, Elems(authorIds[..i]), authorIds[i]);
      }
      EvictedOwn(before.Keys, author, authorCap, excess);
    }

    /** pop_first until the buffer fits. */
    method EvictOldest(cap: nat)
      modifies this
      ensures messages == Restrict(old(messages), Top(IdLess, old(messages).Keys, cap))
    {
      hide *;
      ghost var before := messages;
      RestrictKeys(before, before.Keys);
      while |messages| > cap
        invariant messages.Keys <= before.Keys && messages == Restrict(before, messages.Keys)
        invariant Top(IdLess, messages.Keys, cap) == Top(IdLess, before.Keys, cap)
      {
        assert |messages| == |messages.Keys|;
        var oldest := FirstId(messages.Keys);
        EvictedFirst(messages.Keys, cap);
        RestrictDrop(before, messages.Keys, oldest);
        messages := messages - {oldest};
      }
      assert |messages| == |messages.Keys|;
      EvictedFirst(messages.Keys, cap);
    }

    method Insert(message: SignedMessage)
      modifies this
      ensures messages == Inserted(old(messages), message, CHAT_MESSAGE_CAP, CHAT_MAX_MESSAGES_PER_AUTHOR)
      ensures Buffer(old(messages), CHAT_MESSAGE_CAP, CHAT_MAX_MESSAGES_PER_AUTHOR) ==>
        && Buffer(messages, CHAT_MESSAGE_CAP, CHAT_MAX_MESSAGES_PER_AUTHOR)
        && messages.Values == Room(CHAT_MESSAGE_CAP, CHAT_MAX_MESSAGES_PER_AUTHOR).Normal(old(messages).Values + {message})
      ensures Buffer(old(messages), 500, 32) ==>
        && Buffer(messages, 500, 32)
        && messages.Values == Room(500, 32).Normal(old(messages).Values + {message})
    {
      InsertBounded(message, CHAT_MESSAGE_CAP, CHAT_MAX_MESSAGES_PER_AUTHOR);
    }

    /** The other state may be mis-keyed or over the caps: only its values matter. */
    method MergeBounded(other: ChatState, cap: nat, authorCap: nat)
      requires other != this
      modifies this
      ensures Buffer(old(messages), cap, authorCap) ==>
        && Buffer(messages, cap, authorCap)
        && messages.Values == Room(cap, authorCap).Normal(old(messages).Values + other.messages.Values)
    {
      hide *;
      var values := ValuesInOrder(other.messages);
      ghost var pre, start := Buffer(messages, cap, authorCap), messages.Values;
      ElemsAll(values);
      if pre { BufferIsNormal(messages, cap, authorCap); }
      assert start + {} == start;
      var i := 0;
      while i < |values|
        invariant 0 <= i <= |values|
        invariant pre ==> Buffer(messages, cap, authorCap)
        invariant pre ==> messages.Values == Room(cap, authorCap).Normal(start + Elems(values[..i]))
      {
        ElemsTake(values, i);
        RoomAbsorbs(cap, authorCap, start + Elems(values[..i]), {values[i]});
        assert start + Elems(values[..i]) + {values[i]} == start + Elems(values[..i + 1]);
        InsertBounded(values[i], cap, authorCap);
        i := i + 1;
      }
    }

    method Merge(other: ChatState)
      requires other != this
      modifies this
      ensures Buffer(old(messages), CHAT_MESSAGE_CAP, CHAT_MAX_MESSAGES_PER_AUTHOR) ==>
        && Buffer(messages, CHAT_MESSAGE_CAP, CHAT_MAX_MESSAGES_PER_AUTHOR)
        && messages.Values == Room(CHAT_MESSAGE_CAP, CHAT_MAX_MESSAGES_PER_AUTHOR).Normal(old(messages).Values + other.messages.Values)
      ensures Buffer(old(messages), 500, 32) ==>
        && Buffer(messages, 500, 32)
        && messages.Values == Room(500, 32).Normal(old(messages).Values + other.messages.Values)
    {
      MergeBounded(other, CHAT_MESSAGE_CAP, CHAT_MAX_MESSAGES_PER_AUTHOR);
    }

    method Summarize() returns (summary: Summary)
      ensures Summarizes(summary, messages.Keys)
    {
      var order := SortedIds(messages.Keys);
      ElemsAll(order);
      summary := map[];
      var i := 0;
      while i < |order|
        invariant 0 <= i <= |order|
        invariant Summarizes(summary, Elems(order[..i]))
      {
        SummarizeStep(summary, order, i);
        summary := summary[order[i].author := (order[i].ts, order[i].seqNo)];
        i := i + 1;
      }
    }

    /** None means converged. */
    method Delta(summary: Summary) returns (delta: Option<seq<SignedMessage>>)
      ensures delta == None <==> MissingFrom(summary, messages) == {}
      ensures delta.Some? ==> Elems(delta.value) == MissingFrom(summary, messages)
      ensures forall id | id in messages && Beyond(summary, id) :: delta.Some? && messages[id] in delta.value
      ensures delta.Some? ==>
        && delta.value != []
        && forall m | m in delta.value :: exists id :: id in messages && messages[id] == m && Beyond(summary, id)
    {
      hide *;
      SentExactly(summary, messages);
      var order := SortedIds(messages.Keys);
      ElemsAll(order);
      ShownShape(messages);
      MissingAll(summary, messages);
      var found: seq<SignedMessage> := [];
      ElemsNone(found);
      var i := 0;
      while i < |order|
        invariant 0 <= i <= |order|
        invariant Elems(found) == MissingAmong(summary, messages, Elems(order[..i]))
      {
        MissingStep(summary, messages, order, i);
        if Missing(summary, order[i]) {
          ElemsSnoc(found, messages[order[i]]);
          found := found + [messages[order[i]]];
        }
        i := i + 1;
      }
      ElemsNone(found);
      ElemsAre(found);
      delta := if found == [] then None else Some(found);
    }

    method ApplyDelta(delta: seq<SignedMessage>)
      modifies this
      ensures Buffer(old(messages), CHAT_MESSAGE_CAP, CHAT_MAX_MESSAGES_PER_AUTHOR) ==>
        && Buffer(messages, CHAT_MESSAGE_CAP, CHAT_MAX_MESSAGES_PER_AUTHOR)
        && messages.Values == Room(CHAT_MESSAGE_CAP, CHAT_MAX_MESSAGES_PER_AUTHOR).Normal(old(messages).Values + Elems(delta))
    {
      hide *;
      ghost var cap, authorCap := CHAT_MESSAGE_CAP, CHAT_MAX_MESSAGES_PER_AUTHOR;
      ghost var pre, start := Buffer(messages, cap, authorCap), messages.Values;
      ElemsAll(delta);
      if pre { BufferIsNormal(messages, cap, authorCap); }
      assert start + {} == start;
      var i := 0;
      while i < |delta|
        invariant 0 <= i <= |delta|
        invariant pre ==> Buffer(messages, cap, authorCap)
        invariant pre ==> messages.Values == Room(cap, authorCap).Normal(start + Elems(delta[..i]))
      {
        ElemsTake(delta, i);
        RoomAbsorbs(cap, authorCap, start + Elems(delta[..i]), {delta[i]});
        assert start + Elems(delta[..i]) + {delta[i]} == start + Elems(delta[..i + 1]);
        Insert(delta[i]);
        i := i + 1;
      }
    }

    /** Display order. The u64 subtraction never underflows: ids ascend by time. */
    method ValidMessages() returns (valid: seq<SignedMessage>)
      ensures valid == Shown(messages)
    {
      hide *;
      var order := SortedIds(messages.Keys);
      ShownShape(messages);
      ghost var all := Chosen(order, map[]);
      var lastAccepted: map<Bytes32, u64> := map[];
      valid := [];
      ghost var ids: seq<MessageId> := [];
      DropNothing(order);
      var i := 0;
      while i < |order|
        invariant 0 <= i <= |order|
        invariant forall a | a in lastAccepted :: exists j :: 0 <= j < i && order[j].ts == lastAccepted[a]
        invariant ids + Chosen(order[i..], lastAccepted) == all
        invariant forall id | id in ids :: id in messages
        invariant valid == Pick(messages, ids)
      {
        var id := order[i];
        if id.author in lastAccepted {
          ghost var j :| 0 <= j < i && order[j].ts == lastAccepted[id.author];
          NotBefore(order, j, i);
        }
        DropHead(order, i);
        ChosenStep(order[i..], lastAccepted);
        var ok := true;
        if id.author in lastAccepted {
          var elapsed: u64 := id.ts - lastAccepted[id.author];
          ok := elapsed >= CHAT_MIN_MESSAGE_INTERVAL_SECS;
        }
        if ok {
          valid := valid + [messages[id]];
          lastAccepted := lastAccepted[id.author := id.ts];
          Regroup(ids, id, Chosen(order[i + 1..], lastAccepted));
          ids := ids + [id];
        }
        i := i + 1;
      }
      ChosenStep(order[|order|..], lastAccepted);
    }
  }
}
