/** The client's chat store (web/src/state.ts, ChatStateJs): the ring buffer again, over
    string keys that are re-sorted at every eviction. It simulates the Rust buffer step by
    step for timestamps up to 2^53 - 1. */
module ChatMirror {
  import opened Bytes
  import opened Orders
  import opened Choice
  import opened ChatBuffer
  import opened Chat
  import opened TextKeys
  import opened ChatLaws

  type JsMessages = map<string, SignedMessage>

  ghost predicate Safe(m: SignedMessage) { m.ts <= MAX_SAFE_INTEGER }

  ghost predicate SafeIds(ids: set<MessageId>) {
    forall id | id in ids :: id.ts <= MAX_SAFE_INTEGER
  }

  /** Every message is safe and filed under its own key. */
  ghost predicate JsKeyed(js: JsMessages) {
    forall k | k in js :: Safe(js[k]) && IdKey(js[k].Id()) == k
  }

  /** The client store and the Rust buffer hold the same messages under matching keys. */
  ghost predicate Mirrors(js: JsMessages, r: Messages) {
    && WellKeyed(r) && SafeIds(r.Keys)
    && (forall id | id in r :: IdKey(id) in js && js[IdKey(id)] == r[id])
    && (forall k | k in js :: js[k].Id() in r && IdKey(js[k].Id()) == k)
  }

  ghost function IdsIn(js: JsMessages): set<MessageId> {
    set k | k in js :: js[k].Id()
  }

  lemma IdsFound(js: JsMessages)
    requires JsKeyed(js)
    ensures forall id | id in IdsIn(js) :: id.ts <= MAX_SAFE_INTEGER && IdKey(id) in js && js[IdKey(id)].Id() == id
  {
  }

  /** The Rust buffer a client store stands for. */
  ghost function AsRust(js: JsMessages): Messages
    requires JsKeyed(js)
  {
    IdsFound(js);
    map id | id in IdsIn(js) :: js[IdKey(id)]
  }

  lemma AsRustMirrors(js: JsMessages)
    requires JsKeyed(js)
    ensures Mirrors(js, AsRust(js))
  {
    hide IdKey;
    IdsFound(js);
    forall k | k in js
      ensures js[k].Id() in AsRust(js)
    {
      assert js[k].Id() in IdsIn(js);
    }
  }

  lemma MirrorsUnique(js: JsMessages, r: Messages)
    requires Mirrors(js, r)
    ensures JsKeyed(js) && AsRust(js) == r
  {
    hide IdKey;
    forall k | k in js
      ensures Safe(js[k])
    {
      assert js[k].Id() in r.Keys;
    }
    forall id | id in r
      ensures id in AsRust(js)
    {
      assert js[IdKey(id)].Id() == id;
    }
  }

  lemma MirrorKeys(js: JsMessages, r: Messages)
    requires Mirrors(js, r)
    ensures js.Keys == Image(IdKey, r.Keys)
  {
    hide IdKey;
    forall k | k in js
      ensures k in Image(IdKey, r.Keys)
    {
      assert js[k].Id() in r.Keys && IdKey(js[k].Id()) == k;
    }
  }

  lemma KeysEmbed(ids: set<MessageId>)
    requires SafeIds(ids)
    ensures Embeds(IdLess, StringLess, IdKey, ids)
  {
    hide IdKey, StringLess, IdLess;
    forall x, y | x in ids && y in ids
      ensures StringLess(IdKey(x), IdKey(y)) <==> IdLess(x, y)
      ensures IdKey(x) == IdKey(y) ==> x == y
    {
      KeyOrder(x, y);
    }
  }

  /** messageSlotBeats: greater (signature, content), by compareBytes. */
  method MessageSlotBeats(challenger: SignedMessage, incumbent: SignedMessage) returns (beats: bool)
    ensures beats == SlotBeats(challenger, incumbent)
  {
    var cmp := CompareBytes(challenger.signature, incumbent.signature);
    BytesOrder();
    if cmp == 0 {
      cmp := CompareBytes(challenger.content, incumbent.content);
    }
    beats := cmp > 0;
  }

  function SortedStrings(keys: set<string>): (q: seq<string>)
    ensures Elems(q) == keys && |q| == |keys| && Ascending(StringLess, q)
  {
    StringLessTotal();
    Sorted(StringLess, keys)
  }

  ghost function JsRestrict(js: JsMessages, keys: set<string>): JsMessages {
    map k | k in js && k in keys :: js[k]
  }

  lemma JsRestrictFacts(js: JsMessages, keys: set<string>, k: string)
    ensures JsRestrict(js, js.Keys) == js
    ensures JsRestrict(js, keys) - {k} == JsRestrict(js, keys - {k})
    ensures keys <= js.Keys ==> JsRestrict(js, keys).Keys == keys && |JsRestrict(js, keys)| == |keys|
  {
    if keys <= js.Keys {
      assert JsRestrict(js, keys).Keys == keys;
      assert |JsRestrict(js, keys)| == |JsRestrict(js, keys).Keys|;
    }
  }

  /** Storing the slot winner under its key is Rust's slot resolution. */
  lemma ResolveMirror(js: JsMessages, r: Messages, message: SignedMessage)
    requires Mirrors(js, r) && Safe(message)
    ensures var k := MessageIdKey(message);
      Mirrors(if k !in js || SlotBeats(message, js[k]) then js[k := message] else js, Resolved(r, message))
  {
    hide IdKey, SlotBeats;
    forall other: MessageId | other.ts <= MAX_SAFE_INTEGER
      ensures IdKey(other) == IdKey(message.Id()) ==> other == message.Id()
    {
      KeyOrder(other, message.Id());
    }
    assert IdKey(message.Id()) in js <==> message.Id() in r;
  }

  /** The keys whose middle part is the author's hex. */
  function Mine(js: JsMessages, author: string): set<string> {
    set k | k in js.Keys && |Split(k, ':')| >= 2 && Split(k, ':')[1] == author
  }

  ghost predicate HasAuthor(k: string, author: Bytes32) {
    |Split(k, ':')| >= 2 && Split(k, ':')[1] == Hex(author)
  }

  lemma KeyHasAuthor(id: MessageId, author: Bytes32)
    requires id.ts <= MAX_SAFE_INTEGER
    ensures HasAuthor(IdKey(id), author) <==> id.author == author
  {
    KeyAuthor(id);
    HexOrder(id.author, author);
  }

  /** The author filter on the middle part of the key finds exactly the author's ids. */
  lemma MineMirror(js: JsMessages, r: Messages, author: Bytes32)
    requires Mirrors(js, r)
    ensures Mine(js, Hex(author)) == Image(IdKey, Group(AuthorOf, r.Keys, author))
  {
    hide IdKey, Hex, Split;
    MirrorKeys(js, r);
    forall id | id in r.Keys
      ensures HasAuthor(IdKey(id), author) <==> id.author == author
    {
      KeyHasAuthor(id, author);
    }
    forall k | k in js.Keys
      ensures HasAuthor(k, author) <==> k in Image(IdKey, Group(AuthorOf, r.Keys, author))
    {
      if HasAuthor(k, author) {
        var id :| id in r.Keys && IdKey(id) == k;
        assert id in Group(AuthorOf, r.Keys, author);
      }
    }
  }

  /** Deleting the head of an author's sorted keys keeps the images of its newest ids. */
  lemma HeadDropped(ids: set<MessageId>, cap: nat, excess: nat)
    requires SafeIds(ids)
    requires excess == if |Image(IdKey, ids)| > cap then |Image(IdKey, ids)| - cap else 0
    ensures Image(IdKey, ids) - Elems(SortedStrings(Image(IdKey, ids))[..excess])
         == Image(IdKey, Top(IdLess, ids, cap))
    ensures Elems(SortedStrings(Image(IdKey, ids))[..excess]) <= Image(IdKey, ids)
  {
    hide IdKey, StringLess, IdLess, Top, Image;
    StringLessTotal();
    TopDropsHead(StringLess, Image(IdKey, ids), cap, excess);
    KeysEmbed(ids);
    TopImage(IdLess, StringLess, IdKey, ids, cap);
    var sorted := SortedStrings(Image(IdKey, ids));
    assert forall x | x in Elems(sorted[..excess]) :: x in Elems(sorted);
  }

  /** So deleting it from the whole store is Rust's per-author truncation. */
  lemma EvictMirror(ids: set<MessageId>, author: Bytes32, cap: nat, excess: nat)
    requires SafeIds(ids)
    requires var mine := Image(IdKey, Group(AuthorOf, ids, author));
      excess == if |mine| > cap then |mine| - cap else 0
    ensures Image(IdKey, ids) - Elems(SortedStrings(Image(IdKey, Group(AuthorOf, ids, author)))[..excess])
         == Image(IdKey, OwnCap(ids, author, cap))
  {
    hide IdKey, StringLess, IdLess, Top;
    var group := Group(AuthorOf, ids, author);
    HeadDropped(group, cap, excess);
    TopWithin(group, cap);
    ImageSplit(ids, group, Top(IdLess, group, cap));
    assert OwnCap(ids, author, cap) == (ids - group) + Top(IdLess, group, cap);
  }

  /** Images under the injective key: replacing a part by some of its members. */
  lemma ImageSplit(ids: set<MessageId>, part: set<MessageId>, kept: set<MessageId>)
    requires SafeIds(ids) && kept <= part <= ids
    ensures forall gone: set<string> | gone <= Image(IdKey, part) && Image(IdKey, part) - gone == Image(IdKey, kept) ::
      Image(IdKey, ids) - gone == Image(IdKey, (ids - part) + kept)
  {
    hide IdKey, StringLess, IdLess;
    KeysEmbed(ids);
    assert Image(IdKey, (ids - part) + kept) == Image(IdKey, ids - part) + Image(IdKey, kept);
    assert Image(IdKey, ids) == Image(IdKey, ids - part) + Image(IdKey, part);
    assert Image(IdKey, ids - part) !! Image(IdKey, part);
  }

  /** A store restricted to the keys of some ids mirrors the buffer restricted to them. */
  lemma RestrictMirror(js: JsMessages, r: Messages, ids: set<MessageId>)
    requires Mirrors(js, r) && ids <= r.Keys
    ensures Mirrors(JsRestrict(js, Image(IdKey, ids)), Restrict(r, ids))
  {
    hide IdKey, StringLess, IdLess;
    KeysEmbed(r.Keys);
    forall k | k in js && k in Image(IdKey, ids)
      ensures js[k].Id() in ids
    {
      var id :| id in ids && IdKey(id) == k;
      assert js[k].Id() in r.Keys;
    }
  }

  class ChatStateJs {
    var messages: JsMessages

    constructor ()
      ensures messages == map[]
    {
      messages := map[];
    }

    method Insert(message: SignedMessage)
      modifies this
      ensures JsKeyed(old(messages)) && Safe(message) ==>
        && JsKeyed(messages)
        && AsRust(messages) == Inserted(AsRust(old(messages)), message, CHAT_MESSAGE_CAP, CHAT_MAX_MESSAGES_PER_AUTHOR)
    {
      hide *;
      ghost var pre := JsKeyed(messages) && Safe(message);
      ghost var before: Messages := if pre then AsRust(messages) else map[];
      var key := MessageIdKey(message);
      var beats := true;
      if key in messages {
        beats := MessageSlotBeats(message, messages[key]);
      }
      if beats {
        messages := messages[key := message];
      }
      if pre {
        AsRustMirrors(old(messages));
        ResolveMirror(old(messages), before, message);
      }
      ghost var resolved := messages;
      EvictAuthor(message.author);
      ghost var evicted := messages;
      TrimToCap();
      if pre {
        FinishMirror(before, message, resolved, evicted, messages);
        MirrorsUnique(messages, Inserted(before, message, CHAT_MESSAGE_CAP, CHAT_MAX_MESSAGES_PER_AUTHOR));
      }
    }

    /** Delete the head of the author's sorted keys. */
    method EvictAuthor(id: Bytes32)
      modifies this
      ensures messages == JsRestrict(old(messages), old(messages).Keys - Surplus(old(messages), id))
    {
      hide *;
      ghost var js := messages;
      var author := Hex(id);
      var mine := Mine(messages, author);
      SurplusShape(js, id);
      var sorted := SortedStrings(mine);
      ElemsAll(sorted);
      var excess := if |sorted| > CHAT_MAX_MESSAGES_PER_AUTHOR then |sorted| - CHAT_MAX_MESSAGES_PER_AUTHOR else 0;
      JsRestrictFacts(js, {}, "");
      assert js.Keys - {} == js.Keys;
      var i := 0;
      while i < excess
        invariant 0 <= i <= excess
        invariant messages == JsRestrict(js, js.Keys - Elems(sorted[..i]))
      {
        ElemsTake(sorted, i);
        JsRestrictFacts(js, js.Keys - Elems(sorted[..i]), sorted[i]);
        messages := messages - {sorted[i]};
        MinusOne(js.Keys, Elems(sorted[..i]), sorted[i]);
        i := i + 1;
      }
    }

    /** Delete the least key, re-sorting every time, until the cap is met. */
    method TrimToCap()
      modifies this
      ensures messages == JsRestrict(old(messages), Top(StringLess, old(messages).Keys, CHAT_MESSAGE_CAP))
    {
      hide *;
      ghost var js, kept := messages, messages.Keys;
      JsRestrictFacts(js, kept, "");
      while |messages| > CHAT_MESSAGE_CAP
        invariant kept <= js.Keys && messages == JsRestrict(js, kept)
        invariant Top(StringLess, kept, CHAT_MESSAGE_CAP) == Top(StringLess, js.Keys, CHAT_MESSAGE_CAP)
        decreases |messages|
      {
        JsRestrictFacts(js, kept, "");
        var keys := SortedStrings(messages.Keys);
        var oldest := keys[0];
        FirstString(keys, messages.Keys);
        DropFirst(kept, oldest);
        JsRestrictFacts(js, kept, oldest);
        messages := messages - {oldest};
        kept := kept - {oldest};
        JsRestrictFacts(js, kept, "");
      }
      JsRestrictFacts(js, kept, "");
      AllKept(kept);
    }

    method ApplyDelta(delta: seq<SignedMessage>)
      modifies this
      ensures JsKeyed(old(messages)) && (forall m | m in delta :: Safe(m)) ==>
        && JsKeyed(messages)
        && AsRust(messages) == InsertedAll(AsRust(old(messages)), delta, CHAT_MESSAGE_CAP, CHAT_MAX_MESSAGES_PER_AUTHOR)
    {
      hide *;
      ghost var pre := JsKeyed(messages) && forall m | m in delta :: Safe(m);
      ghost var start := if pre then AsRust(messages) else map[];
      InsertedAllStep(start, [], CHAT_MESSAGE_CAP, CHAT_MAX_MESSAGES_PER_AUTHOR);
      assert delta[..0] == [] && delta[..|delta|] == delta;
      var i := 0;
      while i < |delta|
        invariant 0 <= i <= |delta|
        invariant pre ==> JsKeyed(messages)
        invariant pre ==>
          AsRust(messages) == InsertedAll(start, delta[..i], CHAT_MESSAGE_CAP, CHAT_MAX_MESSAGES_PER_AUTHOR)
      {
        InsertedAllStep(start, delta[..i + 1], CHAT_MESSAGE_CAP, CHAT_MAX_MESSAGES_PER_AUTHOR);
        assert delta[..i + 1][..i] == delta[..i];
        Insert(delta[i]);
        i := i + 1;
      }
    }

    method ValidMessages() returns (accepted: seq<SignedMessage>)
      ensures JsKeyed(messages) ==> accepted == Shown(AsRust(messages))
    {
      hide *;
      ghost var pre := JsKeyed(messages);
      var keys := SortedStrings(messages.Keys);
      ElemsAll(keys);
      ghost var rust: Messages := if pre then AsRust(messages) else map[];
      ghost var order := SortedIds(rust.Keys);
      if pre {
        AsRustMirrors(messages);
        SortedMirror(messages, rust);
        ShownShape(rust);
      }
      ghost var all := Chosen(order, map[]);
      var lastAccepted: map<string, u64> := map[];
      accepted := [];
      ghost var last: map<Bytes32, u64> := map[];
      ghost var ids: seq<MessageId> := [];
      NoLast();
      DropNothing(order);
      var i := 0;
      while i < |keys|
        invariant 0 <= i <= |keys|
        invariant pre ==> SameLast(lastAccepted, last)
        invariant pre ==> ids + Chosen(order[i..], last) == all
        invariant pre ==> forall id | id in ids :: id in rust
        invariant pre ==> accepted == Pick(rust, ids)
      {
        InElems(keys, i);
        var message := messages[keys[i]];
        var author := Hex(message.author);
        if pre {
          assert message.Id() == order[i] && order[i] in rust && rust[order[i]] == message;
          IdShape(message);
          SameLastAt(lastAccepted, last, message.author);
          ChosenStep(order[i..], last);
          DropHead(order, i);
        }
        if author !in lastAccepted || message.ts - lastAccepted[author] >= CHAT_MIN_MESSAGE_INTERVAL_SECS {
          if pre { SameLastUpdate(lastAccepted, last, message.author, message.ts); }
          accepted := accepted + [message];
          lastAccepted := lastAccepted[author := message.ts];
          last := last[message.author := message.ts];
          if pre {
            Regroup(ids, order[i], Chosen(order[i + 1..], last));
            ids := ids + [order[i]];
          }
        }
        i := i + 1;
      }
      if pre { ChosenStep(order[|order|..], last); }
    }
  }

  lemma InElems<T>(q: seq<T>, i: nat)
    requires i < |q|
    ensures q[i] in Elems(q)
  {
  }

  lemma IdShape(m: SignedMessage)
    ensures m.Id().ts == m.ts && m.Id().author == m.author
  {
  }

  lemma FirstString(keys: seq<string>, s: set<string>)
    requires Ascending(StringLess, keys) && Elems(keys) == s && keys != []
    ensures keys[0] in s && forall y | y in s && y != keys[0] :: StringLess(keys[0], y)
  {
    forall y | y in s && y != keys[0]
      ensures StringLess(keys[0], y)
    {
      var i :| 0 <= i < |keys| && keys[i] == y;
    }
  }

  lemma DropFirst(kept: set<string>, oldest: string)
    requires |kept| > CHAT_MESSAGE_CAP && oldest in kept
    requires forall y | y in kept && y != oldest :: StringLess(oldest, y)
    ensures Top(StringLess, kept - {oldest}, CHAT_MESSAGE_CAP) == Top(StringLess, kept, CHAT_MESSAGE_CAP)
  {
    hide StringLess;
    StringLessTotal();
    TopDropLeast(StringLess, kept, CHAT_MESSAGE_CAP, oldest);
  }

  lemma AllKept(kept: set<string>)
    ensures |kept| <= CHAT_MESSAGE_CAP ==> Top(StringLess, kept, CHAT_MESSAGE_CAP) == kept
  {
    hide StringLess;
    StringLessTotal();
    if |kept| <= CHAT_MESSAGE_CAP { TopSmall(StringLess, kept, CHAT_MESSAGE_CAP); }
  }

  ghost function Excess(n: nat): nat {
    if n > CHAT_MAX_MESSAGES_PER_AUTHOR then n - CHAT_MAX_MESSAGES_PER_AUTHOR else 0
  }

  /** The author's oldest keys beyond its cap. */
  ghost function Surplus(js: JsMessages, author: Bytes32): set<string> {
    Elems(SortedStrings(Mine(js, Hex(author)))[..Excess(|Mine(js, Hex(author))|)])
  }

  lemma SurplusShape(js: JsMessages, author: Bytes32)
    ensures var sorted := SortedStrings(Mine(js, Hex(author)));
      var excess := if |sorted| > CHAT_MAX_MESSAGES_PER_AUTHOR then |sorted| - CHAT_MAX_MESSAGES_PER_AUTHOR else 0;
      excess <= |sorted| && Surplus(js, author) == Elems(sorted[..excess])
  {
    hide Mine, Hex;
  }

  /** The client's per-author eviction mirrors Rust's. */
  lemma EvictedMirror(js: JsMessages, r: Messages, author: Bytes32)
    requires Mirrors(js, r)
    ensures js.Keys - Surplus(js, author) == Image(IdKey, OwnCap(r.Keys, author, CHAT_MAX_MESSAGES_PER_AUTHOR))
  {
    hide IdKey, Hex, Mine, Mirrors, OwnCap, StringLess, Image;
    MirrorSafe(js, r);
    MirrorKeys(js, r);
    MineMirror(js, r, author);
    EvictMirror(r.Keys, author, CHAT_MAX_MESSAGES_PER_AUTHOR, Excess(|Mine(js, Hex(author))|));
  }

  lemma FinishMirror(
      before: Messages, message: SignedMessage, resolved: JsMessages, evicted: JsMessages, trimmed: JsMessages)
    requires Mirrors(resolved, Resolved(before, message))
    requires evicted == JsRestrict(resolved, resolved.Keys - Surplus(resolved, message.author))
    requires trimmed == JsRestrict(evicted, Top(StringLess, evicted.Keys, CHAT_MESSAGE_CAP))
    ensures Mirrors(trimmed, Inserted(before, message, CHAT_MESSAGE_CAP, CHAT_MAX_MESSAGES_PER_AUTHOR))
  {
    hide *;
    var r := Resolved(before, message);
    var own := OwnCap(r.Keys, message.author, CHAT_MAX_MESSAGES_PER_AUTHOR);
    var top := Top(IdLess, own, CHAT_MESSAGE_CAP);
    EvictedMirror(resolved, r, message.author);
    InsertedShape(before, message, CHAT_MESSAGE_CAP, CHAT_MAX_MESSAGES_PER_AUTHOR);
    RestrictMirror(resolved, r, own);
    RestrictKeys(r, own);
    MirrorKeys(evicted, Restrict(r, own));
    MirrorSafe(evicted, Restrict(r, own));
    KeysEmbed(own);
    TopImage(IdLess, StringLess, IdKey, own, CHAT_MESSAGE_CAP);
    TopWithin(own, CHAT_MESSAGE_CAP);
    RestrictMirror(evicted, Restrict(r, own), top);
    RestrictTwice(r, own, top);
  }

  lemma MirrorSafe(js: JsMessages, r: Messages)
    requires Mirrors(js, r)
    ensures SafeIds(r.Keys)
  {
  }

  /** Sorting the images of ids as strings lists them in id order. */
  lemma SortedImage(ids: set<MessageId>)
    requires SafeIds(ids)
    ensures |SortedStrings(Image(IdKey, ids))| == |ids|
    ensures forall i | 0 <= i < |ids| :: SortedStrings(Image(IdKey, ids))[i] == IdKey(SortedIds(ids)[i])
  {
    hide *;
    var order := SortedIds(ids);
    var image := seq(|order|, i requires 0 <= i < |order| => IdKey(order[i]));
    ImageAscends(ids, order, image);
    ImageListed(ids, order, image);
    StringAsymmetric();
    AscendingUnique(StringLess, image, SortedStrings(Image(IdKey, ids)));
  }

  lemma StringAsymmetric()
    ensures forall x, y :: !(StringLess(x, y) && StringLess(y, x))
  {
    hide StringLess;
    StringLessTotal();
    assert forall x, y | StringLess(x, y) && StringLess(y, x) :: StringLess(x, x);
  }

  lemma ImageAscends(ids: set<MessageId>, order: seq<MessageId>, image: seq<string>)
    requires SafeIds(ids) && Elems(order) == ids && Ascending(IdLess, order)
    requires |image| == |order| && forall i | 0 <= i < |order| :: image[i] == IdKey(order[i])
    ensures Ascending(StringLess, image)
  {
    hide IdKey, StringLess, IdLess;
    forall i, j | 0 <= i < j < |image|
      ensures StringLess(image[i], image[j])
    {
      assert order[i] in Elems(order) && order[j] in Elems(order);
      KeyOrder(order[i], order[j]);
      assert IdLess(order[i], order[j]);
    }
  }

  lemma ImageListed(ids: set<MessageId>, order: seq<MessageId>, image: seq<string>)
    requires Elems(order) == ids && |image| == |order| && forall i | 0 <= i < |order| :: image[i] == IdKey(order[i])
    ensures forall k :: k in image <==> k in SortedStrings(Image(IdKey, ids))
  {
    hide IdKey, StringLess;
    forall k
      ensures k in image <==> k in SortedStrings(Image(IdKey, ids))
    {
      assert k in SortedStrings(Image(IdKey, ids)) <==> k in Elems(SortedStrings(Image(IdKey, ids)));
      if k in Image(IdKey, ids) {
        var id :| id in ids && IdKey(id) == k;
        assert id in Elems(order);
        var i :| 0 <= i < |order| && order[i] == id;
        assert image[i] == k;
      }
      if k in image {
        var i :| 0 <= i < |image| && image[i] == k;
        assert order[i] in Elems(order);
      }
    }
  }

  lemma SortedMirror(js: JsMessages, r: Messages)
    requires Mirrors(js, r)
    ensures var keys, order := SortedStrings(js.Keys), SortedIds(r.Keys);
      && |keys| == |order|
      && forall i | 0 <= i < |keys| :: keys[i] in js && js[keys[i]].Id() == order[i]
           && order[i] in r && r[order[i]] == js[keys[i]]
  {
    hide IdKey, StringLess, IdLess, SortedIds, SortedStrings, Image, Safe;
    MirrorKeys(js, r);
    SortedImage(r.Keys);
    var keys, order := SortedStrings(js.Keys), SortedIds(r.Keys);
    forall i | 0 <= i < |keys|
      ensures keys[i] in js && js[keys[i]].Id() == order[i] && order[i] in r && r[order[i]] == js[keys[i]]
    {
      assert order[i] in Elems(order) && keys[i] == IdKey(order[i]);
    }
  }

  /** lastAccepted, keyed by hex instead of by author. */
  ghost predicate SameLast(js: map<string, u64>, last: map<Bytes32, u64>) {
    && (forall a: Bytes32 :: Hex(a) in js <==> a in last)
    && (forall a: Bytes32 | a in last :: Hex(a) in js && js[Hex(a)] == last[a])
  }

  lemma NoLast()
    ensures SameLast(map[], map[])
  {
  }

  lemma SameLastAt(js: map<string, u64>, last: map<Bytes32, u64>, a: Bytes32)
    requires SameLast(js, last)
    ensures Hex(a) in js <==> a in last
    ensures a in last ==> Hex(a) in js && js[Hex(a)] == last[a]
  {
  }

  lemma SameLastUpdate(js: map<string, u64>, last: map<Bytes32, u64>, a: Bytes32, ts: u64)
    requires SameLast(js, last)
    ensures SameLast(js[Hex(a) := ts], last[a := ts])
  {
    hide Hex;
    forall b: Bytes32
      ensures Hex(b) == Hex(a) <==> b == a
    {
      HexOrder(a, b);
    }
  }
}
