/** The client's GET-merge-PUT of the chat on bytes (web/src/merge.ts, web/src/state.ts). */
module ChatWire {
  import opened Bytes
  import opened Orders
  import opened Outcomes
  import opened ChatBuffer
  import opened ChatLaws
  import opened TextKeys
  import opened ChatMirror
  import opened Cbor
  import opened WireFields
  import CborLaws
  import Signing

  const CONTENT: Value := Text(Signing.Ascii("content"))
  const SEQ: Value := Text(Signing.Ascii("seq"))
  const MESSAGES: Value := Text(Signing.Ascii("messages"))

  // ---- Messages -------------------------------------------------------------------------------

  function MessageFields(m: SignedMessage): (es: seq<Entry>)
    ensures |es| == 5
  {
    [Entry(CONTENT, Text(m.content)), Entry(TS, Int(m.ts)), Entry(SEQ, Int(m.seqNo)),
     Entry(AUTHOR, Blob(m.author)), Entry(SIGNATURE, ByteList(m.signature))]
  }

  /** encodeMessage. */
  function MessageValue(m: SignedMessage): Value { Map(MessageFields(m)) }

  function IdValue(m: SignedMessage): Value {
    Map([Entry(TS, Int(m.ts)), Entry(AUTHOR, ByteList(m.author)), Entry(SEQ, Int(m.seqNo))])
  }

  function AsText(v: Option<Value>): Option<Bytes> {
    match v
    case Some(Text(u)) => Some(u)
    case _ => None
  }

  /** decodeChatMessage. The decoder yields safe integers only; fields outside the Rust
      widths count as undecodable. */
  function DecodeMessage(v: Value): Option<SignedMessage> {
    match (AsText(MapGet(v, CONTENT)), AsNumber(MapGet(v, TS), MAX_SAFE_INTEGER + 1), AsNumber(MapGet(v, SEQ), 0x1_0000_0000),
           AsByteArray(MapGet(v, AUTHOR)), AsByteArray(MapGet(v, SIGNATURE)))
    case (Some(content), Some(ts), Some(seqNo), Some(author), Some(signature)) =>
      if |author| == 32 && |signature| == 64 then Some(SignedMessage(content, ts, seqNo, author, signature)) else None
    case _ => None
  }

  lemma NamesDiffer()
    ensures CONTENT != TS && CONTENT != SEQ && CONTENT != AUTHOR && CONTENT != SIGNATURE
    ensures TS != SEQ && TS != AUTHOR && TS != SIGNATURE
    ensures SEQ != AUTHOR && SEQ != SIGNATURE && AUTHOR != SIGNATURE
  {
    assert |CONTENT.utf8| == 7 && |SEQ.utf8| == 3 && |TS.utf8| == 2 && |AUTHOR.utf8| == 6 && |SIGNATURE.utf8| == 9;
  }

  /** The names and forms under which a message is written. */
  lemma MessageByName(m: SignedMessage)
    ensures var v := MessageValue(m);
      && MapGet(v, Text(Signing.Ascii("content"))) == Some(Text(m.content))
      && MapGet(v, Text(Signing.Ascii("ts"))) == Some(Int(m.ts))
      && MapGet(v, Text(Signing.Ascii("seq"))) == Some(Int(m.seqNo))
      && MapGet(v, Text(Signing.Ascii("author"))) == Some(Blob(m.author))
      && MapGet(v, Text(Signing.Ascii("signature"))) == Some(ByteList(m.signature))
  {
    NamesDiffer();
    var es := MessageFields(m);
    hide Lookup, ByteList;
    LookupAt(es, CONTENT, 0);
    LookupAt(es, TS, 1);
    LookupAt(es, SEQ, 2);
    LookupAt(es, AUTHOR, 3);
    LookupAt(es, SIGNATURE, 4);
  }

  lemma MessageBack(m: SignedMessage)
    requires Safe(m)
    ensures DecodeMessage(MessageValue(m)) == Some(m)
  {
    NamesDiffer();
    ByteListBack(m.signature);
    BlobBack(m.author);
    var es := MessageFields(m);
    hide Lookup, ByteList, AsByteArray;
    LookupAt(es, CONTENT, 0);
    LookupAt(es, TS, 1);
    LookupAt(es, SEQ, 2);
    LookupAt(es, AUTHOR, 3);
    LookupAt(es, SIGNATURE, 4);
  }

  lemma DecodedIsSafe(v: Value)
    ensures DecodeMessage(v).Some? ==> Safe(DecodeMessage(v).value)
  {
    hide MapGet, AsByteArray;
  }

  // ---- Encoding a room ----------------------------------------------------------------------------

  function Picked(js: JsMessages, keys: seq<string>): (ms: seq<SignedMessage>)
    requires forall k | k in keys :: k in js
    ensures |ms| == |keys| && forall i | 0 <= i < |keys| :: ms[i] == js[keys[i]]
  {
    seq(|keys|, i requires 0 <= i < |keys| => js[keys[i]])
  }

  function MessageEntries(ms: seq<SignedMessage>): (es: seq<Entry>)
    ensures |es| == |ms| && forall i | 0 <= i < |ms| :: es[i] == Entry(IdValue(ms[i]), MessageValue(ms[i]))
  {
    seq(|ms|, i requires 0 <= i < |ms| => Entry(IdValue(ms[i]), MessageValue(ms[i])))
  }

  lemma KeysIn(js: JsMessages)
    ensures forall k | k in SortedStrings(js.Keys) :: k in js
  {
    assert forall k | k in SortedStrings(js.Keys) :: k in Elems(SortedStrings(js.Keys));
  }

  /** The stored messages in key order. */
  function InOrder(js: JsMessages): seq<SignedMessage> {
    KeysIn(js);
    Picked(js, SortedStrings(js.Keys))
  }

  function ChatValue(js: JsMessages): Value {
    Map([Entry(MESSAGES, Map(MessageEntries(InOrder(js))))])
  }

  method EncodeChatState(state: ChatStateJs) returns (r: Result<Bytes, Error>)
    ensures r.Ok? <==> Encodable(ChatValue(state.messages))
    ensures r.Ok? ==> r.value == Encode(ChatValue(state.messages))
  {
    hide *;
    var js := state.messages;
    var keys := SortedStrings(js.Keys);
    KeysIn(js);
    ChatValueShape(js);
    var messages: seq<Entry> := [];
    for i := 0 to |keys|
      invariant messages == MessageEntries(Picked(js, keys[..i]))
    {
      EntriesStep(js, keys, i);
      var message := js[keys[i]];
      messages := messages + [Entry(IdValue(message), MessageValue(message))];
    }
    assert keys[..|keys|] == keys;
    r := CborEncode(Map([Entry(MESSAGES, Map(messages))]));
  }

  lemma ChatValueShape(js: JsMessages)
    requires forall k | k in SortedStrings(js.Keys) :: k in js
    ensures ChatValue(js) == Map([Entry(MESSAGES, Map(MessageEntries(Picked(js, SortedStrings(js.Keys)))))])
  {
  }

  lemma EntriesStep(js: JsMessages, keys: seq<string>, i: nat)
    requires i < |keys| && forall k | k in keys :: k in js
    ensures MessageEntries(Picked(js, keys[..i + 1]))
         == MessageEntries(Picked(js, keys[..i])) + [Entry(IdValue(js[keys[i]]), MessageValue(js[keys[i]]))]
  {
    hide IdValue, MessageValue;
  }

  // ---- Decoding -------------------------------------------------------------------------------------

  function Listed(items: seq<Value>): Option<seq<SignedMessage>> {
    DecodeAll(items, DecodeMessage)
  }

  lemma ListedBack(ms: seq<SignedMessage>, items: seq<Value>)
    requires |items| == |ms| && forall i | 0 <= i < |ms| :: items[i] == MessageValue(ms[i]) && Safe(ms[i])
    ensures Listed(items) == Some(ms)
  {
    hide DecodeMessage, MessageValue, Safe;
    forall i | 0 <= i < |ms|
      ensures DecodeMessage(items[i]) == Some(ms[i])
    {
      MessageBack(ms[i]);
    }
    DecodeAllExact(items, DecodeMessage, ms);
  }

  lemma ListedAreSafe(items: seq<Value>)
    requires Listed(items).Some?
    ensures forall m | m in Listed(items).value :: Safe(m)
  {
    hide DecodeMessage, Safe;
    var ms := Listed(items).value;
    DecodeAllExact(items, DecodeMessage, ms);
    forall i | 0 <= i < |ms|
      ensures Safe(ms[i])
    {
      DecodedIsSafe(items[i]);
    }
  }

  method DecodeMessages(items: seq<Value>) returns (ms: Option<seq<SignedMessage>>)
    ensures ms == Listed(items)
    ensures ms.Some? ==> forall m | m in ms.value :: Safe(m)
  {
    hide DecodeMessage, Safe;
    ms := DecodeItems(items, DecodeMessage);
    if ms.Some? { ListedAreSafe(items); }
  }

  /** The messages of a stored room; empty bytes are the genesis state. */
  function DecodedState(bytes: Bytes): Option<seq<SignedMessage>> {
    if bytes == [] then Some([])
    else match Decode(bytes)
      case Err(_) => None
      case Ok(root) =>
        match MapGet(root, MESSAGES)
        case Some(Map(es)) => Listed(MapValues(es))
        case _ => Some([])
  }

  function DecodedDelta(bytes: Bytes): Option<seq<SignedMessage>> {
    if bytes == [] then Some([])
    else match Decode(bytes)
      case Err(_) => None
      case Ok(root) =>
        match MapGet(root, MESSAGES)
        case Some(Arr(items)) => Listed(items)
        case _ => Some([])
  }

  /** decodeChatState; None where it throws. */
  method DecodeChatState(bytes: Bytes) returns (state: Option<ChatStateJs>)
    ensures state.Some? <==> DecodedState(bytes).Some?
    ensures state.Some? ==>
      && fresh(state.value)
      && JsKeyed(state.value.messages)
      && AsRust(state.value.messages) == Built(DecodedState(bytes).value, CHAT_MESSAGE_CAP, CHAT_MAX_MESSAGES_PER_AUTHOR)
  {
    hide DecodeMessage, Decode, Lookup, Listed, Safe, IdKey, Inserted;
    NothingStored();
    var room := new ChatStateJs();
    if bytes == [] {
      return Some(room);
    }
    var decoded := CborDecode(bytes);
    if decoded.Err? {
      return None;
    }
    var messages := MapGet(decoded.value, MESSAGES);
    if messages == None || !messages.value.Map? {
      return Some(room);
    }
    var ms := DecodeMessages(MapValues(messages.value.entries));
    if ms == None {
      return None;
    }
    room.ApplyDelta(ms.value);
    return Some(room);
  }

  lemma NothingStored()
    ensures JsKeyed(map[]) && AsRust(map[]) == map[]
    ensures Built([], CHAT_MESSAGE_CAP, CHAT_MAX_MESSAGES_PER_AUTHOR) == map[]
  {
  }

  /** decodeChatDelta; None where it throws. */
  method DecodeChatDelta(bytes: Bytes) returns (ms: Option<seq<SignedMessage>>)
    ensures ms == DecodedDelta(bytes)
    ensures ms.Some? ==> forall m | m in ms.value :: Safe(m)
  {
    hide DecodeMessage, Decode, Lookup, Listed, Safe;
    if bytes == [] {
      return Some([]);
    }
    var decoded := CborDecode(bytes);
    if decoded.Err? {
      return None;
    }
    var messages := MapGet(decoded.value, MESSAGES);
    if messages == None || !messages.value.Arr? {
      return Some([]);
    }
    ms := DecodeMessages(messages.value.items);
  }

  /** What the encoder writes of a room: its one encoding, if it has one. */
  function Written(js: JsMessages): Option<Bytes> {
    if Encodable(ChatValue(js)) then Some(Encode(ChatValue(js))) else None
  }

  /** mergeChatState; None where it throws. */
  method MergeChatState(stateBytes: Bytes, deltaBytes: Bytes) returns (r: Option<Bytes>)
    ensures DecodedState(stateBytes) == None || DecodedDelta(deltaBytes) == None ==> r == None
    ensures DecodedState(stateBytes).Some? && DecodedDelta(deltaBytes).Some? ==>
      exists js: JsMessages ::
        && JsKeyed(js)
        && AsRust(js) == InsertedAll(
             Built(DecodedState(stateBytes).value, CHAT_MESSAGE_CAP, CHAT_MAX_MESSAGES_PER_AUTHOR),
             DecodedDelta(deltaBytes).value, CHAT_MESSAGE_CAP, CHAT_MAX_MESSAGES_PER_AUTHOR)
        && r == Written(js)
  {
    hide *;
    var state := DecodeChatState(stateBytes);
    if state.None? {
      return None;
    }
    var delta := DecodeChatDelta(deltaBytes);
    if delta.None? {
      return None;
    }
    state.value.ApplyDelta(delta.value);
    ghost var js := state.value.messages;
    var bytes := EncodeChatState(state.value);
    r := if bytes.Ok? then Some(bytes.value) else None;
    WrittenShape(js);
    assert r == Written(js);
  }

  lemma WrittenShape(js: JsMessages)
    ensures Encodable(ChatValue(js)) ==> Written(js) == Some(Encode(ChatValue(js)))
    ensures !Encodable(ChatValue(js)) ==> Written(js) == None
  {
    hide Encodable, ChatValue, Encode;
  }

  // ---- Round trip and correctness ------------------------------------------------------------------------

  lemma InOrderAll(js: JsMessages)
    ensures Elems(InOrder(js)) == js.Values
  {
    KeysIn(js);
    var keys := SortedStrings(js.Keys);
    forall v | v in js.Values
      ensures v in InOrder(js)
    {
      var k :| k in js && js[k] == v;
      assert k in Elems(keys);
      var i :| 0 <= i < |keys| && keys[i] == k;
      assert InOrder(js)[i] == v;
    }
  }

  lemma InOrderSafe(js: JsMessages)
    requires JsKeyed(js)
    ensures forall i | 0 <= i < |InOrder(js)| :: Safe(InOrder(js)[i])
  {
    hide IdKey, Safe, InOrder;
    InOrderAll(js);
    assert forall i | 0 <= i < |InOrder(js)| :: InOrder(js)[i] in Elems(InOrder(js));
  }

  lemma DecodedShape(bytes: Bytes, root: Value, es: seq<Entry>)
    requires bytes != [] && Decode(bytes) == Ok(root) && root.Map? && Lookup(root.entries, MESSAGES) == Some(Map(es))
    ensures DecodedState(bytes) == Listed(MapValues(es))
  {
    hide Decode, Lookup, Listed;
  }

  /** Ids are maps, which a Map never takes for equal. */
  lemma MessageKeys(ms: seq<SignedMessage>)
    ensures forall i | 0 <= i < |ms| :: !Primitive(MessageEntries(ms)[i].key)
  {
    hide MessageValue;
  }

  lemma EntriesBack(ms: seq<SignedMessage>)
    requires forall i | 0 <= i < |ms| :: Safe(ms[i])
    ensures Listed(MapValues(MessageEntries(ms))) == Some(ms)
  {
    hide Listed, MessageValue, IdValue, Safe;
    MessageKeys(ms);
    DistinctMap(MessageEntries(ms));
    ListedBack(ms, ValuesOf(MessageEntries(ms)));
  }

  /** Decoding an encoded room yields exactly its messages, in key order. */
  lemma StateBack(js: JsMessages)
    requires JsKeyed(js) && Encodable(ChatValue(js))
    ensures DecodedState(Encode(ChatValue(js))) == Some(InOrder(js))
  {
    hide *;
    var v := ChatValue(js);
    InOrderSafe(js);
    ChatValueIs(js);
    CborLaws.DecodeInverts(v);
    EncodeNotEmpty(v);
    LookupAt(v.entries, MESSAGES, 0);
    DecodedShape(Encode(v), v, MessageEntries(InOrder(js)));
    EntriesBack(InOrder(js));
  }

  lemma ChatValueIs(js: JsMessages)
    ensures ChatValue(js) == Map([Entry(MESSAGES, Map(MessageEntries(InOrder(js))))])
  {
  }

  lemma ValuesMirror(js: JsMessages)
    requires JsKeyed(js)
    ensures AsRust(js).Values == js.Values
  {
    AsRustMirrors(js);
    hide IdKey, AsRust;
    forall v | v in js.Values
      ensures v in AsRust(js).Values
    {
      var k :| k in js && js[k] == v;
      assert AsRust(js)[v.Id()] == v;
    }
  }

  /** A room decoded from its own bytes is the room. */
  lemma RoomBack(js: JsMessages)
    requires JsKeyed(js) && Buffer(AsRust(js), CHAT_MESSAGE_CAP, CHAT_MAX_MESSAGES_PER_AUTHOR)
    ensures Built(InOrder(js), CHAT_MESSAGE_CAP, CHAT_MAX_MESSAGES_PER_AUTHOR) == AsRust(js)
  {
    hide *;
    var cap, authorCap := CHAT_MESSAGE_CAP, CHAT_MAX_MESSAGES_PER_AUTHOR;
    BuiltIsNormal(InOrder(js), cap, authorCap);
    InOrderAll(js);
    ValuesMirror(js);
    BufferIsNormal(AsRust(js), cap, authorCap);
    SameBuffer(Built(InOrder(js), cap, authorCap), AsRust(js), cap, authorCap);
  }

  /** On the bytes of a capped room, the merge writes the contract's own delta application. */
  lemma MergesLikeTheContract(js: JsMessages, stateBytes: Bytes, ms: seq<SignedMessage>, js': JsMessages)
    requires JsKeyed(js) && Buffer(AsRust(js), CHAT_MESSAGE_CAP, CHAT_MAX_MESSAGES_PER_AUTHOR)
    requires Encodable(ChatValue(js)) && stateBytes == Encode(ChatValue(js))
    requires JsKeyed(js') && DecodedState(stateBytes).Some?
    requires AsRust(js') == InsertedAll(
      Built(DecodedState(stateBytes).value, CHAT_MESSAGE_CAP, CHAT_MAX_MESSAGES_PER_AUTHOR),
      ms, CHAT_MESSAGE_CAP, CHAT_MAX_MESSAGES_PER_AUTHOR)
    ensures AsRust(js') == InsertedAll(AsRust(js), ms, CHAT_MESSAGE_CAP, CHAT_MAX_MESSAGES_PER_AUTHOR)
    ensures Buffer(AsRust(js'), CHAT_MESSAGE_CAP, CHAT_MAX_MESSAGES_PER_AUTHOR)
    ensures js'.Values == Room(CHAT_MESSAGE_CAP, CHAT_MAX_MESSAGES_PER_AUTHOR).Normal(js.Values + Elems(ms))
  {
    hide *;
    StateBack(js);
    RoomBack(js);
    InsertedAllIsNormal(AsRust(js), ms, CHAT_MESSAGE_CAP, CHAT_MAX_MESSAGES_PER_AUTHOR);
    ValuesMirror(js);
    ValuesMirror(js');
  }

  /** One room has one encoding. */
  lemma OneEncoding(js: JsMessages, js': JsMessages)
    requires JsKeyed(js) && JsKeyed(js') && AsRust(js) == AsRust(js')
    ensures js == js'
  {
    AsRustMirrors(js);
    AsRustMirrors(js');
    hide IdKey, AsRust;
    forall k | k in js
      ensures k in js' && js'[k] == js[k]
    {
      assert js[k].Id() in AsRust(js');
    }
    forall k | k in js'
      ensures k in js
    {
      assert js'[k].Id() in AsRust(js);
    }
  }
}
