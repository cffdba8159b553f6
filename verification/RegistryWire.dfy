/** The client's registry merge on bytes (web/src/merge.ts, mergeRegistryState): records
    stay generic CBOR maps, of which only the identity, the timestamp, the signature and the
    nickname are read and only the nickname is replaced; everything else is copied verbatim. */
module RegistryWire {
  import opened Bytes
  import opened Orders
  import opened Outcomes
  import opened RegistryValues
  import opened RegistryLaws
  import opened Cbor
  import opened WireFields
  import RegistryList
  import CborLaws
  import Signing

  const IDENTITY_VK: Value := Text(Signing.Ascii("identity_vk"))
  const PROOF: Value := Text(Signing.Ascii("proof"))
  const NICKNAME: Value := Text(Signing.Ascii("nickname"))
  const ADMITTED_TS: Value := Text(Signing.Ascii("admitted_ts"))
  const NAME: Value := Text(Signing.Ascii("name"))
  const VERSION: Value := Text(Signing.Ascii("version"))
  const IDENTITIES: Value := Text(Signing.Ascii("identities"))
  const ADMISSIONS: Value := Text(Signing.Ascii("admissions"))
  const NICKNAMES: Value := Text(Signing.Ascii("nicknames"))

  lemma NamesDiffer()
    ensures IDENTITY_VK != PROOF && IDENTITY_VK != NICKNAME && IDENTITY_VK != ADMITTED_TS && IDENTITY_VK != SIGNATURE
    ensures PROOF != NICKNAME && PROOF != ADMITTED_TS && PROOF != SIGNATURE
    ensures NICKNAME != ADMITTED_TS && NICKNAME != SIGNATURE && ADMITTED_TS != SIGNATURE
    ensures NAME != VERSION && NAME != SIGNATURE && VERSION != SIGNATURE && ADMISSIONS != NICKNAMES
  {
    assert |IDENTITY_VK.utf8| == 11 && |PROOF.utf8| == 5 && |NICKNAME.utf8| == 8 && |ADMITTED_TS.utf8| == 11;
    assert |SIGNATURE.utf8| == 9 && |NAME.utf8| == 4 && |VERSION.utf8| == 7 && |ADMISSIONS.utf8| == 10 && |NICKNAMES.utf8| == 9;
    assert IDENTITY_VK.utf8[0] != ADMITTED_TS.utf8[0];
  }

  // ---- How the contract writes its records -------------------------------------------------------

  function ProofValue(p: Signing.Proof): Value {
    match p
    case Work(nonce) =>
      Map([Entry(Text(Signing.Ascii("Work")), Map([Entry(Text(Signing.Ascii("nonce")), Int(nonce))]))])
    case Ghostkey(payload, signature, pem) =>
      Map([Entry(Text(Signing.Ascii("Ghostkey")), Map([
        Entry(Text(Signing.Ascii("scoped_payload")), ByteList(payload)),
        Entry(SIGNATURE, ByteList(signature)),
        Entry(Text(Signing.Ascii("certificate_pem")), Text(pem))]))])
  }

  function NicknameFields(n: Nickname): (es: seq<Entry>)
    ensures |es| == 3
  {
    [Entry(NAME, Text(n.name)), Entry(VERSION, Int(n.version)), Entry(SIGNATURE, ByteList(n.signature))]
  }

  function NicknameValue(n: Option<Nickname>): Value {
    match n
    case None => Null
    case Some(x) => Map(NicknameFields(x))
  }

  function RecordFields(r: AdmissionRecord): (es: seq<Entry>)
    ensures |es| == 5
  {
    [Entry(IDENTITY_VK, Blob(r.identity)), Entry(PROOF, ProofValue(r.proof)), Entry(NICKNAME, NicknameValue(r.nickname)),
     Entry(ADMITTED_TS, Int(r.admittedTs)), Entry(SIGNATURE, ByteList(r.signature))]
  }

  function RecordValue(r: AdmissionRecord): Value { Map(RecordFields(r)) }

  function UpdateValue(u: NicknameUpdate): Value {
    Map([Entry(IDENTITY_VK, Blob(u.identity)), Entry(NICKNAME, NicknameValue(Some(u.nickname)))])
  }

  function RecordValues(rs: seq<AdmissionRecord>): (vs: seq<Value>)
    ensures |vs| == |rs| && forall i | 0 <= i < |rs| :: vs[i] == RecordValue(rs[i])
  {
    seq(|rs|, i requires 0 <= i < |rs| => RecordValue(rs[i]))
  }

  function UpdateValues(us: seq<NicknameUpdate>): (vs: seq<Value>)
    ensures |vs| == |us| && forall i | 0 <= i < |us| :: vs[i] == UpdateValue(us[i])
  {
    seq(|us|, i requires 0 <= i < |us| => UpdateValue(us[i]))
  }

  function IdentityEntries(rs: seq<AdmissionRecord>): (es: seq<Entry>)
    ensures |es| == |rs| && forall i | 0 <= i < |rs| :: es[i] == Entry(ByteList(rs[i].identity), RecordValue(rs[i]))
  {
    seq(|rs|, i requires 0 <= i < |rs| => Entry(ByteList(rs[i].identity), RecordValue(rs[i])))
  }

  /** The state: records under their identities, in key order. */
  function StateValue(rs: seq<AdmissionRecord>): Value {
    Map([Entry(IDENTITIES, Map(IdentityEntries(rs)))])
  }

  function DeltaValue(d: RegistryDelta): Value {
    Map([Entry(ADMISSIONS, Arr(RecordValues(d.admissions))), Entry(NICKNAMES, Arr(UpdateValues(d.nicknames)))])
  }

  // ---- The client's reading of generic records ------------------------------------------------------

  /** asTs. */
  function AsTs(v: Option<Value>): Option<int> {
    match v
    case Some(Int(n)) => Some(n)
    case _ => None
  }

  function AsMap(v: Option<Value>): Option<seq<Entry>> {
    match v
    case Some(Map(es)) => Some(es)
    case _ => None
  }

  /** coreLess; None where it throws. */
  function CoreLessValue(a: Value, b: Value): Option<bool> {
    match (AsTs(MapGet(a, ADMITTED_TS)), AsTs(MapGet(b, ADMITTED_TS)))
    case (Some(x), Some(y)) =>
      if x != y then Some(x < y)
      else
        (match (AsByteArray(MapGet(a, SIGNATURE)), AsByteArray(MapGet(b, SIGNATURE)))
         case (Some(s), Some(t)) => Some(BytesLess(s, t))
         case _ => None)
    case _ => None
  }

  /** betterNickname: null and undefined lose to any nickname; None where it throws. */
  function BetterNicknameValue(a: Option<Value>, b: Option<Value>): Option<Value> {
    match (AsMap(a), AsMap(b))
    case (None, None) => Some(Null)
    case (None, Some(_)) => b
    case (Some(_), None) => a
    case (Some(_), Some(_)) =>
      match (AsTs(MapGet(a.value, VERSION)), AsTs(MapGet(b.value, VERSION)))
      case (Some(x), Some(y)) =>
        if y > x then b
        else if y < x then a
        else
          (match (AsByteArray(MapGet(b.value, SIGNATURE)), AsByteArray(MapGet(a.value, SIGNATURE)))
           case (Some(t), Some(s)) => Some(if BytesLess(s, t) then b.value else a.value)
           case _ => None)
      case _ => None
  }

  /** record.set("nickname", value). */
  function SetNickname(record: Value, nickname: Value): Value
    requires record.Map?
  {
    Map(MapSet(record.entries, Entry(NICKNAME, nickname)))
  }

  lemma RecordReads(r: AdmissionRecord)
    ensures AsByteArray(MapGet(RecordValue(r), IDENTITY_VK)) == Some(r.identity)
    ensures AsTs(MapGet(RecordValue(r), ADMITTED_TS)) == Some(r.admittedTs)
    ensures AsByteArray(MapGet(RecordValue(r), SIGNATURE)) == Some(r.signature)
    ensures MapGet(RecordValue(r), NICKNAME) == Some(NicknameValue(r.nickname))
    ensures MapGet(RecordValue(r), Text(Signing.Ascii("identity_vk"))) == Some(Blob(r.identity))
    ensures MapGet(RecordValue(r), Text(Signing.Ascii("admitted_ts"))) == Some(Int(r.admittedTs))
    ensures MapGet(RecordValue(r), Text(Signing.Ascii("signature"))) == Some(ByteList(r.signature))
    ensures MapGet(RecordValue(r), Text(Signing.Ascii("nickname"))) == Some(NicknameValue(r.nickname))
    ensures MapGet(RecordValue(r), Text(Signing.Ascii("proof"))) == Some(ProofValue(r.proof))
  {
    NamesDiffer();
    ByteListBack(r.signature);
    BlobBack(r.identity);
    var es := RecordFields(r);
    hide Lookup, ByteList, AsByteArray, ProofValue, NicknameValue;
    LookupAt(es, IDENTITY_VK, 0);
    LookupAt(es, PROOF, 1);
    LookupAt(es, NICKNAME, 2);
    LookupAt(es, ADMITTED_TS, 3);
    LookupAt(es, SIGNATURE, 4);
  }

  lemma NicknameReads(n: Nickname)
    ensures AsTs(MapGet(NicknameValue(Some(n)), VERSION)) == Some(n.version)
    ensures AsByteArray(MapGet(NicknameValue(Some(n)), SIGNATURE)) == Some(n.signature)
  {
    NamesDiffer();
    ByteListBack(n.signature);
    var es := NicknameFields(n);
    hide Lookup, ByteList, AsByteArray;
    LookupAt(es, VERSION, 1);
    LookupAt(es, SIGNATURE, 2);
  }

  lemma UpdateReads(u: NicknameUpdate)
    ensures AsByteArray(MapGet(UpdateValue(u), IDENTITY_VK)) == Some(u.identity)
    ensures MapGet(UpdateValue(u), NICKNAME) == Some(NicknameValue(Some(u.nickname)))
  {
    NamesDiffer();
    BlobBack(u.identity);
    var es := UpdateValue(u).entries;
    hide Lookup, AsByteArray, NicknameValue;
    LookupAt(es, IDENTITY_VK, 0);
    LookupAt(es, NICKNAME, 1);
  }

  lemma SameCoreOrder(a: AdmissionRecord, b: AdmissionRecord)
    ensures CoreLessValue(RecordValue(a), RecordValue(b)) == Some(CoreLess(a, b))
    ensures CoreLessValue(RecordValue(a), RecordValue(b)) ==
      Some(a.admittedTs < b.admittedTs || (a.admittedTs == b.admittedTs && BytesLess(a.signature, b.signature)))
  {
    RecordReads(a);
    RecordReads(b);
    hide MapGet, AsByteArray, AsTs, RecordValue, BytesLess;
  }

  lemma SameNickname(a: Option<Nickname>, b: Option<Nickname>)
    ensures BetterNicknameValue(Some(NicknameValue(a)), Some(NicknameValue(b))) == Some(NicknameValue(BetterNickname(a, b)))
  {
    if a.Some? { NicknameReads(a.value); }
    if b.Some? { NicknameReads(b.value); }
    BytesOrder();
    hide MapGet, AsByteArray, AsTs, NicknameFields, BytesLess;
  }

  lemma SetIsUpdate(r: AdmissionRecord, n: Option<Nickname>)
    ensures SetNickname(RecordValue(r), NicknameValue(n)) == RecordValue(r.(nickname := n))
  {
    NamesDiffer();
    hide ByteList, ProofValue, NicknameValue;
    var es, e := RecordFields(r), Entry(NICKNAME, NicknameValue(n));
    assert Primitive(e.key);
    SetStep(es, e);
    SetStep(es[1..], e);
    SetStep(es[2..], e);
    assert es[1..][1..] == es[2..] && es[2..][1..] == es[3..];
    assert MapSet(es[2..], e) == [e] + es[3..];
    assert MapSet(es, e) == [es[0]] + ([es[1]] + ([e] + es[3..]));
    assert MapSet(es, e) == RecordFields(r.(nickname := n));
  }

  lemma SetStep(m: seq<Entry>, e: Entry)
    requires m != []
    ensures MapSet(m, e) == if Primitive(e.key) && m[0].key == e.key then [e] + m[1..] else [m[0]] + MapSet(m[1..], e)
  {
  }

  // ---- The list of generic entries -----------------------------------------------------------------

  datatype WireEntry = WireEntry(key: Bytes, record: Value)

  /** The generic list holds exactly what the contract writes of the listed records. */
  ghost predicate Wired(ws: seq<WireEntry>, es: seq<RegistryList.Entry>) {
    |ws| == |es| && forall i | 0 <= i < |es| :: ws[i] == WireEntry(es[i].key, RecordValue(es[i].record))
  }

  /** The generic list stands for the registry m. */
  ghost predicate Holds(ws: seq<WireEntry>, m: Identities) {
    exists es: seq<RegistryList.Entry> :: Wired(ws, es) && RegistryList.Lists(es, m)
  }

  /** insertRecord on generic records; None where it throws. */
  method InsertRecord(ws: seq<WireEntry>, record: Value, ghost m: Identities, ghost r: AdmissionRecord)
    returns (out: Option<seq<WireEntry>>)
    ensures Holds(ws, m) && record == RecordValue(r) ==> out.Some? && Holds(out.value, WithRecord(m, r))
  {
    hide *;
    ghost var known := Holds(ws, m) && record == RecordValue(r);
    RecordReads(r);
    RecordIsMap(r);
    var key := AsByteArray(MapGet(record, IDENTITY_VK));
    if key.None? {
      return None;
    }
    var i := 0;
    while i < |ws|
      invariant 0 <= i <= |ws|
      invariant forall j | 0 <= j < i :: BytesLess(ws[j].key, key.value)
    {
      var before := CompareBytes(ws[i].key, key.value);
      if before >= 0 {
        break;
      }
      i := i + 1;
    }
    var found := false;
    if i < |ws| {
      var cmp := CompareBytes(ws[i].key, key.value);
      found := cmp == 0;
      RegistryList.CompareConnected(ws[i].key, key.value);
    }
    if !found {
      if known { SplicedWire(ws, m, i, r); }
      return Some(ws[..i] + [WireEntry(key.value, record)] + ws[i..]);
    }
    var existing := ws[i].record;
    ghost var old': AdmissionRecord := r;
    if known { old' := StoredWire(ws, m, i); RecordReads(old'); RecordIsMap(old'); SameNickname(old'.nickname, r.nickname); SameCoreOrder(r, old'); }
    var nickname := BetterNicknameValue(MapGet(existing, NICKNAME), MapGet(record, NICKNAME));
    var less := CoreLessValue(record, existing);
    if nickname.None? || less.None? {
      return None;
    }
    var core := if less.value then record else existing;
    if !core.Map? {
      return None;
    }
    if known {
      ghost var chosen := if less.value then r else old';
      SetIsUpdate(chosen, BetterNickname(old'.nickname, r.nickname));
      ReplacedWire(ws, m, i, r, old');
    }
    return Some(ws[i := WireEntry(ws[i].key, SetNickname(core, nickname.value))]);
  }

  lemma RecordIsMap(r: AdmissionRecord)
    ensures RecordValue(r).Map?
  {
  }

  /** The listed record behind a generic entry. */
  lemma StoredWire(ws: seq<WireEntry>, m: Identities, i: nat) returns (r: AdmissionRecord)
    requires Holds(ws, m) && i < |ws|
    ensures |ws[i].key| == 32 && ws[i].key in m && m[ws[i].key] == r && ws[i].record == RecordValue(r)
  {
    hide RecordValue;
    var es: seq<RegistryList.Entry> :| Wired(ws, es) && RegistryList.Lists(es, m);
    assert es[i] in es;
    r := es[i].record;
  }

  lemma SplicedWire(ws: seq<WireEntry>, m: Identities, i: nat, r: AdmissionRecord)
    requires Holds(ws, m) && i <= |ws|
    requires forall j | 0 <= j < i :: BytesLess(ws[j].key, r.identity)
    requires i < |ws| ==> BytesLess(r.identity, ws[i].key)
    ensures Holds(ws[..i] + [WireEntry(r.identity, RecordValue(r))] + ws[i..], WithRecord(m, r))
  {
    hide RecordValue, RegistryList.Lists, BytesLess, Resolve;
    var es: seq<RegistryList.Entry> :| Wired(ws, es) && RegistryList.Lists(es, m);
    RegistryList.Spliced(es, m, i, r);
    var out := es[..i] + [RegistryList.Entry(r.identity, r)] + es[i..];
    assert Wired(ws[..i] + [WireEntry(r.identity, RecordValue(r))] + ws[i..], out);
  }

  lemma ReplacedWire(ws: seq<WireEntry>, m: Identities, i: nat, r: AdmissionRecord, existing: AdmissionRecord)
    requires Holds(ws, m) && i < |ws| && ws[i].key == r.identity && ws[i].record == RecordValue(existing)
    requires r.identity in m && m[r.identity] == existing
    ensures var core := (if CoreLess(r, existing) then r else existing).(nickname := BetterNickname(existing.nickname, r.nickname));
      Holds(ws[i := WireEntry(ws[i].key, RecordValue(core))], WithRecord(m, r))
  {
    hide RecordValue, RegistryList.Lists, BetterNickname, CoreLess;
    var es: seq<RegistryList.Entry> :| Wired(ws, es) && RegistryList.Lists(es, m);
    var core := Resolve(existing, r);
    RegistryList.Replaced(es, m, i, core);
    assert Wired(ws[i := WireEntry(ws[i].key, RecordValue(core))], es[i := RegistryList.Entry(es[i].key, core)]);
  }

  /** One nickname update; None where it throws. */
  method Rename(ws: seq<WireEntry>, update: Value, ghost m: Identities, ghost u: NicknameUpdate)
    returns (out: Option<seq<WireEntry>>)
    ensures Holds(ws, m) && update == UpdateValue(u) ==> out.Some? && Holds(out.value, WithNickname(m, u))
  {
    hide *;
    ghost var known := Holds(ws, m) && update == UpdateValue(u);
    UpdateReads(u);
    var key := AsByteArray(MapGet(update, IDENTITY_VK));
    if key.None? {
      return None;
    }
    var i := 0;
    while i < |ws|
      invariant 0 <= i <= |ws|
      invariant forall j | 0 <= j < i :: ws[j].key != key.value
    {
      var cmp := CompareBytes(ws[i].key, key.value);
      if cmp == 0 {
        ghost var stored: AdmissionRecord;
        if known {
          stored := StoredWire(ws, m, i);
          RecordReads(stored);
          RecordIsMap(stored);
          SameNickname(stored.nickname, Some(u.nickname));
        }
        var nickname := BetterNicknameValue(MapGet(ws[i].record, NICKNAME), MapGet(update, NICKNAME));
        if nickname.None? || !ws[i].record.Map? {
          return None;
        }
        if known {
          SetIsUpdate(stored, BetterNickname(stored.nickname, Some(u.nickname)));
          RenamedWire(ws, m, i, u, stored);
        }
        return Some(ws[i := WireEntry(ws[i].key, SetNickname(ws[i].record, nickname.value))]);
      }
      i := i + 1;
    }
    if known { NotListedWire(ws, m, u); }
    return Some(ws);
  }

  lemma RenamedWire(ws: seq<WireEntry>, m: Identities, i: nat, u: NicknameUpdate, stored: AdmissionRecord)
    requires Holds(ws, m) && i < |ws| && ws[i].key == u.identity && ws[i].record == RecordValue(stored)
    requires u.identity in m && m[u.identity] == stored
    ensures var core := stored.(nickname := BetterNickname(stored.nickname, Some(u.nickname)));
      Holds(ws[i := WireEntry(ws[i].key, RecordValue(core))], WithNickname(m, u))
  {
    hide RecordValue, RegistryList.Lists, BetterNickname;
    var es: seq<RegistryList.Entry> :| Wired(ws, es) && RegistryList.Lists(es, m);
    var core := stored.(nickname := BetterNickname(stored.nickname, Some(u.nickname)));
    RegistryList.Replaced(es, m, i, core);
    assert Wired(ws[i := WireEntry(ws[i].key, RecordValue(core))], es[i := RegistryList.Entry(es[i].key, core)]);
  }

  lemma NotListedWire(ws: seq<WireEntry>, m: Identities, u: NicknameUpdate)
    requires Holds(ws, m) && forall j | 0 <= j < |ws| :: ws[j].key != u.identity
    ensures Holds(ws, WithNickname(m, u))
  {
    hide RecordValue, RegistryList.Lists;
    var es: seq<RegistryList.Entry> :| Wired(ws, es) && RegistryList.Lists(es, m);
    RegistryList.NotListed(es, m, u.identity);
  }

  lemma NothingHeld()
    ensures Holds([], map[])
  {
    RegistryList.NothingListed();
    assert Wired([], []);
  }

  // ---- The merge --------------------------------------------------------------------------------------

  method InsertRecords(ws: seq<WireEntry>, records: seq<Value>, ghost m: Identities, ghost rs: seq<AdmissionRecord>)
    returns (out: Option<seq<WireEntry>>)
    ensures Holds(ws, m) && records == RecordValues(rs) ==> out.Some? && Holds(out.value, WithRecords(m, rs))
  {
    hide *;
    ghost var known := Holds(ws, m) && records == RecordValues(rs);
    var list := ws;
    NoRecords(m, rs[..0]);
    for i := 0 to |records|
      invariant known ==> i <= |rs| && Holds(list, WithRecords(m, rs[..i]))
    {
      if !records[i].Map? {
        if known { RecordIsMap(rs[i]); }
        return None;
      }
      ghost var r := if known then rs[i] else AnyRecord();
      var next := InsertRecord(list, records[i], if known then WithRecords(m, rs[..i]) else m, r);
      if known { OneMoreRecord(m, rs, i); }
      if next.None? {
        return None;
      }
      list := next.value;
    }
    if known { assert rs[..|rs|] == rs; }
    return Some(list);
  }

  ghost function AnyRecord(): AdmissionRecord {
    AdmissionRecord(seq(32, _ => 0), Signing.Work(0), None, 0, seq(64, _ => 0))
  }

  ghost function AnyUpdate(): NicknameUpdate {
    NicknameUpdate(seq(32, _ => 0), Nickname([], 0, seq(64, _ => 0)))
  }

  lemma NoRecords(m: Identities, rs: seq<AdmissionRecord>)
    ensures rs == [] ==> WithRecords(m, rs) == m
  {
  }

  lemma OneMoreRecord(m: Identities, rs: seq<AdmissionRecord>, i: nat)
    requires i < |rs|
    ensures WithRecords(m, rs[..i + 1]) == WithRecord(WithRecords(m, rs[..i]), rs[i])
  {
    assert rs[..i + 1][..i] == rs[..i];
  }

  method ApplyNicknames(ws: seq<WireEntry>, updates: seq<Value>, ghost m: Identities, ghost us: seq<NicknameUpdate>)
    returns (out: Option<seq<WireEntry>>)
    ensures Holds(ws, m) && updates == UpdateValues(us) ==> out.Some? && Holds(out.value, WithNicknames(m, us))
  {
    hide *;
    ghost var known := Holds(ws, m) && updates == UpdateValues(us);
    var list := ws;
    NoUpdates(m, us[..0]);
    for i := 0 to |updates|
      invariant known ==> i <= |us| && Holds(list, WithNicknames(m, us[..i]))
    {
      ghost var u := if known then us[i] else AnyUpdate();
      var next := Rename(list, updates[i], if known then WithNicknames(m, us[..i]) else m, u);
      if known { OneMoreUpdate(m, us, i); }
      if next.None? {
        return None;
      }
      list := next.value;
    }
    if known { assert us[..|us|] == us; }
    return Some(list);
  }

  lemma NoUpdates(m: Identities, us: seq<NicknameUpdate>)
    ensures us == [] ==> WithNicknames(m, us) == m
  {
  }

  lemma OneMoreUpdate(m: Identities, us: seq<NicknameUpdate>, i: nat)
    requires i < |us|
    ensures WithNicknames(m, us[..i + 1]) == WithNickname(WithNicknames(m, us[..i]), us[i])
  {
    assert us[..i + 1][..i] == us[..i];
  }

  /** The bytes the contract stores of m, and those a delta comes in. */
  ghost predicate IsState(b: Bytes, m: Identities) {
    Keyed(m) && ((b == [] && m == map[])
      || (Encodable(StateValue(RecordsInOrder(m))) && b == Encode(StateValue(RecordsInOrder(m)))))
  }

  ghost predicate IsDeltaBytes(b: Bytes, d: RegistryDelta) {
    (b == [] && d == RegistryDelta([], [])) || (Encodable(DeltaValue(d)) && b == Encode(DeltaValue(d)))
  }

  /** The one encoding of m, if it has one. */
  ghost function Written(m: Identities): Option<Bytes> {
    if Encodable(StateValue(RecordsInOrder(m))) then Some(Encode(StateValue(RecordsInOrder(m)))) else None
  }

  /** The records of the stored state. */
  method ReadState(stateBytes: Bytes, ghost m: Identities) returns (ws: Option<seq<WireEntry>>)
    ensures IsState(stateBytes, m) ==> ws.Some? && Holds(ws.value, m)
  {
    hide *;
    ghost var known := IsState(stateBytes, m);
    NothingHeld();
    if known { StateDecodes(stateBytes, m); }
    if stateBytes == [] {
      return Some([]);
    }
    var root := CborDecode(stateBytes);
    if root.Err? {
      return None;
    }
    var identities := AsMap(MapGet(root.value, IDENTITIES));
    if identities.None? {
      return None;
    }
    ws := InsertRecords([], MapValues(identities.value), map[], if known then RecordsInOrder(m) else []);
    if known { Rebuilt(m); }
  }

  lemma StateDecodes(b: Bytes, m: Identities)
    requires IsState(b, m)
    ensures Keyed(m) && (b == [] ==> m == map[])
    ensures b != [] ==>
      Decode(b).Ok? && AsMap(MapGet(Decode(b).value, IDENTITIES)).Some?
      && MapValues(AsMap(MapGet(Decode(b).value, IDENTITIES)).value) == RecordValues(RecordsInOrder(m))
  {
    hide Encodable, Encode, Decode, RecordValue, RecordsInOrder, Lookup, ByteList;
    var rs := RecordsInOrder(m);
    var v := StateValue(rs);
    if Encodable(v) { EncodeNotEmpty(v); }
    if b != [] {
      CborLaws.DecodeInverts(v);
      LookupAt(v.entries, IDENTITIES, 0);
      IdentityKeys(rs);
      DistinctMap(IdentityEntries(rs));
      assert ValuesOf(IdentityEntries(rs)) == RecordValues(rs);
    }
  }

  /** Identity keys are arrays, which a Map never takes for equal. */
  lemma IdentityKeys(rs: seq<AdmissionRecord>)
    ensures forall i | 0 <= i < |rs| :: !Primitive(IdentityEntries(rs)[i].key)
  {
    hide RecordValue;
  }

  lemma Rebuilt(m: Identities)
    requires Keyed(m)
    ensures WithRecords(map[], RecordsInOrder(m)) == m
  {
    MergeIsJoin(map[], m, RecordsInOrder(m));
    JoinUnit(m);
  }

  /** The delta's two lists, each skipped if it is not an array. */
  method ApplyDelta(ws: seq<WireEntry>, deltaBytes: Bytes, ghost m: Identities, ghost d: RegistryDelta)
    returns (out: Option<seq<WireEntry>>)
    ensures Holds(ws, m) && IsDeltaBytes(deltaBytes, d) ==> out.Some? && Holds(out.value, Applied(m, d))
  {
    hide *;
    ghost var known := Holds(ws, m) && IsDeltaBytes(deltaBytes, d);
    if known { DeltaDecodes(deltaBytes, d); }
    AppliedShape(m, d);
    if deltaBytes == [] {
      return Some(ws);
    }
    var delta := CborDecode(deltaBytes);
    if delta.Err? {
      return None;
    }
    var list := ws;
    var admissions := MapGet(delta.value, ADMISSIONS);
    if admissions.Some? && admissions.value.Arr? {
      var next := InsertRecords(list, admissions.value.items, m, d.admissions);
      if next.None? {
        return None;
      }
      list := next.value;
    }
    var nicknames := MapGet(delta.value, NICKNAMES);
    if nicknames.Some? && nicknames.value.Arr? {
      out := ApplyNicknames(list, nicknames.value.items, WithRecords(m, d.admissions), d.nicknames);
      return;
    }
    return Some(list);
  }

  lemma AppliedShape(m: Identities, d: RegistryDelta)
    ensures Applied(m, d) == WithNicknames(WithRecords(m, d.admissions), d.nicknames)
    ensures d == RegistryDelta([], []) ==> Applied(m, d) == m
  {
    NoRecords(m, d.admissions);
    NoUpdates(WithRecords(m, d.admissions), d.nicknames);
  }

  lemma DeltaDecodes(b: Bytes, d: RegistryDelta)
    requires IsDeltaBytes(b, d)
    ensures b == [] ==> d == RegistryDelta([], [])
    ensures b != [] ==>
      && Decode(b).Ok?
      && MapGet(Decode(b).value, ADMISSIONS) == Some(Arr(RecordValues(d.admissions)))
      && MapGet(Decode(b).value, NICKNAMES) == Some(Arr(UpdateValues(d.nicknames)))
  {
    hide Encodable, Encode, Decode, RecordValue, UpdateValue, Lookup;
    var v := DeltaValue(d);
    if Encodable(v) { EncodeNotEmpty(v); }
    if b != [] {
      NamesDiffer();
      CborLaws.DecodeInverts(v);
      LookupAt(v.entries, ADMISSIONS, 0);
      LookupAt(v.entries, NICKNAMES, 1);
    }
  }

  /** mergeRegistryState; None where it throws. On the bytes of a well-keyed registry and of
      a delta it writes the bytes of the contract's own delta application. */
  method MergeRegistryState(stateBytes: Bytes, deltaBytes: Bytes, ghost m: Identities, ghost d: RegistryDelta)
    returns (r: Option<Bytes>)
    ensures IsState(stateBytes, m) && IsDeltaBytes(deltaBytes, d) ==> r == Written(Applied(m, d))
  {
    hide *;
    ghost var known := IsState(stateBytes, m) && IsDeltaBytes(deltaBytes, d);
    var state := ReadState(stateBytes, m);
    if state.None? {
      return None;
    }
    var merged := ApplyDelta(state.value, deltaBytes, m, d);
    if merged.None? {
      return None;
    }
    var identities: seq<Entry> := [];
    for i := 0 to |merged.value|
      invariant identities == Listing(merged.value[..i])
    {
      ListingStep(merged.value, i);
      identities := identities + [Entry(ByteList(merged.value[i].key), merged.value[i].record)];
    }
    assert merged.value[..|merged.value|] == merged.value;
    var bytes := CborEncode(Map([Entry(IDENTITIES, Map(identities))]));
    r := if bytes.Ok? then Some(bytes.value) else None;
    if known {
      StateKeyed(stateBytes, m);
      AppliedKeyed(m, d);
      ListingIsState(merged.value, Applied(m, d));
      WrittenShape(Applied(m, d));
    }
  }

  function Listing(ws: seq<WireEntry>): (es: seq<Entry>)
    ensures |es| == |ws| && forall i | 0 <= i < |ws| :: es[i] == Entry(ByteList(ws[i].key), ws[i].record)
  {
    seq(|ws|, i requires 0 <= i < |ws| => Entry(ByteList(ws[i].key), ws[i].record))
  }

  lemma ListingStep(ws: seq<WireEntry>, i: nat)
    requires i < |ws|
    ensures Listing(ws[..i + 1]) == Listing(ws[..i]) + [Entry(ByteList(ws[i].key), ws[i].record)]
  {
    hide ByteList;
  }

  lemma StateKeyed(b: Bytes, m: Identities)
    requires IsState(b, m)
    ensures Keyed(m)
  {
  }

  lemma WrittenShape(m: Identities)
    ensures Encodable(StateValue(RecordsInOrder(m))) ==> Written(m) == Some(Encode(StateValue(RecordsInOrder(m))))
    ensures !Encodable(StateValue(RecordsInOrder(m))) ==> Written(m) == None
  {
    hide Encodable, Encode, StateValue, RecordsInOrder;
  }

  lemma {:induction false} RecordsKeepKeyed(m: Identities, rs: seq<AdmissionRecord>)
    requires Keyed(m)
    ensures Keyed(WithRecords(m, rs))
  {
    hide Resolve;
    if rs != [] {
      var init, last := rs[..|rs| - 1], rs[|rs| - 1];
      RecordsKeepKeyed(m, init);
      ResolvedIdentity(WithRecords(m, init), last);
    }
  }

  lemma ResolvedIdentity(m: Identities, r: AdmissionRecord)
    requires Keyed(m)
    ensures r.identity in m ==> Resolve(m[r.identity], r).identity == r.identity
  {
  }

  lemma {:induction false} NamesKeepKeyed(m: Identities, us: seq<NicknameUpdate>)
    requires Keyed(m)
    ensures Keyed(WithNicknames(m, us))
  {
    hide BetterNickname;
    if us != [] { NamesKeepKeyed(m, us[..|us| - 1]); }
  }

  lemma AppliedKeyed(m: Identities, d: RegistryDelta)
    requires Keyed(m)
    ensures Keyed(Applied(m, d))
  {
    RecordsKeepKeyed(m, d.admissions);
    NamesKeepKeyed(WithRecords(m, d.admissions), d.nicknames);
  }

  /** A list that stands for m is written as the contract writes m. */
  lemma ListingIsState(ws: seq<WireEntry>, m: Identities)
    requires Holds(ws, m) && Keyed(m)
    ensures Map([Entry(IDENTITIES, Map(Listing(ws)))]) == StateValue(RecordsInOrder(m))
  {
    hide RecordValue, ByteList, Listing, IdentityEntries, RegistryList.Lists, RecordsInOrder;
    var es: seq<RegistryList.Entry> :| Wired(ws, es) && RegistryList.Lists(es, m);
    var rs := RecordsInOrder(m);
    InOrderLists(m);
    var order := InOrder(m);
    RegistryList.OneListing(es, order, m);
    assert Listing(ws) == IdentityEntries(rs);
  }

  ghost function InOrder(m: Identities): (es: seq<RegistryList.Entry>)
    ensures |es| == |RecordsInOrder(m)|
    ensures forall i | 0 <= i < |es| :: es[i].record == RecordsInOrder(m)[i]
    ensures Keyed(m) ==> forall i | 0 <= i < |es| :: es[i].key == RecordsInOrder(m)[i].identity
  {
    var rs := RecordsInOrder(m);
    seq(|rs|, i requires 0 <= i < |rs| => RegistryList.Entry(rs[i].identity, rs[i]))
  }

  lemma InOrderLists(m: Identities)
    requires Keyed(m)
    ensures RegistryList.Lists(InOrder(m), m)
  {
    hide Sorted, BytesLess;
    var q, es := SortedIdentities(m.Keys), InOrder(m);
    InOrderKeys(m);
    forall i, j | 0 <= i < j < |es|
      ensures RegistryList.EntryLess(es[i], es[j])
    {
      assert IdentityLess(q[i], q[j]);
    }
    forall e | e in es
      ensures e.key in m && m[e.key] == e.record
    {
      var i :| 0 <= i < |es| && es[i] == e;
    }
    forall id | id in m
      ensures RegistryList.Entry(id, m[id]) in es
    {
      assert id in Elems(q);
      var i :| 0 <= i < |q| && q[i] == id;
      assert es[i] == RegistryList.Entry(id, m[id]);
    }
  }

  lemma InOrderKeys(m: Identities)
    requires Keyed(m)
    ensures var q, es := SortedIdentities(m.Keys), InOrder(m);
      |q| == |es| && forall i | 0 <= i < |es| :: q[i] in m && es[i] == RegistryList.Entry(q[i], m[q[i]])
  {
    var q := SortedIdentities(m.Keys);
    assert forall id | id in q :: id in Elems(q);
    assert RecordsInOrder(m) == RecordsAt(m, q);
  }
}
