/** Admission records and nicknames of the identity registry (common/src/registry.rs) as
    values: how two records of one identity resolve, what a summary misses. */
module RegistryValues {
  import opened Bytes
  import opened Orders
  import opened Outcomes
  import Signing

  datatype Nickname = Nickname(name: Bytes, version: u64, signature: Bytes64)

  datatype AdmissionRecord = AdmissionRecord(
    identity: Bytes32, proof: Signing.Proof, nickname: Option<Nickname>, admittedTs: u64, signature: Bytes64)

  datatype NicknameUpdate = NicknameUpdate(identity: Bytes32, nickname: Nickname)

  datatype RegistryDelta = RegistryDelta(admissions: seq<AdmissionRecord>, nicknames: seq<NicknameUpdate>)

  type Identities = map<Bytes32, AdmissionRecord>

  /** Nickname version per identity, 0 for none. */
  type Summary = map<Bytes32, u64>

  /** The smaller core key (admitted_ts, signature). */
  predicate CoreLess(a: AdmissionRecord, b: AdmissionRecord) {
    a.admittedTs < b.admittedTs || (a.admittedTs == b.admittedTs && BytesLess(a.signature, b.signature))
  }

  predicate NicknameLess(a: Nickname, b: Nickname) {
    a.version < b.version || (a.version == b.version && BytesLess(a.signature, b.signature))
  }

  /** c was not admitted before r: later, or as early with a signature not smaller. */
  ghost predicate NotBefore(c: AdmissionRecord, r: AdmissionRecord) {
    r.admittedTs < c.admittedTs || (r.admittedTs == c.admittedTs && !BytesLess(c.signature, r.signature))
  }

  /** k is not above n: a lower version, or the same with a signature not greater. */
  ghost predicate NotHigher(k: Nickname, n: Nickname) {
    k.version < n.version || (k.version == n.version && !BytesLess(n.signature, k.signature))
  }

  lemma OrdersExact()
    ensures forall c: AdmissionRecord, r: AdmissionRecord :: NotBefore(c, r) <==> !CoreLess(c, r)
    ensures forall k: Nickname, n: Nickname :: NotHigher(k, n) <==> !NicknameLess(n, k)
  {
    BytesOrder();
    hide BytesLess;
  }

  function BetterNickname(a: Option<Nickname>, b: Option<Nickname>): Option<Nickname> {
    match (a, b)
    case (Some(x), Some(y)) => if NicknameLess(x, y) then Some(y) else Some(x)
    case (Some(x), None) => Some(x)
    case (None, y) => y
  }

  /** What an existing record becomes when another of its identity arrives. */
  function Resolve(existing: AdmissionRecord, record: AdmissionRecord): AdmissionRecord {
    var core := if CoreLess(record, existing) then record else existing;
    core.(nickname := BetterNickname(existing.nickname, record.nickname))
  }

  function WithRecord(m: Identities, record: AdmissionRecord): Identities {
    m[record.identity := if record.identity in m then Resolve(m[record.identity], record) else record]
  }

  function WithNickname(m: Identities, u: NicknameUpdate): Identities {
    if u.identity !in m then m
    else m[u.identity := m[u.identity].(nickname := BetterNickname(m[u.identity].nickname, Some(u.nickname)))]
  }

  ghost function WithRecords(m: Identities, rs: seq<AdmissionRecord>): Identities {
    if rs == [] then m else WithRecord(WithRecords(m, rs[..|rs| - 1]), rs[|rs| - 1])
  }

  ghost function WithNicknames(m: Identities, us: seq<NicknameUpdate>): Identities {
    if us == [] then m else WithNickname(WithNicknames(m, us[..|us| - 1]), us[|us| - 1])
  }

  ghost predicate Keyed(m: Identities) {
    forall id | id in m :: m[id].identity == id
  }

  predicate IdentityLess(a: Bytes32, b: Bytes32) { BytesLess(a, b) }

  lemma IdentityLessTotal()
    ensures StrictTotal(IdentityLess)
  {
    BytesOrder();
  }

  function SortedIdentities(ids: set<Bytes32>): (q: seq<Bytes32>)
    ensures Elems(q) == ids && |q| == |ids| && Ascending(IdentityLess, q)
  {
    IdentityLessTotal();
    Sorted(IdentityLess, ids)
  }

  function RecordsAt(m: Identities, ids: seq<Bytes32>): (rs: seq<AdmissionRecord>)
    requires forall id | id in ids :: id in m
    ensures |rs| == |ids| && forall i | 0 <= i < |ids| :: rs[i] == m[ids[i]]
  {
    seq(|ids|, i requires 0 <= i < |ids| => m[ids[i]])
  }

  /** The records of a BTreeMap, in key order. */
  function RecordsInOrder(m: Identities): (rs: seq<AdmissionRecord>)
    ensures Elems(rs) == m.Values
  {
    var q := SortedIdentities(m.Keys);
    assert forall id | id in q :: id in Elems(q);
    RecordsAtValues(m, q);
    RecordsAt(m, q)
  }

  lemma RecordsAtValues(m: Identities, q: seq<Bytes32>)
    requires Elems(q) == m.Keys && forall id | id in q :: id in m
    ensures Elems(RecordsAt(m, q)) == m.Values
  {
    var r := RecordsAt(m, q);
    forall v | v in m.Values
      ensures v in r
    {
      var id :| id in m && m[id] == v;
      assert id in Elems(q);
      var i :| 0 <= i < |q| && q[i] == id;
      assert r[i] == v;
    }
  }

  function VersionOf(n: Option<Nickname>): u64 {
    match n
    case None => 0
    case Some(x) => x.version
  }

  /** What a summary's owner lacks entirely, and the newer nicknames it is sent. */
  ghost function Admissions(m: Identities, s: Summary, ids: set<Bytes32>): set<AdmissionRecord> {
    set id | id in ids && id in m && id !in s :: m[id]
  }

  predicate NewerNickname(m: Identities, s: Summary, id: Bytes32) {
    id in m && id in s && m[id].nickname.Some? && m[id].nickname.value.version > s[id]
  }

  ghost function Nicknames(m: Identities, s: Summary, ids: set<Bytes32>): set<NicknameUpdate> {
    set id | id in ids && NewerNickname(m, s, id) :: NicknameUpdate(m[id].identity, m[id].nickname.value)
  }

  lemma NothingSent(m: Identities, s: Summary)
    ensures Admissions(m, s, {}) == {} && Nicknames(m, s, {}) == {}
  {
  }

  lemma SentStep(m: Identities, s: Summary, q: seq<Bytes32>, i: nat)
    requires i < |q| && Elems(q) <= m.Keys
    ensures q[i] in m
    ensures Admissions(m, s, Elems(q[..i + 1])) == Admissions(m, s, Elems(q[..i])) + (if q[i] !in s then {m[q[i]]} else {})
    ensures Nicknames(m, s, Elems(q[..i + 1])) == Nicknames(m, s, Elems(q[..i]))
      + (if q[i] in s && m[q[i]].nickname.Some? && m[q[i]].nickname.value.version > s[q[i]]
         then {NicknameUpdate(m[q[i]].identity, m[q[i]].nickname.value)} else {})
  {
    ElemsTake(q, i);
    assert q[i] in Elems(q);
  }
}
