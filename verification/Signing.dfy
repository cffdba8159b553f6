/** The canonical signature preimages (common/src/tile.rs, chat.rs, registry.rs,
    facade.rs): context prefix, parameters, fixed-width fields, length-prefixed variable
    fields. Text is carried as its UTF-8 bytes. */
module Signing {
  import opened Bytes
  import opened Outcomes

  function Code(c: char): byte
    requires c as int < 128
  {
    c as int
  }

  function Ascii(s: string): (b: Bytes)
    requires forall i | 0 <= i < |s| :: s[i] as int < 128
    ensures |b| == |s| && forall i | 0 <= i < |s| :: b[i] == s[i] as int
  {
    seq<byte>(|s|, (i: nat) requires i < |s| => Code(s[i]))
  }

  const PLACEMENT_CONTEXT: Bytes := Ascii("freeplace:tile:placement:v1")
  const MESSAGE_CONTEXT: Bytes := Ascii("freeplace:chat:message:v1")
  const ADMISSION_CONTEXT: Bytes := Ascii("freeplace:registry:admission:v1")
  const NICKNAME_CONTEXT: Bytes := Ascii("freeplace:registry:nickname:v1")
  const CHALLENGE_CONTEXT: Bytes := Ascii("freeplace:registry:challenge:v1")
  const FACADE_CONTEXT: Bytes := Ascii("freeplace:facade:pointer:v1")

  datatype Proof =
    | Work(nonce: u64)
    | Ghostkey(scopedPayload: Bytes, signature: Bytes, certificatePem: Bytes)

  /** Everything an author, an identity or the owner ever signs. */
  datatype Statement =
    | Placement(canvasId: Bytes32, tileX: u8, tileY: u8, registry: Bytes32, author: Bytes32, coord: u16, color: u8, ts: u64)
    | Message(canvasId: Bytes32, registry: Bytes32, author: Bytes32, ts: u64, seqNo: u32, content: Bytes)
    | Admission(canvasId: Bytes32, identity: Bytes32, admittedTs: u64, proof: Proof)
    | Nickname(canvasId: Bytes32, identity: Bytes32, version: u64, name: Bytes)
    | Challenge(canvasId: Bytes32, identity: Bytes32)
    | Pointer(owner: Bytes32, instance: u64, version: u64, currentApp: Option<Bytes32>, prevApps: seq<Bytes32>, webHash: Bytes32)
  {
    /** Lengths fit their u32 prefixes; the builders abort otherwise. */
    predicate Fits() {
      match this
      case Placement(_, _, _, _, _, _, _, _) => true
      case Message(_, _, _, _, _, content) => |content| < 0x1_0000_0000
      case Admission(_, _, _, Work(_)) => true
      case Admission(_, _, _, Ghostkey(payload, signature, pem)) =>
        |payload| < 0x1_0000_0000 && |signature| < 0x1_0000_0000 && |pem| < 0x1_0000_0000
      case Nickname(_, _, _, name) => |name| < 0x1_0000_0000
      case Challenge(_, _) => true
      case Pointer(_, _, _, _, prevApps, _) => |prevApps| < 0x1_0000_0000
    }

    /** The preimage as the list of pieces the builder appends. */
    function Fields(): seq<Bytes> {
      match this
      case Placement(canvasId, x, y, registry, author, coord, color, ts) =>
        [PLACEMENT_CONTEXT, canvasId, [x], [y], registry, author, Le(coord, 2), [color], Le(ts, 8)]
      case Message(canvasId, registry, author, ts, seqNo, content) =>
        [MESSAGE_CONTEXT, canvasId, registry, author, Le(ts, 8), Le(seqNo, 4), Le(|content|, 4), content]
      case Admission(canvasId, identity, ts, proof) =>
        [ADMISSION_CONTEXT, canvasId, identity, Le(ts, 8)] + ProofFields(proof)
      case Nickname(canvasId, identity, version, name) =>
        [NICKNAME_CONTEXT, canvasId, identity, Le(version, 8), Le(|name|, 4), name]
      case Challenge(canvasId, identity) =>
        [CHALLENGE_CONTEXT, canvasId, identity]
      case Pointer(owner, instance, version, currentApp, prevApps, webHash) =>
        [FACADE_CONTEXT, owner, Le(instance, 8), Le(version, 8)] + AppFields(currentApp)
        + [Le(|prevApps|, 4)] + prevApps + [webHash]
    }

    function Preimage(): Bytes { Concat(Fields()) }
  }

  function ProofFields(p: Proof): seq<Bytes> {
    match p
    case Work(nonce) => [[0], Le(nonce, 8)]
    case Ghostkey(payload, signature, pem) =>
      [[1], Le(|payload|, 4), payload, Le(|signature|, 4), signature, Le(|pem|, 4), pem]
  }

  function AppFields(app: Option<Bytes32>): seq<Bytes> {
    match app
    case None => [[0]]
    case Some(a) => [[1], a]
  }

  function Concat(fields: seq<Bytes>): Bytes {
    if fields == [] then [] else fields[0] + Concat(fields[1..])
  }

  lemma {:induction false} ConcatSplit(p: seq<Bytes>, q: seq<Bytes>)
    ensures Concat(p + q) == Concat(p) + Concat(q)
  {
    if p == [] {
      assert p + q == q;
    } else {
      assert (p + q)[1..] == p[1..] + q;
      ConcatSplit(p[1..], q);
    }
  }

  // ---- The builders with loops ---------------------------------------------------------------

  /** facade_signing_bytes. */
  method FacadeSigningBytes(
    owner: Bytes32, instance: u64, version: u64, currentApp: Option<Bytes32>, prevApps: seq<Bytes32>, webHash: Bytes32)
    returns (out: Bytes)
    requires |prevApps| < 0x1_0000_0000
    ensures out == Pointer(owner, instance, version, currentApp, prevApps, webHash).Preimage()
  {
    hide *;
    out := FACADE_CONTEXT + owner + Le(instance, 8) + Le(version, 8);
    if currentApp.None? {
      out := out + [0];
    } else {
      out := out + [1];
      out := out + currentApp.value;
    }
    ghost var head := [FACADE_CONTEXT, owner, Le(instance, 8), Le(version, 8)] + AppFields(currentApp);
    HeadBytes(owner, instance, version, currentApp);
    PointerShape(owner, instance, version, currentApp, prevApps, webHash);
    out := out + Le(|prevApps|, 4);
    ConcatSnoc(head, Le(|prevApps|, 4));
    ghost var start := head + [Le(|prevApps|, 4)];
    var i := 0;
    assert start + prevApps[..0] == start;
    while i < |prevApps|
      invariant 0 <= i <= |prevApps|
      invariant out == Concat(start + prevApps[..i])
    {
      out := out + prevApps[i];
      ConcatSnoc(start + prevApps[..i], prevApps[i]);
      assert start + prevApps[..i + 1] == start + prevApps[..i] + [prevApps[i]];
      i := i + 1;
    }
    assert prevApps[..|prevApps|] == prevApps;
    ConcatSnoc(start + prevApps, webHash);
    out := out + webHash;
  }

  lemma PointerShape(
      owner: Bytes32, instance: u64, version: u64, currentApp: Option<Bytes32>, prevApps: seq<Bytes32>, webHash: Bytes32)
    ensures Pointer(owner, instance, version, currentApp, prevApps, webHash).Preimage()
         == Concat([FACADE_CONTEXT, owner, Le(instance, 8), Le(version, 8)] + AppFields(currentApp)
                   + [Le(|prevApps|, 4)] + prevApps + [webHash])
  {
  }

  /** admission_signing_bytes: the proof's variable fields go through one loop. */
  method AdmissionSigningBytes(canvasId: Bytes32, identity: Bytes32, proof: Proof, admittedTs: u64) returns (out: Bytes)
    requires Admission(canvasId, identity, admittedTs, proof).Fits()
    ensures out == Admission(canvasId, identity, admittedTs, proof).Preimage()
  {
    hide Le, Concat;
    out := ADMISSION_CONTEXT + canvasId + identity + Le(admittedTs, 8);
    ghost var head := [ADMISSION_CONTEXT, canvasId, identity, Le(admittedTs, 8)];
    Concat4(ADMISSION_CONTEXT, canvasId, identity, Le(admittedTs, 8));
    match proof
    case Work(nonce) =>
      ConcatSnoc(head, [0]);
      ConcatSnoc(head + [[0]], Le(nonce, 8));
      assert head + [[0]] + [Le(nonce, 8)] == head + ProofFields(proof);
      out := out + [0] + Le(nonce, 8);
    case Ghostkey(payload, signature, pem) =>
      ConcatSnoc(head, [1]);
      out := out + [1];
      var fields := [payload, signature, pem];
      ghost var done := head + [[1]];
      var i := 0;
      while i < 3
        invariant 0 <= i <= 3
        invariant out == Concat(done)
        invariant done == head + ProofFields(proof)[..1 + 2 * i]
      {
        out := out + Le(|fields[i]|, 4);
        ConcatSnoc(done, Le(|fields[i]|, 4));
        out := out + fields[i];
        ConcatSnoc(done + [Le(|fields[i]|, 4)], fields[i]);
        done := done + [Le(|fields[i]|, 4)] + [fields[i]];
        i := i + 1;
      }
      assert ProofFields(proof)[..7] == ProofFields(proof);
  }

  lemma HeadBytes(owner: Bytes32, instance: u64, version: u64, app: Option<Bytes32>)
    ensures Concat([FACADE_CONTEXT, owner, Le(instance, 8), Le(version, 8)] + AppFields(app))
         == FACADE_CONTEXT + owner + Le(instance, 8) + Le(version, 8) + (if app.None? then [0] else [1] + app.value)
  {
    hide Le;
    var four := [FACADE_CONTEXT, owner, Le(instance, 8), Le(version, 8)];
    ConcatSplit(four, AppFields(app));
    Concat4(FACADE_CONTEXT, owner, Le(instance, 8), Le(version, 8));
    if app.None? {
      Concat1([0]);
    } else {
      assert AppFields(app) == [[1]] + [app.value];
      ConcatSplit([[1]], [app.value]);
      Concat1([1]);
      Concat1(app.value);
    }
  }

  lemma Concat1(a: Bytes)
    ensures Concat([a]) == a
  {
    assert Concat([a]) == a + Concat([a][1..]);
  }

  lemma Concat4(a: Bytes, b: Bytes, c: Bytes, d: Bytes)
    ensures Concat([a, b, c, d]) == a + b + c + d
  {
    ConcatSnoc([a, b, c], d);
    ConcatSnoc([a, b], c);
    ConcatSnoc([a], b);
    Concat1(a);
    assert [a, b, c, d] == [a, b, c] + [d] && [a, b, c] == [a, b] + [c] && [a, b] == [a] + [b];
  }

  lemma ConcatSnoc(p: seq<Bytes>, a: Bytes)
    ensures Concat(p + [a]) == Concat(p) + a
  {
    ConcatSplit(p, [a]);
    Concat1(a);
  }

  // ---- Layouts ----------------------------------------------------------------------------------

  lemma Concat2(a: Bytes, b: Bytes)
    ensures Concat([a, b]) == a + b
  {
    ConcatSnoc([a], b);
    Concat1(a);
    assert [a, b] == [a] + [b];
  }

  lemma Concat3(a: Bytes, b: Bytes, c: Bytes)
    ensures Concat([a, b, c]) == a + b + c
  {
    ConcatSnoc([a, b], c);
    Concat2(a, b);
    assert [a, b, c] == [a, b] + [c];
  }

  /** The bytes that are signed, as one concatenation. */
  lemma PlacementLayout(canvasId: Bytes32, x: u8, y: u8, registry: Bytes32, author: Bytes32, coord: u16, color: u8, ts: u64)
    ensures Placement(canvasId, x, y, registry, author, coord, color, ts).Preimage() ==
      Ascii("freeplace:tile:placement:v1") + canvasId + [x] + [y] + registry + author + Le(coord, 2) + [color] + Le(ts, 8)
  {
    var s := Placement(canvasId, x, y, registry, author, coord, color, ts);
    hide Le, Concat;
    var p, q, r := [PLACEMENT_CONTEXT, canvasId, [x], [y]], [registry, author, Le(coord, 2), [color]], [Le(ts, 8)];
    assert s.Fields() == p + q + r;
    ConcatSplit(p + q, r);
    ConcatSplit(p, q);
    Concat4(p[0], p[1], p[2], p[3]);
    Concat4(q[0], q[1], q[2], q[3]);
    Concat1(r[0]);
  }

  lemma MessageLayout(canvasId: Bytes32, registry: Bytes32, author: Bytes32, ts: u64, seqNo: u32, content: Bytes)
    requires |content| < 0x1_0000_0000
    ensures Message(canvasId, registry, author, ts, seqNo, content).Preimage() ==
      Ascii("freeplace:chat:message:v1") + canvasId + registry + author + Le(ts, 8) + Le(seqNo, 4) + Le(|content|, 4) + content
  {
    var s := Message(canvasId, registry, author, ts, seqNo, content);
    hide Le, Concat;
    var p, q := [MESSAGE_CONTEXT, canvasId, registry, author], [Le(ts, 8), Le(seqNo, 4), Le(|content|, 4), content];
    assert s.Fields() == p + q;
    ConcatSplit(p, q);
    Concat4(p[0], p[1], p[2], p[3]);
    Concat4(q[0], q[1], q[2], q[3]);
  }

  lemma AdmissionLayout(canvasId: Bytes32, identity: Bytes32, ts: u64, proof: Proof)
    requires Admission(canvasId, identity, ts, proof).Fits()
    ensures Admission(canvasId, identity, ts, proof).Preimage() ==
      Ascii("freeplace:registry:admission:v1") + canvasId + identity + Le(ts, 8) +
      match proof
      case Work(nonce) => [0] + Le(nonce, 8)
      case Ghostkey(payload, signature, pem) =>
        [1] + Le(|payload|, 4) + payload + Le(|signature|, 4) + signature + Le(|pem|, 4) + pem
  {
    var s := Admission(canvasId, identity, ts, proof);
    hide Le, Concat;
    var p, q := [ADMISSION_CONTEXT, canvasId, identity, Le(ts, 8)], ProofFields(proof);
    assert s.Fields() == p + q;
    ConcatSplit(p, q);
    Concat4(p[0], p[1], p[2], p[3]);
    match proof
    case Work(nonce) => Concat2([0], Le(nonce, 8));
    case Ghostkey(payload, signature, pem) =>
      var four, three := [[1], Le(|payload|, 4), payload, Le(|signature|, 4)], [signature, Le(|pem|, 4), pem];
      assert q == four + three;
      ConcatSplit(four, three);
      Concat4(four[0], four[1], four[2], four[3]);
      Concat3(three[0], three[1], three[2]);
      Reassociate(Concat(four), three[0], three[1], three[2]);
  }

  lemma Reassociate(x: Bytes, a: Bytes, b: Bytes, c: Bytes)
    ensures x + (a + b + c) == x + a + b + c
  {
  }

  lemma NicknameLayout(canvasId: Bytes32, identity: Bytes32, version: u64, name: Bytes)
    requires |name| < 0x1_0000_0000
    ensures Nickname(canvasId, identity, version, name).Preimage() ==
      Ascii("freeplace:registry:nickname:v1") + canvasId + identity + Le(version, 8) + Le(|name|, 4) + name
  {
    var s := Nickname(canvasId, identity, version, name);
    hide Le, Concat;
    var p, q := [NICKNAME_CONTEXT, canvasId, identity], [Le(version, 8), Le(|name|, 4), name];
    assert s.Fields() == p + q;
    ConcatSplit(p, q);
    Concat3(p[0], p[1], p[2]);
    Concat3(q[0], q[1], q[2]);
  }

  lemma ChallengeLayout(canvasId: Bytes32, identity: Bytes32)
    ensures Challenge(canvasId, identity).Preimage() == Ascii("freeplace:registry:challenge:v1") + canvasId + identity
  {
    hide Concat;
    Concat3(CHALLENGE_CONTEXT, canvasId, identity);
  }

  lemma PointerLayout(
      owner: Bytes32, instance: u64, version: u64, currentApp: Option<Bytes32>, prevApps: seq<Bytes32>, webHash: Bytes32)
    requires |prevApps| < 0x1_0000_0000
    ensures Pointer(owner, instance, version, currentApp, prevApps, webHash).Preimage() ==
      Ascii("freeplace:facade:pointer:v1") + owner + Le(instance, 8) + Le(version, 8)
      + (if currentApp.None? then [0] else [1] + currentApp.value)
      + Le(|prevApps|, 4) + Concat(prevApps) + webHash
  {
    hide Le, Concat;
    var head := [FACADE_CONTEXT, owner, Le(instance, 8), Le(version, 8)] + AppFields(currentApp);
    HeadBytes(owner, instance, version, currentApp);
    PointerShape(owner, instance, version, currentApp, prevApps, webHash);
    ConcatSnoc(head + [Le(|prevApps|, 4)] + prevApps, webHash);
    ConcatSplit(head + [Le(|prevApps|, 4)], prevApps);
    ConcatSnoc(head, Le(|prevApps|, 4));
  }

  // ---- Injectivity ----------------------------------------------------------------------------

  /** Equal concatenations agree on every leading run of fields of matching lengths. */
  lemma {:induction false} ConcatPrefix(p: seq<Bytes>, q: seq<Bytes>, k: nat)
    requires Concat(p) == Concat(q) && k <= |p| && k <= |q|
    requires forall i | 0 <= i < k :: |p[i]| == |q[i]|
    ensures forall i | 0 <= i < k :: p[i] == q[i]
    ensures Concat(p[k..]) == Concat(q[k..])
  {
    if k > 0 {
      assert p[0] == Concat(p)[..|p[0]|] && q[0] == Concat(q)[..|q[0]|];
      assert Concat(p[1..]) == Concat(p)[|p[0]|..] && Concat(q[1..]) == Concat(q)[|q[0]|..];
      ConcatPrefix(p[1..], q[1..], k - 1);
      assert forall i | 1 <= i < k :: p[i] == p[1..][i - 1] && q[i] == q[1..][i - 1];
      assert p[k..] == p[1..][k - 1..] && q[k..] == q[1..][k - 1..];
    }
  }

  lemma SameFields(p: seq<Bytes>, q: seq<Bytes>)
    requires Concat(p) == Concat(q) && |p| == |q| && forall i | 0 <= i < |p| :: |p[i]| == |q[i]|
    ensures p == q
  {
    ConcatPrefix(p, q, |p|);
  }

  lemma LeInjective(a: nat, b: nat, w: nat)
    requires a < Pow(0x100, w) && b < Pow(0x100, w) && Le(a, w) == Le(b, w)
    ensures a == b
  {
    LeInverse(a, w);
    LeInverse(b, w);
  }

  lemma PlacementInjective(s: Statement, t: Statement)
    requires s.Placement? && t.Placement? && s.Preimage() == t.Preimage()
    ensures s == t
  {
    Widths();
    var p, q := s.Fields(), t.Fields();
    hide Le, Concat, Pow;
    SameFields(p, q);
    assert p[1] == q[1] && p[2] == q[2] && p[3] == q[3] && p[4] == q[4] && p[5] == q[5];
    assert p[6] == q[6] && p[7] == q[7] && p[8] == q[8];
    LeInjective(s.coord, t.coord, 2);
    LeInjective(s.ts, t.ts, 8);
  }

  lemma MessageInjective(s: Statement, t: Statement)
    requires s.Message? && t.Message? && s.Fits() && t.Fits() && s.Preimage() == t.Preimage()
    ensures s == t
  {
    Widths();
    var p, q := s.Fields(), t.Fields();
    hide Le, Concat, Pow;
    ConcatPrefix(p, q, 7);
    assert p[6] == q[6];
    LeInjective(|s.content|, |t.content|, 4);
    SameFields(p, q);
    assert p[1] == q[1] && p[2] == q[2] && p[3] == q[3] && p[4] == q[4] && p[5] == q[5] && p[7] == q[7];
    LeInjective(s.ts, t.ts, 8);
    LeInjective(s.seqNo, t.seqNo, 4);
  }

  lemma NicknameInjective(s: Statement, t: Statement)
    requires s.Nickname? && t.Nickname? && s.Fits() && t.Fits() && s.Preimage() == t.Preimage()
    ensures s == t
  {
    Widths();
    var p, q := s.Fields(), t.Fields();
    hide Le, Concat, Pow;
    ConcatPrefix(p, q, 5);
    assert p[4] == q[4];
    LeInjective(|s.name|, |t.name|, 4);
    SameFields(p, q);
    assert p[1] == q[1] && p[2] == q[2] && p[3] == q[3] && p[5] == q[5];
    LeInjective(s.version, t.version, 8);
  }

  lemma ChallengeInjective(s: Statement, t: Statement)
    requires s.Challenge? && t.Challenge? && s.Preimage() == t.Preimage()
    ensures s == t
  {
    hide Concat;
    SameFields(s.Fields(), t.Fields());
    assert s.Fields()[1] == t.Fields()[1] && s.Fields()[2] == t.Fields()[2];
  }

  lemma AdmissionInjective(s: Statement, t: Statement)
    requires s.Admission? && t.Admission? && s.Fits() && t.Fits() && s.Preimage() == t.Preimage()
    ensures s == t
  {
    Widths();
    var p, q := s.Fields(), t.Fields();
    hide Le, Concat, Pow;
    ConcatPrefix(p, q, 5);
    assert p[1] == q[1] && p[2] == q[2] && p[3] == q[3] && p[4] == q[4];
    LeInjective(s.admittedTs, t.admittedTs, 8);
    if s.proof.Work? {
      SameFields(p, q);
      assert p[5] == q[5];
      LeInjective(s.proof.nonce, t.proof.nonce, 8);
    } else {
      GhostkeyLengths(s.proof, t.proof, p, q);
      SameFields(p, q);
      assert p[6] == q[6] && p[8] == q[8] && p[10] == q[10];
    }
  }

  lemma GhostkeyLengths(a: Proof, b: Proof, p: seq<Bytes>, q: seq<Bytes>)
    requires a.Ghostkey? && b.Ghostkey? && Concat(p) == Concat(q)
    requires |p| == 11 && |q| == 11 && p[4..] == ProofFields(a) && q[4..] == ProofFields(b)
    requires forall i | 0 <= i < 4 :: |p[i]| == |q[i]|
    requires |a.scopedPayload| < 0x1_0000_0000 && |a.signature| < 0x1_0000_0000 && |a.certificatePem| < 0x1_0000_0000
    requires |b.scopedPayload| < 0x1_0000_0000 && |b.signature| < 0x1_0000_0000 && |b.certificatePem| < 0x1_0000_0000
    ensures forall i | 0 <= i < 11 :: |p[i]| == |q[i]|
  {
    Widths();
    assert forall i | 4 <= i < 11 :: p[i] == ProofFields(a)[i - 4] && q[i] == ProofFields(b)[i - 4];
    hide Le, Concat, Pow;
    ConcatPrefix(p, q, 6);
    assert p[5] == q[5];
    LeInjective(|a.scopedPayload|, |b.scopedPayload|, 4);
    ConcatPrefix(p, q, 8);
    assert p[7] == q[7];
    LeInjective(|a.signature|, |b.signature|, 4);
    ConcatPrefix(p, q, 10);
    assert p[9] == q[9];
    LeInjective(|a.certificatePem|, |b.certificatePem|, 4);
  }

  lemma PointerInjective(s: Statement, t: Statement)
    requires s.Pointer? && t.Pointer? && s.Fits() && t.Fits() && s.Preimage() == t.Preimage()
    ensures s == t
  {
    Widths();
    var p, q := s.Fields(), t.Fields();
    hide Le, Concat, Pow;
    ConcatPrefix(p, q, 5);
    assert p[1] == q[1] && p[2] == q[2] && p[3] == q[3] && p[4] == q[4];
    LeInjective(s.instance, t.instance, 8);
    LeInjective(s.version, t.version, 8);
    var k := if s.currentApp.None? then 5 else 6;
    ConcatPrefix(p, q, k + 1);
    assert p[k] == q[k] && p[k - 1] == q[k - 1];
    LeInjective(|s.prevApps|, |t.prevApps|, 4);
    SameFields(p, q);
    forall i | 0 <= i < |s.prevApps|
      ensures s.prevApps[i] == t.prevApps[i]
    {
      assert p[k + 1 + i] == s.prevApps[i] && q[k + 1 + i] == t.prevApps[i];
    }
    assert p[|p| - 1] == s.webHash && q[|q| - 1] == t.webHash;
  }

  /** The letters in which the contexts differ. */
  function Letters(s: Statement): (byte, byte) {
    match s
    case Placement(_, _, _, _, _, _, _, _) => (0x74, 0x65)
    case Message(_, _, _, _, _, _) => (0x63, 0x61)
    case Admission(_, _, _, _) => (0x72, 0x61)
    case Nickname(_, _, _, _) => (0x72, 0x6e)
    case Challenge(_, _) => (0x72, 0x63)
    case Pointer(_, _, _, _, _, _) => (0x66, 0x69)
  }

  lemma ContextLetters(s: Statement)
    ensures |s.Preimage()| > 19 && s.Preimage()[10] == Letters(s).0 && s.Preimage()[19] == Letters(s).1
  {
    var p := s.Fields();
    hide Le;
    assert Concat(p) == p[0] + Concat(p[1..]);
  }

  /** A preimage determines the statement: its kind, every parameter and every field. */
  lemma PreimageInjective(s: Statement, t: Statement)
    requires s.Fits() && t.Fits() && s.Preimage() == t.Preimage()
    ensures s == t
  {
    hide Statement.Preimage, Statement.Fields, Statement.Fits;
    ContextLetters(s);
    ContextLetters(t);
    if s.Placement? { PlacementInjective(s, t); }
    if s.Message? { MessageInjective(s, t); }
    if s.Admission? { AdmissionInjective(s, t); }
    if s.Nickname? { NicknameInjective(s, t); }
    if s.Challenge? { ChallengeInjective(s, t); }
    if s.Pointer? { PointerInjective(s, t); }
  }
}
