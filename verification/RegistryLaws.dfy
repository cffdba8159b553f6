/** Registry convergence: merging is a pointwise join of smallest core and highest
    nickname, a semilattice exactly where ties are coherent; deltas; what any history
    of admissions and renames comes to. */
module RegistryLaws {
  import opened Bytes
  import opened Orders
  import opened Outcomes
  import opened RegistryValues

  ghost function Join(a: Identities, b: Identities): Identities {
    map id | id in a.Keys + b.Keys ::
      if id in a && id in b then Resolve(a[id], b[id]) else if id in a then a[id] else b[id]
  }

  ghost function Within(b: Identities, ids: set<Bytes32>): Identities {
    map id | id in b && id in ids :: b[id]
  }

  lemma ResolveAgain(x: AdmissionRecord, r: AdmissionRecord)
    ensures Resolve(Resolve(x, r), r) == Resolve(x, r) && Resolve(r, r) == r
  {
    BytesOrder();
  }

  ghost function IdentitiesOf(rs: seq<AdmissionRecord>): set<Bytes32> {
    set r | r in rs :: r.identity
  }

  /** r is what becomes of x and y: the core of the one admitted first, with the smaller
      signature if both are as early; the nickname of the higher version, with the greater
      signature if both are as high; neither depends on the other. */
  ghost predicate Settles(r: AdmissionRecord, x: AdmissionRecord, y: AdmissionRecord) {
    && (Core(r) == Core(x) || Core(r) == Core(y)) && NotBefore(x, r) && NotBefore(y, r)
    && (r.nickname == x.nickname || r.nickname == y.nickname)
    && (x.nickname.Some? ==> r.nickname.Some? && NotHigher(x.nickname.value, r.nickname.value))
    && (y.nickname.Some? ==> r.nickname.Some? && NotHigher(y.nickname.value, r.nickname.value))
  }

  lemma ResolveSettles(x: AdmissionRecord, y: AdmissionRecord)
    ensures Settles(Resolve(x, y), x, y)
  {
    BytesOrder();
    hide BytesLess;
  }

  /** Only the record's identity is touched. */
  lemma WithRecordSettles(m: Identities, r: AdmissionRecord)
    ensures var n := WithRecord(m, r);
      && n.Keys == m.Keys + {r.identity}
      && (forall id | id in m && id != r.identity :: n[id] == m[id])
      && (if r.identity in m then Settles(n[r.identity], m[r.identity], r) else n[r.identity] == r)
  {
    hide Resolve, Settles;
    if r.identity in m { ResolveSettles(m[r.identity], r); }
  }

  lemma JoinSettles(a: Identities, b: Identities)
    ensures var j := Join(a, b);
      && j.Keys == a.Keys + b.Keys
      && forall id | id in j ::
           if id in a && id in b then Settles(j[id], a[id], b[id]) else j[id] == if id in a then a[id] else b[id]
  {
    hide Resolve, Settles;
    forall id | id in a && id in b
      ensures Settles(Resolve(a[id], b[id]), a[id], b[id])
    {
      ResolveSettles(a[id], b[id]);
    }
  }

  lemma JoinOne(m: Identities, b: Identities, ids: set<Bytes32>, r: AdmissionRecord)
    requires r.identity in b && b[r.identity] == r
    ensures WithRecord(Join(m, Within(b, ids)), r) == Join(m, Within(b, ids + {r.identity}))
  {
    hide *;
    var single := map[r.identity := r];
    RecordIsJoin(Join(m, Within(b, ids)), r);
    JoinAssociates(m, Within(b, ids), single);
    WithinMore(b, ids, r);
  }

  lemma RecordIsJoin(m: Identities, r: AdmissionRecord)
    ensures WithRecord(m, r) == Join(m, map[r.identity := r])
  {
    hide Resolve;
  }

  lemma WithinMore(b: Identities, ids: set<Bytes32>, r: AdmissionRecord)
    requires r.identity in b && b[r.identity] == r
    ensures Join(Within(b, ids), map[r.identity := r]) == Within(b, ids + {r.identity})
  {
    hide Resolve;
    ResolveAgain(r, r);
  }

  lemma {:induction false} InsertedPointwise(m: Identities, rs: seq<AdmissionRecord>, b: Identities)
    requires forall r | r in rs :: r.identity in b && b[r.identity] == r
    ensures WithRecords(m, rs) == Join(m, Within(b, IdentitiesOf(rs)))
  {
    hide WithRecord;
    if rs == [] {
      assert Join(m, Within(b, {})) == m;
    } else {
      var init, last := rs[..|rs| - 1], rs[|rs| - 1];
      InsertedPointwise(m, init, b);
      JoinOne(m, b, IdentitiesOf(init), last);
      assert rs == init + [last];
      assert IdentitiesOf(rs) == IdentitiesOf(init) + {last.identity};
    }
  }

  /** Inserting every record of a well-keyed state, in any order, is the join. */
  lemma MergeIsJoin(m: Identities, b: Identities, rs: seq<AdmissionRecord>)
    requires Keyed(b) && Elems(rs) == b.Values
    ensures WithRecords(m, rs) == Join(m, b)
  {
    forall r | r in rs
      ensures r.identity in b && b[r.identity] == r
    {
      assert r in Elems(rs);
    }
    InsertedPointwise(m, rs, b);
    forall id | id in b
      ensures id in IdentitiesOf(rs)
    {
      assert b[id] in Elems(rs);
    }
    assert Within(b, IdentitiesOf(rs)) == b;
  }

  // ---- The semilattice ------------------------------------------------------------------------

  function Core(r: AdmissionRecord): AdmissionRecord { r.(nickname := None) }

  /** Equal core keys carry equal cores, equal nickname keys carry equal nicknames. */
  ghost predicate CoherentCores(x: AdmissionRecord, y: AdmissionRecord) {
    x.admittedTs == y.admittedTs && x.signature == y.signature ==> Core(x) == Core(y)
  }

  ghost predicate CoherentNicknames(x: Nickname, y: Nickname) {
    x.version == y.version && x.signature == y.signature ==> x == y
  }

  ghost predicate CoherentAt(x: AdmissionRecord, y: AdmissionRecord) {
    && CoherentCores(x, y)
    && (x.nickname.Some? && y.nickname.Some? ==> CoherentNicknames(x.nickname.value, y.nickname.value))
  }

  ghost predicate Coherent(a: Identities, b: Identities) {
    forall id | id in a && id in b :: CoherentAt(a[id], b[id])
  }

  lemma ResolveCommutes(x: AdmissionRecord, y: AdmissionRecord)
    ensures Resolve(x, y) == Resolve(y, x) <==> CoherentAt(x, y)
  {
    BytesOrder();
    hide BytesLess;
  }

  lemma BetterAssociates(x: Option<Nickname>, y: Option<Nickname>, z: Option<Nickname>)
    ensures BetterNickname(BetterNickname(x, y), z) == BetterNickname(x, BetterNickname(y, z))
  {
    BytesOrder();
    hide BytesLess;
  }

  lemma ResolveAssociates(x: AdmissionRecord, y: AdmissionRecord, z: AdmissionRecord)
    ensures Resolve(Resolve(x, y), z) == Resolve(x, Resolve(y, z))
  {
    BetterAssociates(x.nickname, y.nickname, z.nickname);
    hide BetterNickname, BytesLess;
    BytesOrder();
  }

  lemma JoinAssociates(a: Identities, b: Identities, c: Identities)
    ensures Join(Join(a, b), c) == Join(a, Join(b, c))
  {
    hide Resolve;
    var left, right := Join(Join(a, b), c), Join(a, Join(b, c));
    assert left.Keys == right.Keys;
    forall id | id in left
      ensures left[id] == right[id]
    {
      if id in a && id in b && id in c { ResolveAssociates(a[id], b[id], c[id]); }
    }
  }

  lemma JoinCommutes(a: Identities, b: Identities)
    ensures Join(a, b) == Join(b, a) <==> Coherent(a, b)
  {
    hide Resolve, CoherentAt;
    var ab, ba := Join(a, b), Join(b, a);
    assert ab.Keys == ba.Keys;
    forall id | id in ab
      ensures ab[id] == ba[id] <==> (id in a && id in b ==> CoherentAt(a[id], b[id]))
    {
      if id in a && id in b { ResolveCommutes(a[id], b[id]); }
    }
    if ab == ba {
      forall id | id in a && id in b
        ensures CoherentAt(a[id], b[id])
      {
        assert id in ab;
      }
    }
  }

  lemma JoinAbsorbs(a: Identities, b: Identities)
    ensures Join(Join(a, b), b) == Join(a, b) && Join(a, a) == a
  {
    hide Resolve;
    assert Join(Join(a, b), b).Keys == Join(a, b).Keys && Join(a, a).Keys == a.Keys;
    forall id | id in Join(a, b)
      ensures Join(Join(a, b), b)[id] == Join(a, b)[id]
    {
      if id in b { ResolveAgain(if id in a then a[id] else b[id], b[id]); }
    }
    forall id | id in a
      ensures Join(a, a)[id] == a[id]
    {
      ResolveAgain(a[id], a[id]);
    }
  }

  /** Merging commutes exactly where ties are coherent; it always associates, absorbs
      repetition and has the empty registry as unit. */
  lemma MergeSemilattice(a: Identities, b: Identities, c: Identities)
    ensures Join(a, b) == Join(b, a) <==> Coherent(a, b)
    ensures Join(Join(a, b), c) == Join(a, Join(b, c))
    ensures Join(Join(a, b), b) == Join(a, b) && Join(a, a) == a
    ensures Join(a, map[]) == a && Join(map[], a) == a
  {
    hide Join, Coherent;
    JoinCommutes(a, b);
    JoinAssociates(a, b, c);
    JoinAbsorbs(a, b);
    JoinUnit(a);
  }

  lemma JoinUnit(a: Identities)
    ensures Join(a, map[]) == a && Join(map[], a) == a
  {
    hide Resolve;
  }

  /** Two admissions tied in time and signature but with different proofs: each side keeps
      its own, however often they merge. */
  lemma TieKeepsOwn(x: AdmissionRecord, y: AdmissionRecord)
    requires x.identity == y.identity && x.admittedTs == y.admittedTs && x.signature == y.signature
    requires x.proof != y.proof
    ensures var a, b := map[x.identity := x], map[y.identity := y];
      && Core(Join(a, b)[x.identity]) == Core(x) && Core(Join(b, a)[x.identity]) == Core(y)
      && Join(a, b) != Join(b, a)
  {
    hide BetterNickname;
    BytesOrder();
    var a, b := map[x.identity := x], map[y.identity := y];
    assert Join(a, b)[x.identity].proof == x.proof && Join(b, a)[x.identity].proof == y.proof;
  }

  // ---- Histories --------------------------------------------------------------------------------

  ghost predicate LeastCore(r: AdmissionRecord, id: Bytes32, cores: set<AdmissionRecord>) {
    r.identity == id && Core(r) in cores && forall c | c in cores && c.identity == id :: NotBefore(c, r)
  }

  ghost predicate HighestName(n: Option<Nickname>, id: Bytes32, names: set<NicknameUpdate>) {
    && (n.Some? ==> NicknameUpdate(id, n.value) in names)
    && (forall u | u in names && u.identity == id :: n.Some? && NotHigher(u.nickname, n.value))
  }

  /** m holds the smallest of the cores and the highest of the nicknames, each on its own. */
  ghost predicate Represents(m: Identities, cores: set<AdmissionRecord>, names: set<NicknameUpdate>) {
    && (forall id | id in m :: LeastCore(m[id], id, cores) && HighestName(m[id].nickname, id, names))
    && (forall c | c in cores :: c.identity in m)
    && (forall u | u in names :: u.identity in m)
  }

  ghost function NamesOfRecord(r: AdmissionRecord): set<NicknameUpdate> {
    if r.nickname.Some? then {NicknameUpdate(r.identity, r.nickname.value)} else {}
  }

  lemma LeastOfBoth(x: AdmissionRecord, y: AdmissionRecord, id: Bytes32, cx: set<AdmissionRecord>, cy: set<AdmissionRecord>)
    requires LeastCore(x, id, cx) && LeastCore(y, id, cy)
    ensures LeastCore(Resolve(x, y), id, cx + cy)
  {
    BytesOrder();
    hide BytesLess, BetterNickname;
    var r := Resolve(x, y);
    assert Core(r) == Core(x) || Core(r) == Core(y);
    assert forall c :: NotBefore(c, r) <==> NotBefore(c, if CoreLess(y, x) then y else x);
  }

  lemma HighestOfBoth(x: Option<Nickname>, y: Option<Nickname>, id: Bytes32, nx: set<NicknameUpdate>, ny: set<NicknameUpdate>)
    requires HighestName(x, id, nx) && HighestName(y, id, ny)
    ensures HighestName(BetterNickname(x, y), id, nx + ny)
  {
    BytesOrder();
    hide BytesLess;
  }

  lemma LeastOfOthers(x: AdmissionRecord, id: Bytes32, cx: set<AdmissionRecord>, cy: set<AdmissionRecord>)
    requires LeastCore(x, id, cx) && forall c | c in cy :: c.identity != id
    ensures LeastCore(x, id, cx + cy) && LeastCore(x, id, cy + cx)
  {
    hide NotBefore;
  }

  lemma HighestOfOthers(x: Option<Nickname>, id: Bytes32, nx: set<NicknameUpdate>, ny: set<NicknameUpdate>)
    requires HighestName(x, id, nx) && forall u | u in ny :: u.identity != id
    ensures HighestName(x, id, nx + ny) && HighestName(x, id, ny + nx)
  {
    hide NotHigher;
  }

  lemma JoinRepresents(
      a: Identities, ca: set<AdmissionRecord>, na: set<NicknameUpdate>,
      b: Identities, cb: set<AdmissionRecord>, nb: set<NicknameUpdate>)
    requires Represents(a, ca, na) && Represents(b, cb, nb)
    ensures Represents(Join(a, b), ca + cb, na + nb)
  {
    var j := Join(a, b);
    hide LeastCore, HighestName, Join;
    JoinShape(a, b);
    forall id | id in j
      ensures LeastCore(j[id], id, ca + cb) && HighestName(j[id].nickname, id, na + nb)
    {
      if id in a && id in b {
        LeastOfBoth(a[id], b[id], id, ca, cb);
        HighestOfBoth(a[id].nickname, b[id].nickname, id, na, nb);
      } else if id in a {
        LeastOfOthers(a[id], id, ca, cb);
        HighestOfOthers(a[id].nickname, id, na, nb);
      } else {
        LeastOfOthers(b[id], id, cb, ca);
        HighestOfOthers(b[id].nickname, id, nb, na);
      }
    }
  }

  lemma JoinShape(a: Identities, b: Identities)
    ensures var j := Join(a, b);
      && j.Keys == a.Keys + b.Keys
      && (forall id | id in a && id in b :: j[id] == Resolve(a[id], b[id])
                                            && j[id].nickname == BetterNickname(a[id].nickname, b[id].nickname))
      && (forall id | id in a && id !in b :: j[id] == a[id])
      && (forall id | id !in a && id in b :: j[id] == b[id])
  {
  }

  lemma AdmitRepresents(m: Identities, cores: set<AdmissionRecord>, names: set<NicknameUpdate>, r: AdmissionRecord)
    requires Represents(m, cores, names)
    ensures Represents(WithRecord(m, r), cores + {Core(r)}, names + NamesOfRecord(r))
  {
    hide Represents, Join, Resolve;
    var single := map[r.identity := r];
    SingleRepresents(r);
    JoinRepresents(m, cores, names, single, {Core(r)}, NamesOfRecord(r));
    RecordIsJoin(m, r);
  }

  lemma SingleRepresents(r: AdmissionRecord)
    ensures Represents(map[r.identity := r], {Core(r)}, NamesOfRecord(r))
  {
    BytesOrder();
    hide BytesLess;
  }

  lemma RenameRepresents(m: Identities, cores: set<AdmissionRecord>, names: set<NicknameUpdate>, u: NicknameUpdate)
    requires Represents(m, cores, names)
    ensures u.identity in m ==> Represents(WithNickname(m, u), cores, names + {u})
    ensures u.identity !in m ==> WithNickname(m, u) == m
  {
    if u.identity in m {
      assert HighestName(Some(u.nickname), u.identity, {u}) by { BytesOrder(); }
      HighestOfBoth(m[u.identity].nickname, Some(u.nickname), u.identity, names, {u});
      var m' := WithNickname(m, u);
      forall id | id in m'
        ensures LeastCore(m'[id], id, cores) && HighestName(m'[id].nickname, id, names + {u})
      {
        hide HighestName;
        if id != u.identity { HighestOfOthers(m[id].nickname, id, names, {u}); }
      }
    }
  }

  /** Coherent histories determine the state. */
  lemma OneStatePerHistory(m: Identities, m': Identities, cores: set<AdmissionRecord>, names: set<NicknameUpdate>)
    requires Represents(m, cores, names) && Represents(m', cores, names)
    requires CoherentHistory(cores, names)
    ensures m == m'
  {
    forall id | id in m
      ensures id in m' && m[id] == m'[id]
    {
      assert Core(m[id]) in cores && Core(m[id]).identity == id;
      SameCore(m[id], m'[id], id, cores, names);
      SameName(m[id].nickname, m'[id].nickname, id, cores, names);
    }
    forall id | id in m'
      ensures id in m
    {
      assert Core(m'[id]) in cores && Core(m'[id]).identity == id;
    }
  }

  ghost predicate CoherentHistory(cores: set<AdmissionRecord>, names: set<NicknameUpdate>) {
    && (forall x, y | x in cores && y in cores && x.identity == y.identity :: CoherentCores(x, y))
    && (forall x, y | x in names && y in names && x.identity == y.identity :: CoherentNicknames(x.nickname, y.nickname))
  }

  lemma SameCore(x: AdmissionRecord, y: AdmissionRecord, id: Bytes32, cores: set<AdmissionRecord>, names: set<NicknameUpdate>)
    requires LeastCore(x, id, cores) && LeastCore(y, id, cores) && CoherentHistory(cores, names)
    ensures Core(x) == Core(y)
  {
    BytesOrder();
    hide BytesLess;
    assert CoherentCores(Core(x), Core(y));
    assert NotBefore(Core(x), y) && NotBefore(Core(y), x);
  }

  lemma SameName(x: Option<Nickname>, y: Option<Nickname>, id: Bytes32, cores: set<AdmissionRecord>, names: set<NicknameUpdate>)
    requires HighestName(x, id, names) && HighestName(y, id, names) && CoherentHistory(cores, names)
    ensures x == y
  {
    BytesOrder();
    hide BytesLess;
    if x.Some? { assert NicknameUpdate(id, x.value) in names; }
    if y.Some? { assert NicknameUpdate(id, y.value) in names; }
  }

  /** Where a replica's state comes from: operations on the empty registry, merges included. */
  datatype Past =
    | Nothing
    | Admit(before: Past, record: AdmissionRecord)
    | Rename(before: Past, update: NicknameUpdate)
    | MergeWith(before: Past, other: Past)

  ghost function State(p: Past): Identities {
    match p
    case Nothing => map[]
    case Admit(before, r) => WithRecord(State(before), r)
    case Rename(before, u) => WithNickname(State(before), u)
    case MergeWith(before, q) => Join(State(before), State(q))
  }

  ghost function CoresOf(p: Past): set<AdmissionRecord> {
    match p
    case Nothing => {}
    case Admit(before, r) => CoresOf(before) + {Core(r)}
    case Rename(before, _) => CoresOf(before)
    case MergeWith(before, q) => CoresOf(before) + CoresOf(q)
  }

  /** Renames count where the identity was already admitted. */
  ghost function NamesOf(p: Past): set<NicknameUpdate> {
    match p
    case Nothing => {}
    case Admit(before, r) => NamesOf(before) + NamesOfRecord(r)
    case Rename(before, u) => NamesOf(before) + if u.identity in State(before) then {u} else {}
    case MergeWith(before, q) => NamesOf(before) + NamesOf(q)
  }

  /** Every replica, whatever it did, holds the least core and the highest nickname of all
      it admitted, renamed or received by merging. */
  lemma {:induction false} EveryPastRepresents(p: Past)
    ensures Represents(State(p), CoresOf(p), NamesOf(p))
  {
    hide Represents, WithRecord, WithNickname, Join;
    match p
    case Nothing => NothingRepresents();
    case Admit(before, r) =>
      EveryPastRepresents(before);
      AdmitRepresents(State(before), CoresOf(before), NamesOf(before), r);
    case Rename(before, u) =>
      EveryPastRepresents(before);
      RenameRepresents(State(before), CoresOf(before), NamesOf(before), u);
      assert NamesOf(before) + {} == NamesOf(before);
    case MergeWith(before, q) =>
      EveryPastRepresents(before);
      EveryPastRepresents(q);
      JoinRepresents(State(before), CoresOf(before), NamesOf(before), State(q), CoresOf(q), NamesOf(q));
  }

  lemma RepresentsKeyed(m: Identities, cores: set<AdmissionRecord>, names: set<NicknameUpdate>)
    requires Represents(m, cores, names)
    ensures Keyed(m)
  {
  }

  /** A summary over a history: the admitted identities, each with its highest version. */
  ghost predicate HighestVersions(s: Summary, cores: set<AdmissionRecord>, names: set<NicknameUpdate>) {
    && (forall id :: id in s <==> exists c :: c in cores && c.identity == id)
    && (forall u | u in names :: u.identity in s && u.nickname.version <= s[u.identity])
    && (forall id | id in s && s[id] != 0 ::
          exists u :: u in names && u.identity == id && u.nickname.version == s[id])
  }

  lemma SummaryIsHighest(m: Identities, s: Summary, cores: set<AdmissionRecord>, names: set<NicknameUpdate>)
    requires Represents(m, cores, names)
    requires s.Keys == m.Keys && forall id | id in m :: s[id] == VersionOf(m[id].nickname)
    ensures HighestVersions(s, cores, names)
  {
    hide NotBefore;
    forall id | id in s
      ensures exists c :: c in cores && c.identity == id
      ensures s[id] != 0 ==> exists u :: u in names && u.identity == id && u.nickname.version == s[id]
    {
      assert Core(m[id]) in cores && Core(m[id]).identity == id;
      if s[id] != 0 {
        assert NicknameUpdate(id, m[id].nickname.value) in names;
      }
    }
  }

  lemma NothingRepresents()
    ensures Represents(map[], {}, {})
  {
  }

  /** So replicas with the same coherent history agree. */
  lemma Converges(p: Past, q: Past)
    requires CoresOf(p) == CoresOf(q) && NamesOf(p) == NamesOf(q) && CoherentHistory(CoresOf(p), NamesOf(p))
    ensures State(p) == State(q)
  {
    EveryPastRepresents(p);
    EveryPastRepresents(q);
    hide Represents, State, CoresOf, NamesOf, CoherentHistory;
    OneStatePerHistory(State(p), State(q), CoresOf(p), NamesOf(p));
  }

  /** A rename that arrives before its admission is lost. */
  lemma EarlyRenameIsLost(r: AdmissionRecord, n: Nickname)
    requires r.nickname == None
    ensures State(Admit(Rename(Nothing, NicknameUpdate(r.identity, n)), r)) == map[r.identity := r]
    ensures State(Rename(Admit(Nothing, r), NicknameUpdate(r.identity, n))) == map[r.identity := r.(nickname := Some(n))]
  {
    assert State(Nothing) == map[];
    assert State(Admit(Nothing, r)) == map[r.identity := r];
  }

  // ---- Deltas -----------------------------------------------------------------------------------

  ghost predicate Renames(us: seq<NicknameUpdate>, id: Bytes32) {
    exists u :: u in us && u.identity == id
  }

  lemma RenamesSnoc(us: seq<NicknameUpdate>, last: NicknameUpdate)
    ensures forall id :: Renames(us + [last], id) <==> id == last.identity || Renames(us, id)
  {
    forall id
      ensures Renames(us + [last], id) <==> id == last.identity || Renames(us, id)
    {
      if id == last.identity { assert last in us + [last]; }
      if Renames(us, id) {
        var u :| u in us && u.identity == id;
        assert u in us + [last];
      }
    }
  }

  lemma {:induction false} NamedPointwise(m: Identities, us: seq<NicknameUpdate>, b: Identities)
    requires forall u | u in us :: u.identity in b && b[u.identity].nickname == Some(u.nickname)
    ensures var r := WithNicknames(m, us);
      && r.Keys == m.Keys
      && forall id | id in m :: r[id] ==
           if Renames(us, id)
           then m[id].(nickname := BetterNickname(m[id].nickname, b[id].nickname)) else m[id]
  {
    if us != [] {
      var init, last := us[..|us| - 1], us[|us| - 1];
      NamedPointwise(m, init, b);
      assert us == init + [last];
      RenamesSnoc(init, last);
      hide BetterNickname, Renames;
      if last.identity in m { BetterAgain(m[last.identity].nickname, last.nickname); }
      assert WithNicknames(m, us) == WithNickname(WithNicknames(m, init), last);
    }
  }

  lemma BetterAgain(x: Option<Nickname>, n: Nickname)
    ensures BetterNickname(BetterNickname(x, Some(n)), Some(n)) == BetterNickname(x, Some(n))
  {
    BytesOrder();
  }

  ghost function SummaryOf(m: Identities): Summary {
    map id | id in m :: VersionOf(m[id].nickname)
  }

  /** What b sends to the owner of a's summary. */
  ghost predicate IsDelta(d: RegistryDelta, a: Identities, b: Identities) {
    && Elems(d.admissions) == Admissions(b, SummaryOf(a), b.Keys)
    && Elems(d.nicknames) == Nicknames(b, SummaryOf(a), b.Keys)
  }

  ghost function Applied(a: Identities, d: RegistryDelta): Identities {
    WithNicknames(WithRecords(a, d.admissions), d.nicknames)
  }

  /** The summary tells enough about y's record to its peer's record x: it carries no
      admission core, and a nickname only by its version. */
  ghost predicate Told(x: AdmissionRecord, y: AdmissionRecord) {
    && NotBefore(y, x)
    && !(y.nickname.Some? && y.nickname.value.version == VersionOf(x.nickname)
         && (x.nickname.Some? ==> BytesLess(x.nickname.value.signature, y.nickname.value.signature)))
  }

  ghost function AfterDelta(x: AdmissionRecord, y: AdmissionRecord): AdmissionRecord {
    if y.nickname.Some? && y.nickname.value.version > VersionOf(x.nickname)
    then x.(nickname := BetterNickname(x.nickname, y.nickname)) else x
  }

  lemma ToldExact(x: AdmissionRecord, y: AdmissionRecord)
    requires x.identity == y.identity
    ensures AfterDelta(x, y) == Resolve(x, y) <==> Told(x, y)
  {
    BytesOrder();
    hide BytesLess;
  }

  lemma AppliedPointwise(a: Identities, b: Identities, d: RegistryDelta)
    requires Keyed(b) && IsDelta(d, a, b)
    ensures var r := Applied(a, d);
      && r.Keys == a.Keys + b.Keys
      && (forall id | id in a && id !in b :: r[id] == a[id])
      && (forall id | id in b && id !in a :: r[id] == b[id])
      && (forall id | id in a && id in b :: r[id] == AfterDelta(a[id], b[id]))
  {
    AdmittedPointwise(a, b, d.admissions);
    var m := WithRecords(a, d.admissions);
    NicknamesSent(a, b, d);
    NamedPointwise(m, d.nicknames, b);
    hide WithRecords, WithNicknames, BetterNickname, Nicknames, Admissions;
    forall id | id in m && id !in b
      ensures !Renames(d.nicknames, id)
    {
    }
  }

  lemma AdmittedPointwise(a: Identities, b: Identities, rs: seq<AdmissionRecord>)
    requires Keyed(b) && Elems(rs) == Admissions(b, SummaryOf(a), b.Keys)
    ensures var m := WithRecords(a, rs);
      && m.Keys == a.Keys + b.Keys
      && (forall id | id in a :: m[id] == a[id])
      && (forall id | id in b && id !in a :: m[id] == b[id])
  {
    forall r | r in rs
      ensures r.identity in b && b[r.identity] == r && r.identity !in a
    {
      assert r in Elems(rs);
    }
    InsertedPointwise(a, rs, b);
    hide WithRecords, Resolve;
    forall id | id in b && id !in a
      ensures id in IdentitiesOf(rs)
    {
      assert b[id] in Elems(rs);
    }
  }

  lemma NicknamesSent(a: Identities, b: Identities, d: RegistryDelta)
    requires Keyed(b) && IsDelta(d, a, b)
    ensures forall u | u in d.nicknames :: u.identity in b && b[u.identity].nickname == Some(u.nickname)
    ensures forall id | id in b :: Renames(d.nicknames, id) <==>
      id in a && b[id].nickname.Some? && b[id].nickname.value.version > VersionOf(a[id].nickname)
  {
    var s := SummaryOf(a);
    forall u | u in d.nicknames
      ensures u.identity in b && b[u.identity].nickname == Some(u.nickname) && NewerNickname(b, s, u.identity)
    {
      assert u in Elems(d.nicknames);
    }
    forall id | id in b && NewerNickname(b, s, id)
      ensures Renames(d.nicknames, id)
    {
      var u := NicknameUpdate(b[id].identity, b[id].nickname.value);
      assert u in Elems(d.nicknames);
    }
  }

  /** A delta equals the full merge exactly when, for every shared identity, b's core is not
      smaller and b's nickname is not ahead by signature alone. */
  lemma DeltaExact(a: Identities, b: Identities, d: RegistryDelta)
    requires Keyed(a) && Keyed(b) && IsDelta(d, a, b)
    ensures Applied(a, d) == Join(a, b) <==> forall id | id in a && id in b :: Told(a[id], b[id])
  {
    AppliedPointwise(a, b, d);
    hide Applied, AfterDelta, Resolve, Told, IsDelta;
    var r, j := Applied(a, d), Join(a, b);
    forall id | id in j
      ensures r[id] == j[id] <==> (id in a && id in b ==> Told(a[id], b[id]))
    {
      if id in a && id in b { ToldExact(a[id], b[id]); }
    }
    if r == j {
      forall id | id in a && id in b
        ensures Told(a[id], b[id])
      {
        assert id in j;
      }
    }
  }

  /** A registry is rebuilt from a part of it whose cores agree and whose nicknames are
      either its own or of lower version. */
  lemma DeltaRebuilds(a: Identities, b: Identities, d: RegistryDelta)
    requires Keyed(b) && IsDelta(d, a, b) && a.Keys <= b.Keys
    requires forall id | id in a ::
      && Core(a[id]) == Core(b[id])
      && (a[id].nickname == b[id].nickname || (b[id].nickname.Some? && b[id].nickname.value.version > VersionOf(a[id].nickname)))
    ensures Applied(a, d) == b
  {
    AppliedPointwise(a, b, d);
    hide Applied, IsDelta;
    forall id | id in b
      ensures Applied(a, d)[id] == b[id]
    {
      if id in a { assert Core(a[id]).(nickname := b[id].nickname) == b[id]; }
    }
  }

  // ---- What a delta brings ------------------------------------------------------------------------

  ghost function CoresIn(rs: seq<AdmissionRecord>): set<AdmissionRecord> {
    set r | r in rs :: Core(r)
  }

  ghost function NamesIn(rs: seq<AdmissionRecord>): set<NicknameUpdate> {
    set r | r in rs && r.nickname.Some? :: NicknameUpdate(r.identity, r.nickname.value)
  }

  /** The updates that land: those whose identity is admitted. */
  ghost function Landing(us: seq<NicknameUpdate>, admitted: set<Bytes32>): set<NicknameUpdate> {
    set u | u in us && u.identity in admitted
  }

  lemma {:induction false} AdmissionsRepresent(
      m: Identities, cores: set<AdmissionRecord>, names: set<NicknameUpdate>, rs: seq<AdmissionRecord>)
    requires Represents(m, cores, names)
    ensures Represents(WithRecords(m, rs), cores + CoresIn(rs), names + NamesIn(rs))
  {
    hide Represents, WithRecord, Core;
    if rs == [] {
      assert cores + CoresIn(rs) == cores && names + NamesIn(rs) == names;
    } else {
      var init, last := rs[..|rs| - 1], rs[|rs| - 1];
      AdmissionsRepresent(m, cores, names, init);
      AdmitRepresents(WithRecords(m, init), cores + CoresIn(init), names + NamesIn(init), last);
      assert rs == init + [last];
      assert cores + CoresIn(rs) == cores + CoresIn(init) + {Core(last)};
      assert names + NamesIn(rs) == names + NamesIn(init) + NamesOfRecord(last);
    }
  }

  lemma {:induction false} RenamesRepresent(
      m: Identities, cores: set<AdmissionRecord>, names: set<NicknameUpdate>, us: seq<NicknameUpdate>)
    requires Represents(m, cores, names)
    ensures Represents(WithNicknames(m, us), cores, names + Landing(us, m.Keys))
  {
    hide Represents, WithNickname;
    if us == [] {
      assert names + Landing(us, m.Keys) == names;
    } else {
      var init, last := us[..|us| - 1], us[|us| - 1];
      RenamesRepresent(m, cores, names, init);
      NamedKeys(m, init);
      RenameRepresents(WithNicknames(m, init), cores, names + Landing(init, m.Keys), last);
      assert us == init + [last];
      assert names + Landing(us, m.Keys) == names + Landing(init, m.Keys) + if last.identity in m then {last} else {};
      assert names + Landing(init, m.Keys) + {} == names + Landing(init, m.Keys);
    }
  }

  lemma {:induction false} AdmittedKeys(m: Identities, rs: seq<AdmissionRecord>)
    ensures WithRecords(m, rs).Keys == m.Keys + IdentitiesOf(rs)
  {
    hide Resolve;
    if rs != [] {
      AdmittedKeys(m, rs[..|rs| - 1]);
      assert rs == rs[..|rs| - 1] + [rs[|rs| - 1]];
    }
  }

  /** A delta joins its admissions to the history, and the nicknames whose identity is then
      admitted, those riding with their own admission included. */
  lemma DeltaRepresents(m: Identities, cores: set<AdmissionRecord>, names: set<NicknameUpdate>, d: RegistryDelta)
    requires Represents(m, cores, names)
    ensures Represents(Applied(m, d), cores + CoresIn(d.admissions),
      names + NamesIn(d.admissions) + Landing(d.nicknames, m.Keys + IdentitiesOf(d.admissions)))
  {
    hide Represents, WithRecords, WithNicknames, CoresIn, NamesIn, Landing;
    AdmissionsRepresent(m, cores, names, d.admissions);
    AdmittedKeys(m, d.admissions);
    RenamesRepresent(
      WithRecords(m, d.admissions), cores + CoresIn(d.admissions), names + NamesIn(d.admissions), d.nicknames);
  }

  lemma BetterIsAbove(x: Option<Nickname>, n: Nickname, k: Nickname)
    ensures var b := BetterNickname(x, Some(n));
      && b.Some? && NotHigher(n, b.value)
      && (x.Some? && NotHigher(k, x.value) ==> NotHigher(k, b.value))
  {
    BytesOrder();
    hide BytesLess;
  }

  lemma {:induction false} NicknameLands(m: Identities, us: seq<NicknameUpdate>, u: NicknameUpdate)
    requires u in us && u.identity in m
    ensures var r := WithNicknames(m, us);
      u.identity in r && r[u.identity].nickname.Some? && NotHigher(u.nickname, r[u.identity].nickname.value)
  {
    var init, last := us[..|us| - 1], us[|us| - 1];
    assert us == init + [last];
    hide NotHigher, BetterNickname;
    NamedKeys(m, init);
    BetterIsAbove(WithNicknames(m, init)[u.identity].nickname, last.nickname, u.nickname);
    if u in init { NicknameLands(m, init, u); }
  }

  lemma {:induction false} NamedKeys(m: Identities, us: seq<NicknameUpdate>)
    ensures WithNicknames(m, us).Keys == m.Keys
  {
    hide BetterNickname;
    if us != [] { NamedKeys(m, us[..|us| - 1]); }
  }

  /** On any registry: the identities afterwards, and no nickname of an admitted identity in
      the delta stays above the one stored. */
  lemma DeltaLands(m: Identities, d: RegistryDelta)
    ensures var r := Applied(m, d);
      && r.Keys == m.Keys + IdentitiesOf(d.admissions)
      && forall u | u in d.nicknames && u.identity in r ::
           r[u.identity].nickname.Some? && NotHigher(u.nickname, r[u.identity].nickname.value)
  {
    hide WithRecords, WithNicknames, NotHigher;
    AdmittedKeys(m, d.admissions);
    NamedKeys(WithRecords(m, d.admissions), d.nicknames);
    forall u | u in d.nicknames && u.identity in Applied(m, d)
      ensures var r := Applied(m, d);
        r[u.identity].nickname.Some? && NotHigher(u.nickname, r[u.identity].nickname.value)
    {
      NicknameLands(WithRecords(m, d.admissions), d.nicknames, u);
    }
  }

  lemma AppliedShape(m: Identities, d: RegistryDelta)
    ensures Applied(m, d) == WithNicknames(WithRecords(m, d.admissions), d.nicknames)
  {
  }

  lemma NamedStart(m: Identities, us: seq<NicknameUpdate>)
    ensures WithNicknames(m, us[..0]) == m && us[..|us|] == us
  {
  }

  lemma NamedStep(m: Identities, us: seq<NicknameUpdate>, i: nat)
    requires i < |us|
    ensures WithNicknames(m, us[..i + 1]) == WithNickname(WithNicknames(m, us[..i]), us[i])
  {
    assert us[..i + 1][..i] == us[..i];
  }
}
