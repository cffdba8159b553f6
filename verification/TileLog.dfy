/** Placement logs (common/src/tile.rs) as values: per-author maps from timestamp to
    signed placement, the sets they denote, and the two capped layers of a tile. The
    key type A is the author id itself in Rust and its hex string in TypeScript. */
module TileLog {
  import opened Bytes
  import opened Orders
  import opened Choice
  import opened Stores
  import opened Layers

  const MAX_PLACEMENTS_PER_AUTHOR: nat := 8
  const MAX_BAKED_PER_AUTHOR: nat := 65536

  /** coord is y * 256 + x inside the tile. */
  datatype SignedPlacement = SignedPlacement(
    coord: u16, color: u8, ts: u64, author: Bytes32, signature: Bytes64)

  datatype Slot = Slot(author: Bytes32, ts: u64)

  type Log = map<u64, SignedPlacement>

  /** Strictly greater (signature, coord, color). */
  predicate Beats(a: SignedPlacement, b: SignedPlacement) {
    BytesLess(b.signature, a.signature)
    || (a.signature == b.signature && (b.coord < a.coord || (a.coord == b.coord && b.color < a.color)))
  }

  /** p keeps its slot against q: a greater signature, or an equal one with a greater coord,
      or both equal with a color not smaller. */
  ghost predicate HoldsSlot(p: SignedPlacement, q: SignedPlacement) {
    BytesLess(q.signature, p.signature)
    || (q.signature == p.signature && q.coord < p.coord)
    || (q.signature == p.signature && q.coord == p.coord && q.color <= p.color)
  }

  lemma HoldsSlotExact(p: SignedPlacement, q: SignedPlacement)
    ensures HoldsSlot(p, q) <==> !Beats(q, p)
  {
    BytesOrder();
    hide BytesLess;
  }

  function SlotWinner(a: SignedPlacement, b: SignedPlacement): SignedPlacement {
    if Beats(b, a) then b else a
  }

  predicate TimeLess(a: u64, b: u64) { a < b }

  lemma TimeLessTotal()
    ensures StrictTotal(TimeLess)
  {
  }

  // ---- One layer as a store ----------------------------------------------------------

  function SlotOf(p: SignedPlacement): Slot { Slot(p.author, p.ts) }

  ghost function TimesOf(slots: set<Slot>, author: Bytes32): set<u64> {
    set s | s in slots && s.author == author :: s.ts
  }

  /** Every author's newest cap timestamps. */
  ghost function Newest(slots: set<Slot>, cap: nat): set<Slot> {
    set s | s in slots && s.ts in Top(TimeLess, TimesOf(slots, s.author), cap)
  }

  ghost function Layer(cap: nat): Store<SignedPlacement, Slot> {
    Store(SlotOf, Beats, (slots: set<Slot>) => Newest(slots, cap))
  }

  ghost function Tiles(logCap: nat, bakedCap: nat): Stack<SignedPlacement, Slot> {
    Stack(Layer(logCap), Layer(bakedCap))
  }

  lemma TopPathIndependent(a: set<u64>, b: set<u64>, cap: nat)
    ensures Top(TimeLess, Top(TimeLess, a, cap) + b, cap) == Top(TimeLess, a + b, cap)
  {
    TimeLessTotal();
    var keep := (s: set<u64>) => Top(TimeLess, s, cap);
    forall x: set<u64>, y: set<u64>, k | x <= y && k in x && k in keep(y)
      ensures k in keep(x)
    {
      TopHeredity(TimeLess, x, y, cap, k);
    }
    forall x: set<u64>, y: set<u64> | x <= y
      ensures |keep(x)| <= |keep(y)|
    {
      TopSize(TimeLess, x, cap);
      TopSize(TimeLess, y, cap);
      SubsetSize(x, y);
    }
    PathIndependence(keep);
    assert keep(keep(a) + b) == keep(a + b);
  }

  lemma NewestPathIndependent(a: set<Slot>, b: set<Slot>, cap: nat)
    ensures Newest(Newest(a, cap) + b, cap) == Newest(a + b, cap)
  {
    hide Top, TimeLess;
    forall author
      ensures Top(TimeLess, TimesOf(Newest(a, cap) + b, author), cap) == Top(TimeLess, TimesOf(a + b, author), cap)
    {
      TimesOfNewest(a, author, cap);
      TimesOfUnion(Newest(a, cap), b, author);
      TimesOfUnion(a, b, author);
      TopPathIndependent(TimesOf(a, author), TimesOf(b, author), cap);
    }
    forall s | s in Newest(a + b, cap)
      ensures s in Newest(a, cap) + b
    {
      if s in a { NewestInPart(a, a + b, s, cap); }
    }
  }

  lemma TimesOfUnion(a: set<Slot>, b: set<Slot>, author: Bytes32)
    ensures TimesOf(a + b, author) == TimesOf(a, author) + TimesOf(b, author)
  {
  }

  lemma TimesOfNewest(a: set<Slot>, author: Bytes32, cap: nat)
    ensures TimesOf(Newest(a, cap), author) == Top(TimeLess, TimesOf(a, author), cap)
  {
    forall t | t in Top(TimeLess, TimesOf(a, author), cap)
      ensures t in TimesOf(Newest(a, cap), author)
    {
      assert t in TimesOf(a, author);
      var s :| s in a && s.author == author && s.ts == t;
      assert s in Newest(a, cap);
    }
  }

  lemma NewestInPart(a: set<Slot>, b: set<Slot>, s: Slot, cap: nat)
    requires a <= b && s in a && s in Newest(b, cap)
    ensures s in Newest(a, cap)
  {
    assert s.ts in TimesOf(a, s.author);
    assert TimesOf(a, s.author) <= TimesOf(b, s.author);
    TopHeredity(TimeLess, TimesOf(a, s.author), TimesOf(b, s.author), cap, s.ts);
  }

  lemma LayerLawful(cap: nat)
    ensures Layer(cap).Lawful()
  {
    hide Newest;
    BytesOrder();
    var keep := Layer(cap).keep;
    forall s
      ensures keep(s) <= s
    {
      NewestContracts(s, cap);
    }
    forall a, b, x | a <= b && x in a && x in keep(b)
      ensures x in keep(a)
    {
      NewestInPart(a, b, x, cap);
    }
    forall a, b
      ensures keep(keep(a) + b) == keep(a + b)
    {
      NewestPathIndependent(a, b, cap);
    }
  }

  lemma NewestContracts(s: set<Slot>, cap: nat)
    ensures Newest(s, cap) <= s
  {
  }

  lemma TilesLawful(logCap: nat, bakedCap: nat)
    ensures Tiles(logCap, bakedCap).Lawful()
  {
    LayerLawful(logCap);
    LayerLawful(bakedCap);
  }

  // ---- Logs and the sets they denote ---------------------------------------------------

  type Logs<A> = map<A, Log>

  ghost function All<A>(logs: Logs<A>): set<SignedPlacement> {
    set a, t | a in logs && t in logs[a] :: logs[a][t]
  }

  /** Author keys are in bijection with authors. */
  ghost predicate Keying<A>(key: Bytes32 -> A) {
    forall a, b | key(a) == key(b) :: a == b
  }

  ghost predicate KeyedLogs<A(!new)>(logs: Logs<A>, key: Bytes32 -> A) {
    && Keying(key)
    && (forall a | a in logs :: logs[a] != map[])
    && (forall a, t | a in logs && t in logs[a] :: key(logs[a][t].author) == a && logs[a][t].ts == t)
  }

  ghost predicate CappedLogs<A(!new)>(logs: Logs<A>, cap: nat) {
    forall a | a in logs :: |logs[a]| <= cap
  }

  function LogOf<A(==)>(logs: Logs<A>, a: A): Log {
    if a in logs then logs[a] else map[]
  }

  /** Membership in the set of a well-keyed map of logs is a lookup. */
  lemma InAll<A(!new)>(logs: Logs<A>, key: Bytes32 -> A, p: SignedPlacement)
    requires KeyedLogs(logs, key)
    ensures p in All(logs) <==> p.ts in LogOf(logs, key(p.author)) && LogOf(logs, key(p.author))[p.ts] == p
  {
  }

  /** Well-keyed logs and the set of their placements determine each other. */
  lemma SamePlacementsSameLogs<A(!new)>(x: Logs<A>, y: Logs<A>, key: Bytes32 -> A)
    requires KeyedLogs(x, key) && KeyedLogs(y, key) && All(x) == All(y)
    ensures x == y
  {
    hide All, KeyedLogs;
    LogsWithin(x, y, key);
    LogsWithin(y, x, key);
    forall a | a in x
      ensures x[a] == y[a]
    {
    }
  }

  lemma LogsWithin<A(!new)>(x: Logs<A>, y: Logs<A>, key: Bytes32 -> A)
    requires KeyedLogs(x, key) && KeyedLogs(y, key) && All(x) <= All(y)
    ensures forall a | a in x :: a in y && forall t | t in x[a] :: t in y[a] && y[a][t] == x[a][t]
  {
    forall a | a in x
      ensures a in y && forall t | t in x[a] :: t in y[a] && y[a][t] == x[a][t]
    {
      forall t | t in x[a]
        ensures a in y && t in y[a] && y[a][t] == x[a][t]
      {
        assert x[a][t] in All(x);
        InAll(y, key, x[a][t]);
      }
      var t :| t in x[a];
    }
  }

  // ---- One insertion into one log -------------------------------------------------------

  ghost function LogWith(log: Log, p: SignedPlacement): Log {
    log[p.ts := if p.ts in log then SlotWinner(log[p.ts], p) else p]
  }

  ghost function Kept(log: Log, cap: nat): Log {
    map t | t in log && t in Top(TimeLess, log.Keys, cap) :: log[t]
  }

  ghost function Displaced(log: Log, cap: nat): set<SignedPlacement> {
    set t | t in log && t !in Top(TimeLess, log.Keys, cap) :: log[t]
  }

  /** The logs after inserting p under the author key a. */
  ghost function Put<A>(logs: Logs<A>, a: A, p: SignedPlacement, cap: nat): Logs<A> {
    logs[a := Kept(LogWith(LogOf(logs, a), p), cap)]
  }

  lemma KeptSize(log: Log, cap: nat)
    ensures |Kept(log, cap)| == if |log| <= cap then |log| else cap
    ensures log != map[] && cap >= 1 ==> Kept(log, cap) != map[]
  {
    TimeLessTotal();
    TopSize(TimeLess, log.Keys, cap);
    assert Kept(log, cap).Keys == Top(TimeLess, log.Keys, cap);
    assert |log| == |log.Keys| && |Kept(log, cap)| == |Kept(log, cap).Keys|;
  }

  lemma PutKeyed<A(!new)>(logs: Logs<A>, key: Bytes32 -> A, p: SignedPlacement, cap: nat)
    requires KeyedLogs(logs, key) && CappedLogs(logs, cap) && cap >= 1
    ensures KeyedLogs(Put(logs, key(p.author), p, cap), key)
    ensures CappedLogs(Put(logs, key(p.author), p, cap), cap)
  {
    hide Top, LogWith, Kept;
    var a := key(p.author);
    var w := LogWith(LogOf(logs, a), p);
    LogWithKeyed(logs, key, p);
    KeptSize(w, cap);
    KeptWithin(w, cap);
    var put: Logs<A> := Put(logs, a, p, cap);
    forall b: A, t: u64 | b in put && t in put[b]
      ensures key(put[b][t].author) == b && put[b][t].ts == t
    {
    }
  }

  lemma KeptWithin(log: Log, cap: nat)
    ensures forall t | t in Kept(log, cap) :: t in log && Kept(log, cap)[t] == log[t]
  {
  }

  lemma TimesAreKeys<A(!new)>(logs: Logs<A>, key: Bytes32 -> A, author: Bytes32, cap: nat)
    requires KeyedLogs(logs, key)
    ensures TimesOf(Layer(cap).Slots(All(logs)), author) == LogOf(logs, key(author)).Keys
  {
    var st := Layer(cap);
    forall t | t in LogOf(logs, key(author))
      ensures t in TimesOf(st.Slots(All(logs)), author)
    {
      var p := logs[key(author)][t];
      assert p in All(logs) && st.slot(p) == Slot(author, t);
    }
  }

  lemma TimesWith<A(!new)>(logs: Logs<A>, key: Bytes32 -> A, p: SignedPlacement, author: Bytes32, cap: nat)
    requires KeyedLogs(logs, key)
    ensures TimesOf(Layer(cap).Slots(All(logs) + {p}), author)
         == if author == p.author then LogWith(LogOf(logs, key(author)), p).Keys else LogOf(logs, key(author)).Keys
  {
    var st := Layer(cap);
    TimesAreKeys(logs, key, author, cap);
    st.SlotsOfUnion(All(logs), {p});
    assert st.slot(p) == Slot(p.author, p.ts);
    assert st.Slots({p}) == {Slot(p.author, p.ts)};
    TimesOfUnion(st.Slots(All(logs)), {Slot(p.author, p.ts)}, author);
  }

  lemma BeatsPair(p: SignedPlacement, q: SignedPlacement)
    ensures !(Beats(p, q) && Beats(q, p))
    ensures p == q || p.author != q.author || p.ts != q.ts || Beats(p, q) || Beats(q, p)
  {
    BytesOrder();
  }

  lemma FiledUnder<A(!new)>(logs: Logs<A>, key: Bytes32 -> A, author: Bytes32, t: u64)
    requires KeyedLogs(logs, key) && t in LogOf(logs, key(author))
    ensures var p := LogOf(logs, key(author))[t]; p in All(logs) && p.author == author && p.ts == t
  {
  }

  /** The slot winners after offering p are the logs with p resolved into its slot. */
  lemma BestWith<A(!new)>(logs: Logs<A>, key: Bytes32 -> A, p: SignedPlacement, e: SignedPlacement, cap: nat)
    requires KeyedLogs(logs, key)
    ensures Layer(cap).Best(All(logs) + {p}, e) <==>
      var log := LogOf(logs, key(e.author));
      var w := if e.author == p.author then LogWith(log, p) else log;
      e.ts in w && w[e.ts] == e
  {
    hide Beats, All, KeyedLogs;
    var st, all := Layer(cap), All(logs) + {p};
    BeatsPair(p, p);
    InAll(logs, key, e);
    var log := LogOf(logs, key(e.author));
    if e.ts in log {
      var q := log[e.ts];
      FiledUnder(logs, key, e.author, e.ts);
      assert st.slot(q) == st.slot(e);
      BeatsPair(p, q);
      BeatsPair(q, q);
    }
    assert st.slot(p) == Slot(p.author, p.ts);
    forall f | f in all && st.slot(f) == st.slot(e)
      ensures f == p || (e.ts in log && f == log[e.ts])
    {
      InAll(logs, key, f);
    }
  }

  /** Inserting into the author's log computes the layer's normal form. */
  lemma PutIsNormal<A(!new)>(logs: Logs<A>, key: Bytes32 -> A, p: SignedPlacement, cap: nat)
    requires KeyedLogs(logs, key) && CappedLogs(logs, cap) && cap >= 1
    ensures All(Put(logs, key(p.author), p, cap)) == Layer(cap).Normal(All(logs) + {p})
    ensures Displaced(LogWith(LogOf(logs, key(p.author)), p), cap) == Layer(cap).Rest(All(logs) + {p})
  {
    hide Top, Beats, LogWith, TimesOf;
    var st, all, a := Layer(cap), All(logs) + {p}, key(p.author);
    var w := LogWith(LogOf(logs, a), p);
    var put := Put(logs, a, p, cap);
    PutKeyed(logs, key, p, cap);
    forall e
      ensures e in All(put) <==> e in st.Normal(all)
    {
      InAll(put, key, e);
      BestWith(logs, key, p, e, cap);
      KeptSlot(logs, key, p, e, cap);
    }
    forall e
      ensures e in Displaced(w, cap) <==> e in st.Rest(all)
    {
      BestWith(logs, key, p, e, cap);
      KeptSlot(logs, key, p, e, cap);
      LogWithKeyed(logs, key, p);
    }
  }

  lemma LogWithKeyed<A(!new)>(logs: Logs<A>, key: Bytes32 -> A, p: SignedPlacement)
    requires KeyedLogs(logs, key)
    ensures var w := LogWith(LogOf(logs, key(p.author)), p);
      p.ts in w && forall t | t in w :: w[t].author == p.author && w[t].ts == t
  {
    hide Beats;
  }

  lemma KeptSlot<A(!new)>(logs: Logs<A>, key: Bytes32 -> A, p: SignedPlacement, e: SignedPlacement, cap: nat)
    requires KeyedLogs(logs, key) && CappedLogs(logs, cap)
    ensures Layer(cap).slot(e) in Layer(cap).keep(Layer(cap).Slots(All(logs) + {p})) <==>
      var log := LogOf(logs, key(e.author));
      if e.author == p.author then e.ts in Top(TimeLess, LogWith(log, p).Keys, cap) else e.ts in log
  {
    var st, slot := Layer(cap), Slot(e.author, e.ts);
    var slots := st.Slots(All(logs) + {p});
    TimesWith(logs, key, p, e.author, cap);
    NewestSlot(slots, slot, cap);
    if e.author != p.author {
      var log := LogOf(logs, key(e.author));
      TimeLessTotal();
      assert |log| == |log.Keys|;
      TopSmall(TimeLess, log.Keys, cap);
    }
  }

  /** A slot is kept when its time is among the newest of its author. */
  lemma NewestSlot(slots: set<Slot>, s: Slot, cap: nat)
    ensures s in Newest(slots, cap) <==> s.ts in Top(TimeLess, TimesOf(slots, s.author), cap)
  {
    if s.ts in TimesOf(slots, s.author) {
      var r :| r in slots && r.author == s.author && r.ts == s.ts;
      assert r == s;
    }
  }

  // ---- Whole states ------------------------------------------------------------------

  function Own(a: Bytes32): Bytes32 { a }

  ghost predicate KeyedTile<A(!new)>(
    live: Logs<A>, baked: Logs<A>, key: Bytes32 -> A, logCap: nat, bakedCap: nat)
  {
    && KeyedLogs(live, key) && CappedLogs(live, logCap)
    && KeyedLogs(baked, key) && CappedLogs(baked, bakedCap)
  }

  ghost function View<A>(live: Logs<A>, baked: Logs<A>): Pair<SignedPlacement> {
    Pair(All(live), All(baked))
  }

  lemma LayerAbsorbs(cap: nat, a: set<SignedPlacement>, b: set<SignedPlacement>)
    ensures Layer(cap).Normal(Layer(cap).Normal(a) + b) == Layer(cap).Normal(a + b)
  {
    LayerLawful(cap);
    Layer(cap).NormalAbsorbs(a, b);
  }

  /** Capped, well-keyed logs are settled, whatever their timestamps. */
  lemma LogsAreNormal<A(!new)>(logs: Logs<A>, key: Bytes32 -> A, cap: nat)
    requires KeyedLogs(logs, key) && CappedLogs(logs, cap)
    ensures Layer(cap).Normal(All(logs)) == All(logs)
  {
    hide All, Top;
    var st, all := Layer(cap), All(logs);
    LayerLawful(cap);
    forall p | p in all
      ensures st.slot(p) in st.keep(st.Slots(all))
    {
      InAll(logs, key, p);
      TimesAreKeys(logs, key, p.author, cap);
      NewestSlot(st.Slots(all), Slot(p.author, p.ts), cap);
      TimeLessTotal();
      var log := LogOf(logs, key(p.author));
      assert |log| == |log.Keys|;
      TopSmall(TimeLess, log.Keys, cap);
    }
    forall p, q | p in all && q in all && st.slot(p) == st.slot(q)
      ensures p == q
    {
      InAll(logs, key, p);
      InAll(logs, key, q);
    }
    st.AlreadyNormal(all) by {
      assert forall k | k in st.Slots(all) :: k in st.keep(st.Slots(all));
      NewestContracts(st.Slots(all), cap);
    }
  }

  lemma TileIsSettled<A(!new)>(
      live: Logs<A>, baked: Logs<A>, key: Bytes32 -> A, logCap: nat, bakedCap: nat)
    requires KeyedTile(live, baked, key, logCap, bakedCap)
    ensures Tiles(logCap, bakedCap).Settled(View(live, baked))
  {
    hide All;
    LogsAreNormal(live, key, logCap);
    LogsAreNormal(baked, key, bakedCap);
  }

  lemma SameViewSameTile<A(!new)>(
      live: Logs<A>, baked: Logs<A>, live': Logs<A>, baked': Logs<A>, key: Bytes32 -> A, logCap: nat, bakedCap: nat)
    requires KeyedTile(live, baked, key, logCap, bakedCap) && KeyedTile(live', baked', key, logCap, bakedCap)
    requires View(live, baked) == View(live', baked')
    ensures live == live' && baked == baked'
  {
    hide All;
    SamePlacementsSameLogs(live, live', key);
    SamePlacementsSameLogs(baked, baked', key);
  }

  /** Baking a placement over everything offered to the baked layer so far. */
  lemma BakeStep<A(!new)>(
      baked: Logs<A>, offered: set<SignedPlacement>, key: Bytes32 -> A, p: SignedPlacement, cap: nat)
    requires KeyedLogs(baked, key) && CappedLogs(baked, cap) && cap >= 1
    requires All(baked) == Layer(cap).Normal(offered)
    ensures KeyedLogs(Put(baked, key(p.author), p, cap), key)
    ensures CappedLogs(Put(baked, key(p.author), p, cap), cap)
    ensures All(Put(baked, key(p.author), p, cap)) == Layer(cap).Normal(offered + {p})
  {
    hide *;
    PutKeyed(baked, key, p, cap);
    PutIsNormal(baked, key, p, cap);
    LayerAbsorbs(cap, offered, {p});
  }

  /** A new live log and a baked layer offered the displaced placements are the join
      with the inserted placement. */
  lemma InsertIsJoin<A(!new)>(
      live: Logs<A>, baked: Logs<A>, baked': Logs<A>, key: Bytes32 -> A, p: SignedPlacement,
      logCap: nat, bakedCap: nat)
    requires KeyedTile(live, baked, key, logCap, bakedCap) && logCap >= 1
    requires KeyedLogs(baked', key) && CappedLogs(baked', bakedCap)
    requires All(baked') == Layer(bakedCap).Normal(
      All(baked) + Displaced(LogWith(LogOf(live, key(p.author)), p), logCap))
    ensures KeyedTile(Put(live, key(p.author), p, logCap), baked', key, logCap, bakedCap)
    ensures View(Put(live, key(p.author), p, logCap), baked')
         == Tiles(logCap, bakedCap).Join(View(live, baked), Pair({p}, {}))
  {
    hide All, Put, Displaced, Layer, KeyedLogs, CappedLogs;
    PutKeyed(live, key, p, logCap);
    PutIsNormal(live, key, p, logCap);
    assert All(baked) + {} == All(baked);
  }

  lemma BakeIsJoin<A(!new)>(
      live: Logs<A>, baked: Logs<A>, key: Bytes32 -> A, p: SignedPlacement, logCap: nat, bakedCap: nat)
    requires KeyedTile(live, baked, key, logCap, bakedCap) && bakedCap >= 1
    ensures KeyedTile(live, Put(baked, key(p.author), p, bakedCap), key, logCap, bakedCap)
    ensures View(live, Put(baked, key(p.author), p, bakedCap))
         == Tiles(logCap, bakedCap).Join(View(live, baked), Pair({}, {p}))
  {
    hide *;
    TileShape(live, baked, key, logCap, bakedCap);
    PutKeyed(baked, key, p, bakedCap);
    PutIsNormal(baked, key, p, bakedCap);
    LogsAreNormal(live, key, logCap);
    TilesLawful(logCap, bakedCap);
    StackShape(logCap, bakedCap, View(live, baked), Pair({}, {p}));
    Tiles(logCap, bakedCap).RestOfSettled(All(live));
    TileShape(live, Put(baked, key(p.author), p, bakedCap), key, logCap, bakedCap);
    assert All(live) + {} == All(live);
    assert All(baked) + {p} + {} == All(baked) + {p};
  }

  lemma TileShape<A(!new)>(live: Logs<A>, baked: Logs<A>, key: Bytes32 -> A, logCap: nat, bakedCap: nat)
    ensures View(live, baked) == Pair(All(live), All(baked))
    ensures KeyedTile(live, baked, key, logCap, bakedCap) <==>
      && KeyedLogs(live, key) && CappedLogs(live, logCap)
      && KeyedLogs(baked, key) && CappedLogs(baked, bakedCap)
  {
  }

  lemma StackShape(logCap: nat, bakedCap: nat, a: Pair<SignedPlacement>, b: Pair<SignedPlacement>)
    ensures Tiles(logCap, bakedCap).upper == Layer(logCap)
    ensures Tiles(logCap, bakedCap).Join(a, b) ==
      Pair(Layer(logCap).Normal(a.live + b.live),
           Layer(bakedCap).Normal(a.baked + b.baked + Layer(logCap).Rest(a.live + b.live)))
  {
    hide Layer;
  }

  // ---- Iteration order ------------------------------------------------------------------

  function FirstTime(times: set<u64>): (t: u64)
    requires times != {}
    ensures t in times && forall u | u in times && u != t :: t < u
  {
    TimeLessTotal();
    Least(TimeLess, times)
  }

  function SortedTimes(times: set<u64>): (q: seq<u64>)
    ensures Elems(q) == times && |q| == |times| && Ascending(TimeLess, q)
  {
    TimeLessTotal();
    Sorted(TimeLess, times)
  }

  predicate AuthorLess(a: Bytes32, b: Bytes32) { BytesLess(a, b) }

  lemma AuthorLessTotal()
    ensures StrictTotal(AuthorLess)
  {
    BytesOrder();
  }

  function SortedAuthors(authors: set<Bytes32>): (q: seq<Bytes32>)
    ensures Elems(q) == authors && |q| == |authors| && Ascending(AuthorLess, q)
  {
    AuthorLessTotal();
    Sorted(AuthorLess, authors)
  }

  function LogAt(log: Log, times: seq<u64>): (r: seq<SignedPlacement>)
    requires forall t | t in times :: t in log
    ensures |r| == |times| && forall i | 0 <= i < |times| :: r[i] == log[times[i]]
  {
    seq(|times|, i requires 0 <= i < |times| => log[times[i]])
  }

  /** The values of a log, oldest first. */
  function LogValues(log: Log): (r: seq<SignedPlacement>)
    ensures Elems(r) == log.Values
  {
    var q := SortedTimes(log.Keys);
    assert forall t | t in q :: t in Elems(q);
    LogAtValues(log, q);
    LogAt(log, q)
  }

  lemma LogAtValues(log: Log, q: seq<u64>)
    requires Elems(q) == log.Keys && forall t | t in q :: t in log
    ensures Elems(LogAt(log, q)) == log.Values
  {
    var r := LogAt(log, q);
    forall v | v in log.Values
      ensures v in r
    {
      var t :| t in log && log[t] == v;
      assert t in Elems(q);
      var i :| 0 <= i < |q| && q[i] == t;
      assert r[i] == v;
    }
  }

  /** The placements of some of the logs. */
  ghost function Gathered<A>(logs: Logs<A>, authors: set<A>): set<SignedPlacement> {
    set a, t | a in logs && a in authors && t in logs[a] :: logs[a][t]
  }

  lemma GatheredStep<A>(logs: Logs<A>, q: seq<A>, i: nat)
    requires i < |q| && q[i] in logs
    ensures Gathered(logs, Elems(q[..i + 1])) == Gathered(logs, Elems(q[..i])) + logs[q[i]].Values
  {
    ElemsTake(q, i);
    forall v | v in logs[q[i]].Values
      ensures v in Gathered(logs, Elems(q[..i + 1]))
    {
      var t :| t in logs[q[i]] && logs[q[i]][t] == v;
    }
  }

  lemma GatheredAll<A>(logs: Logs<A>)
    ensures Gathered(logs, {}) == {} && Gathered(logs, logs.Keys) == All(logs)
  {
  }
}
