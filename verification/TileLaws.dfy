/** What the tile core promises over whole histories: the shape of reachable states,
    the merge algebra on every well-keyed capped state, and watermark synchronisation. */
module TileLaws {
  import opened Bytes
  import opened Orders
  import opened Choice
  import opened Stores
  import opened Layers
  import opened TileLog
  import opened Tile

  type View = Pair<SignedPlacement>

  ghost function Times(d: set<SignedPlacement>, author: Bytes32): set<u64> {
    set p | p in d && p.author == author :: p.ts
  }

  /** How many distinct later timestamps the author has in d. */
  ghost function Rank(d: set<SignedPlacement>, p: SignedPlacement): nat {
    |Above(TimeLess, Times(d, p.author), p.ts)|
  }

  /** Nothing in d beats p in its (author, timestamp) slot. */
  ghost predicate Winner(d: set<SignedPlacement>, p: SignedPlacement) {
    p in d && forall q | q in d && q.author == p.author && q.ts == p.ts :: HoldsSlot(p, q)
  }

  lemma TimesOfSlots(d: set<SignedPlacement>, author: Bytes32, cap: nat)
    ensures TimesOf(Layer(cap).Slots(d), author) == Times(d, author)
  {
    var st := Layer(cap);
    forall t | t in Times(d, author)
      ensures t in TimesOf(st.Slots(d), author)
    {
      var p :| p in d && p.author == author && p.ts == t;
      assert st.slot(p) == Slot(author, t) && st.slot(p) in st.Slots(d);
    }
  }

  /** A layer holds the slot winners among its authors' cap newest timestamps, and
      displaces the other slot winners. */
  lemma LayerShape(d: set<SignedPlacement>, p: SignedPlacement, cap: nat)
    ensures p in Layer(cap).Normal(d) <==> Winner(d, p) && Rank(d, p) < cap
    ensures p in Layer(cap).Rest(d) <==> Winner(d, p) && Rank(d, p) >= cap
  {
    var st := Layer(cap);
    TimesOfSlots(d, p.author, cap);
    NewestSlot(st.Slots(d), Slot(p.author, p.ts), cap);
    assert st.slot(p) == Slot(p.author, p.ts);
    assert p in d ==> p.ts in Times(d, p.author);
    forall q
      ensures HoldsSlot(p, q) <==> !Beats(q, p)
    {
      HoldsSlotExact(p, q);
    }
    hide Beats, HoldsSlot;
    assert st.Best(d, p) <==> Winner(d, p) by {
      assert forall q :: st.slot(q) == st.slot(p) <==> q.author == p.author && q.ts == p.ts;
    }
  }

  // ---- Reachable states ------------------------------------------------------------------

  ghost function From(d: set<SignedPlacement>, logCap: nat, bakedCap: nat): View {
    Tiles(logCap, bakedCap).From(d)
  }

  lemma FromShape(d: set<SignedPlacement>, logCap: nat, bakedCap: nat)
    ensures From(d, logCap, bakedCap)
         == Pair(Layer(logCap).Normal(d), Layer(bakedCap).Normal(Layer(logCap).Rest(d)))
  {
    hide Layer;
    var none: set<SignedPlacement> := {};
    assert d + none == d && none + none + Layer(logCap).Rest(d) == Layer(logCap).Rest(d);
  }

  /** Among the displaced, ranks start again after the cap. */
  lemma RankInRest(d: set<SignedPlacement>, p: SignedPlacement, cap: nat)
    requires p in Layer(cap).Rest(d)
    ensures Rank(d, p) == cap + Rank(Layer(cap).Rest(d), p)
  {
    hide Layer;
    var rest, times := Layer(cap).Rest(d), Times(d, p.author);
    TimeLessTotal();
    LayerShape(d, p, cap);
    RestTimes(d, p.author, cap);
    var top, low := Top(TimeLess, times, cap), Times(rest, p.author);
    TopSize(TimeLess, times, cap);
    assert p.ts in times && p.ts !in top;
    if |times| <= cap { TopSmall(TimeLess, times, cap); }
    forall t | t in top
      ensures TimeLess(p.ts, t)
    {
      TopAboveRest(TimeLess, times, cap, p.ts, t);
    }
    assert Above(TimeLess, times, p.ts) == top + Above(TimeLess, low, p.ts);
    assert top !! Above(TimeLess, low, p.ts);
  }

  lemma RestTimes(d: set<SignedPlacement>, author: Bytes32, cap: nat)
    ensures Times(Layer(cap).Rest(d), author) == Times(d, author) - Top(TimeLess, Times(d, author), cap)
  {
    hide Layer;
    var rest, times := Layer(cap).Rest(d), Times(d, author);
    forall t | t in times - Top(TimeLess, times, cap)
      ensures t in Times(rest, author)
    {
      var p :| p in d && p.author == author && p.ts == t;
      var w := WinnerExists(d, p);
      LayerShape(d, w, cap);
    }
    forall t | t in Times(rest, author)
      ensures t in times - Top(TimeLess, times, cap)
    {
      var p :| p in rest && p.author == author && p.ts == t;
      LayerShape(d, p, cap);
    }
  }

  lemma WinnerExists(d: set<SignedPlacement>, p: SignedPlacement) returns (w: SignedPlacement)
    requires p in d
    ensures Winner(d, w) && w.author == p.author && w.ts == p.ts
  {
    LayerLawful(0);
    w := Layer(0).BestExists(d, p);
    assert Layer(0).slot(w) == Layer(0).slot(p);
    forall q | q in d && q.author == w.author && q.ts == w.ts
      ensures HoldsSlot(w, q)
    {
      HoldsSlotExact(w, q);
      assert Layer(0).slot(q) == Layer(0).slot(w);
    }
  }

  /** After any history, each author's live log holds exactly the slot winners of its
      logCap newest timestamps and the baked log exactly those of the next bakedCap. */
  lemma NormalForm(d: set<SignedPlacement>, p: SignedPlacement, logCap: nat, bakedCap: nat)
    ensures p in From(d, logCap, bakedCap).live <==> Winner(d, p) && Rank(d, p) < logCap
    ensures p in From(d, logCap, bakedCap).baked <==> Winner(d, p) && logCap <= Rank(d, p) < logCap + bakedCap
  {
    hide Layer, Rank, From;
    FromShape(d, logCap, bakedCap);
    LayerShape(d, p, logCap);
    var rest := Layer(logCap).Rest(d);
    LayerShape(rest, p, bakedCap);
    if p in rest {
      RankInRest(d, p, logCap);
      forall q | q in rest
        ensures q in d
      {
        LayerShape(d, q, logCap);
      }
    }
  }

  /** So a baked timestamp is below every live one of its author, and baking only
      starts once the author's live log is full. */
  lemma BakedBelowLive(d: set<SignedPlacement>, p: SignedPlacement, logCap: nat, bakedCap: nat)
    requires p in From(d, logCap, bakedCap).baked
    ensures forall q | q in From(d, logCap, bakedCap).live && q.author == p.author :: p.ts < q.ts
    ensures |Times(From(d, logCap, bakedCap).live, p.author)| == logCap
  {
    hide From;
    NormalForm(d, p, logCap, bakedCap);
    var times, s := Times(d, p.author), From(d, logCap, bakedCap);
    TimeLessTotal();
    forall q | q in s.live && q.author == p.author
      ensures p.ts < q.ts
    {
      NormalForm(d, q, logCap, bakedCap);
      TopAboveRest(TimeLess, times, logCap, p.ts, q.ts);
    }
    LiveTimes(d, p.author, logCap, bakedCap);
    assert p.ts in times && p.ts !in Top(TimeLess, times, logCap);
    TopSize(TimeLess, times, logCap);
    if |times| <= logCap { TopSmall(TimeLess, times, logCap); }
  }

  lemma LiveTimes(d: set<SignedPlacement>, author: Bytes32, logCap: nat, bakedCap: nat)
    ensures Times(From(d, logCap, bakedCap).live, author) == Top(TimeLess, Times(d, author), logCap)
  {
    hide From;
    var s := From(d, logCap, bakedCap);
    forall t | t in Top(TimeLess, Times(d, author), logCap)
      ensures t in Times(s.live, author)
    {
      var p :| p in d && p.author == author && p.ts == t;
      var w := WinnerExists(d, p);
      NormalForm(d, w, logCap, bakedCap);
    }
    forall t | t in Times(s.live, author)
      ensures t in Top(TimeLess, Times(d, author), logCap)
    {
      var p :| p in s.live && p.author == author && p.ts == t;
      NormalForm(d, p, logCap, bakedCap);
    }
  }

  /** Both layers together are one log with the two caps added up. */
  lemma ContentsAreOneLog(d: set<SignedPlacement>, logCap: nat, bakedCap: nat)
    ensures From(d, logCap, bakedCap).live + From(d, logCap, bakedCap).baked == Layer(logCap + bakedCap).Normal(d)
  {
    hide *;
    forall p
      ensures p in From(d, logCap, bakedCap).live + From(d, logCap, bakedCap).baked
         <==> p in Layer(logCap + bakedCap).Normal(d)
    {
      NormalForm(d, p, logCap, bakedCap);
      LayerShape(d, p, logCap + bakedCap);
    }
  }

  /** The state depends only on the survivors of that one log. */
  lemma FromSurvivors(d: set<SignedPlacement>, logCap: nat, bakedCap: nat)
    ensures From(Layer(logCap + bakedCap).Normal(d), logCap, bakedCap) == From(d, logCap, bakedCap)
  {
    hide *;
    var n := Layer(logCap + bakedCap).Normal(d);
    forall p
      ensures p in From(n, logCap, bakedCap).live <==> p in From(d, logCap, bakedCap).live
      ensures p in From(n, logCap, bakedCap).baked <==> p in From(d, logCap, bakedCap).baked
    {
      NormalForm(n, p, logCap, bakedCap);
      NormalForm(d, p, logCap, bakedCap);
      SurvivorRank(d, p, logCap + bakedCap);
    }
    assert From(n, logCap, bakedCap).live == From(d, logCap, bakedCap).live;
    assert From(n, logCap, bakedCap).baked == From(d, logCap, bakedCap).baked;
  }

  lemma InSurvivors(d: set<SignedPlacement>, q: SignedPlacement, cap: nat)
    ensures q in Layer(cap).Normal(d) <==> Winner(d, q) && Rank(d, q) < cap
    ensures q in Layer(cap).Normal(d) ==> q in d
  {
    LayerShape(d, q, cap);
  }

  lemma SurvivorRank(d: set<SignedPlacement>, p: SignedPlacement, cap: nat)
    ensures Winner(Layer(cap).Normal(d), p) <==> Winner(d, p) && Rank(d, p) < cap
    ensures Rank(d, p) < cap ==> Rank(Layer(cap).Normal(d), p) == Rank(d, p)
  {
    hide Layer, HoldsSlot, Rank;
    var n := Layer(cap).Normal(d);
    forall q
      ensures q in n <==> Winner(d, q) && Rank(d, q) < cap
    {
      InSurvivors(d, q, cap);
    }
    if Rank(d, p) < cap { SurvivorsAbove(d, p, cap); }
  }

  lemma SurvivorsAbove(d: set<SignedPlacement>, p: SignedPlacement, cap: nat)
    requires Rank(d, p) < cap
    ensures Rank(Layer(cap).Normal(d), p) == Rank(d, p)
  {
    hide Layer, HoldsSlot;
    var n, high := Layer(cap).Normal(d), Above(TimeLess, Times(d, p.author), p.ts);
    forall t | t in high
      ensures t in Times(n, p.author)
    {
      var q :| q in d && q.author == p.author && q.ts == t;
      var w := WinnerExists(d, q);
      SubsetSize(Above(TimeLess, Times(d, p.author), t), high);
      InSurvivors(d, w, cap);
    }
    forall t | t in Above(TimeLess, Times(n, p.author), p.ts)
      ensures t in high
    {
      var q :| q in n && q.author == p.author && q.ts == t;
      InSurvivors(d, q, cap);
    }
    assert Above(TimeLess, Times(n, p.author), p.ts) == high;
  }

  /** A cap no author exceeds keeps all the slot winners, like any larger cap. */
  lemma LargerCapSame(d: set<SignedPlacement>, cap: nat, larger: nat)
    requires cap <= larger && forall p | p in d :: |Times(d, p.author)| <= cap
    ensures Layer(cap).Normal(d) == Layer(larger).Normal(d)
  {
    hide *;
    forall p | p in Layer(cap).Normal(d)
      ensures p in Layer(larger).Normal(d)
    {
      InSurvivors(d, p, cap);
      InSurvivors(d, p, larger);
    }
    forall p | p in Layer(larger).Normal(d)
      ensures p in Layer(cap).Normal(d)
    {
      InSurvivors(d, p, cap);
      InSurvivors(d, p, larger);
      RankBelow(d, p);
    }
  }

  lemma RankBelow(d: set<SignedPlacement>, p: SignedPlacement)
    requires p in d
    ensures Rank(d, p) < |Times(d, p.author)|
  {
    assert p.ts in Times(d, p.author);
    SubsetSize(Above(TimeLess, Times(d, p.author), p.ts), Times(d, p.author) - {p.ts});
  }

  // ---- The merge algebra ------------------------------------------------------------------

  /** Merging is a join semilattice on all well-keyed capped states with non-empty
      logs, even when baked entries are not older than live ones. */
  lemma MergeSemilattice(
      la: AuthorLogs, ba: AuthorLogs, lb: AuthorLogs, bb: AuthorLogs, c: View, logCap: nat, bakedCap: nat)
    requires Regular(la, ba, logCap, bakedCap) && Regular(lb, bb, logCap, bakedCap)
    ensures var join, a, b := (x, y) => Tiles(logCap, bakedCap).Join(x, y), TileLog.View(la, ba), TileLog.View(lb, bb);
      && join(a, b) == join(b, a)
      && join(join(a, b), c) == join(a, join(b, c))
      && join(a, a) == a
      && join(a, Pair({}, {})) == a && join(Pair({}, {}), a) == a
  {
    hide All, Layer, Stack.Join, Stack.Settled;
    var st, a, b := Tiles(logCap, bakedCap), TileLog.View(la, ba), TileLog.View(lb, bb);
    TilesLawful(logCap, bakedCap);
    st.JoinCommutes(a, b);
    st.JoinAssociates(a, b, c);
    TileIsSettled(la, ba, Own, logCap, bakedCap);
    st.JoinIdempotent(a);
    st.JoinCommutes(a, Pair({}, {}));
  }

  /** Inserting a delta is joining with the state built from the delta alone, and
      merging two histories' states is building from both histories. */
  lemma DeltaIsJoin(s: View, d: set<SignedPlacement>, e: set<SignedPlacement>, logCap: nat, bakedCap: nat)
    ensures Tiles(logCap, bakedCap).Join(s, Pair(d, {})) == Tiles(logCap, bakedCap).Join(s, From(d, logCap, bakedCap))
    ensures Tiles(logCap, bakedCap).Join(From(d, logCap, bakedCap), From(e, logCap, bakedCap)) == From(d + e, logCap, bakedCap)
    ensures Tiles(logCap, bakedCap).Join(From(d, logCap, bakedCap), Pair(e, {})) == From(d + e, logCap, bakedCap)
  {
    hide Layer, Stack.Join, Stack.From;
    var st := Tiles(logCap, bakedCap);
    TilesLawful(logCap, bakedCap);
    st.JoinHistory(s, d);
    st.JoinHistory(st.From(d), e);
    st.FromUnion(d, e);
  }

  // ---- Watermark synchronisation -----------------------------------------------------------

  /** A state some history of insertions leads to. */
  ghost predicate Reachable(s: View, logCap: nat, bakedCap: nat) {
    From(s.live + s.baked, logCap, bakedCap) == s
  }

  lemma FromIsReachable(d: set<SignedPlacement>, logCap: nat, bakedCap: nat)
    ensures Reachable(From(d, logCap, bakedCap), logCap, bakedCap)
  {
    hide From, Layer;
    ContentsAreOneLog(d, logCap, bakedCap);
    FromSurvivors(d, logCap, bakedCap);
  }

  /** A delta of placements d brings a to its merge with b exactly when every placement
      of the merged state is already held by a or in d. */
  lemma DeltaExact(a: View, b: View, d: set<SignedPlacement>, logCap: nat, bakedCap: nat)
    requires Reachable(a, logCap, bakedCap) && Reachable(b, logCap, bakedCap)
    requires d <= b.live + b.baked
    ensures var st := Tiles(logCap, bakedCap);
      var merged := st.Join(a, b);
      st.Join(a, Pair(d, {})) == merged <==> merged.live + merged.baked <= a.live + a.baked + d
  {
    hide From, Layer, Stack.Join;
    var ca, cb, st := a.live + a.baked, b.live + b.baked, Tiles(logCap, bakedCap);
    DeltaIsJoin(a, ca, cb, logCap, bakedCap);
    DeltaIsJoin(a, ca, d, logCap, bakedCap);
    var part, all, one := ca + d, ca + cb, Layer(logCap + bakedCap);
    ContentsAreOneLog(part, logCap, bakedCap);
    ContentsAreOneLog(all, logCap, bakedCap);
    FromSurvivors(part, logCap, bakedCap);
    FromSurvivors(all, logCap, bakedCap);
    LayerLawful(logCap + bakedCap);
    hide Store.Lawful;
    one.OnlySurvivorsMatter(part, all);
  }

  /** On any tiles, whatever their shape: the delta equals the merge exactly when neither
      makes anything survive that the other does not offer to the same layer. Live, that is
      everything both hold and send; baked, everything held, baked at b or displaced. */
  lemma DeltaExactAnywhere(a: View, b: View, d: set<SignedPlacement>, logCap: nat, bakedCap: nat)
    ensures var st := Tiles(logCap, bakedCap);
      var sent := Pair(d, {});
      var worn := st.lower.Normal(st.Fallen(a, sent) + st.Fallen(a, b));
      st.Join(a, sent) == st.Join(a, b) <==>
        && st.upper.Normal(a.live + d + b.live) <= a.live + d * b.live
        && worn <= st.Fallen(a, sent) && worn <= st.Fallen(a, b)
  {
    hide Layer, Stack.Join, Stack.Fallen;
    var st := Tiles(logCap, bakedCap);
    TilesLawful(logCap, bakedCap);
    st.SameJoin(a, Pair(d, {}), b);
    assert a.live + d + (a.live + b.live) == a.live + d + b.live;
    assert forall s :: s <= a.live + d && s <= a.live + b.live <==> s <= a.live + d * b.live;
  }

  /** a holds nothing as good in p's slot. */
  ghost predicate Lacks(a: View, p: SignedPlacement) {
    forall q | q in a.live + a.baked && q.author == p.author && q.ts == p.ts :: !HoldsSlot(q, p)
  }

  /** What a delta for the summary s carries of a well-keyed state. */
  ghost function Sent(s: Summary, b: View): set<SignedPlacement> {
    set p | p in b.live + b.baked && (p.author !in s || p.ts > s[p.author])
  }

  lemma SentIsMissing(s: Summary, live: AuthorLogs, baked: AuthorLogs)
    requires KeyedLogs(live, Own) && KeyedLogs(baked, Own)
    ensures MissingFrom(s, live) + MissingFrom(s, baked) == Sent(s, TileLog.View(live, baked))
  {
    SentOf(s, live);
    SentOf(s, baked);
  }

  lemma SentOf(s: Summary, logs: AuthorLogs)
    requires KeyedLogs(logs, Own)
    ensures MissingFrom(s, logs) == set p | p in All(logs) && (p.author !in s || p.ts > s[p.author])
  {
    forall p | p in All(logs) && (p.author !in s || p.ts > s[p.author])
      ensures p in MissingFrom(s, logs)
    {
      var a, t :| a in logs && t in logs[a] && logs[a][t] == p;
    }
  }

  /** If everything b holds and a lacks is newer than a's watermarks, a summary and a
      delta have the effect of a full merge. */
  lemma WatermarkSync(a: View, b: View, s: Summary, logCap: nat, bakedCap: nat)
    requires Reachable(a, logCap, bakedCap) && Reachable(b, logCap, bakedCap)
    requires forall p | p in b.live + b.baked && Lacks(a, p) :: p.author !in s || p.ts > s[p.author]
    ensures Tiles(logCap, bakedCap).Join(a, Pair(Sent(s, b), {})) == Tiles(logCap, bakedCap).Join(a, b)
  {
    hide From, Layer, Stack.Join, Beats, HoldsSlot;
    var ca, cb, d, st := a.live + a.baked, b.live + b.baked, Sent(s, b), Tiles(logCap, bakedCap);
    DeltaIsJoin(a, ca, cb, logCap, bakedCap);
    ContentsAreOneLog(ca + cb, logCap, bakedCap);
    forall p | p in Layer(logCap + bakedCap).Normal(ca + cb)
      ensures p in ca + d
    {
      LayerShape(ca + cb, p, logCap + bakedCap);
      if p !in ca {
        forall q | q in ca && q.author == p.author && q.ts == p.ts
          ensures !HoldsSlot(q, p)
        {
          BeatsTotal(p, q);
          HoldsSlotExact(p, q);
          HoldsSlotExact(q, p);
        }
        assert Lacks(a, p);
      }
    }
    DeltaExact(a, b, d, logCap, bakedCap);
  }

  lemma BeatsTotal(p: SignedPlacement, q: SignedPlacement)
    requires p.author == q.author && p.ts == q.ts && p != q
    ensures Beats(p, q) || Beats(q, p)
  {
    BytesOrder();
  }

  /** Each author's baked entries are older than its live ones, and its live log is
      full as soon as it has baked entries. */
  ghost predicate BakedWhenFull(s: View, logCap: nat) {
    forall p | p in s.baked ::
      && (forall q | q in s.live && q.author == p.author :: p.ts < q.ts)
      && |Times(s.live, p.author)| == logCap
  }

  lemma TimesOfBoth(s: View, author: Bytes32)
    ensures Times(s.live + s.baked, author) == Times(s.live, author) + Times(s.baked, author)
  {
  }

  lemma LiveRank(s: View, p: SignedPlacement, logCap: nat)
    requires BakedWhenFull(s, logCap) && p in s.live
    ensures Winner(s.live, p) ==> Winner(s.live + s.baked, p)
    ensures Rank(s.live + s.baked, p) == Rank(s.live, p)
  {
    hide HoldsSlot;
    TimesOfBoth(s, p.author);
    forall t | t in Times(s.baked, p.author)
      ensures t < p.ts
    {
      var q :| q in s.baked && q.author == p.author && q.ts == t;
    }
    assert Above(TimeLess, Times(s.live + s.baked, p.author), p.ts) == Above(TimeLess, Times(s.live, p.author), p.ts);
  }

  lemma BakedRank(s: View, p: SignedPlacement, logCap: nat)
    requires BakedWhenFull(s, logCap) && p in s.baked
    ensures Winner(s.baked, p) ==> Winner(s.live + s.baked, p)
    ensures Rank(s.live + s.baked, p) == logCap + Rank(s.baked, p)
  {
    hide HoldsSlot;
    TimesOfBoth(s, p.author);
    var live := Times(s.live, p.author);
    forall t | t in live
      ensures p.ts < t
    {
      var q :| q in s.live && q.author == p.author && q.ts == t;
    }
    BakedBelowTimes(s, p, logCap);
    assert Above(TimeLess, Times(s.live + s.baked, p.author), p.ts)
        == live + Above(TimeLess, Times(s.baked, p.author), p.ts);
  }

  lemma BakedBelowTimes(s: View, p: SignedPlacement, logCap: nat)
    requires BakedWhenFull(s, logCap) && p in s.baked
    ensures Times(s.live, p.author) !! Times(s.baked, p.author)
  {
    forall t | t in Times(s.live, p.author)
      ensures t !in Times(s.baked, p.author)
    {
      var q :| q in s.live && q.author == p.author && q.ts == t;
      forall r | r in s.baked && r.author == p.author
        ensures r.ts != t
      {
      }
    }
  }

  /** Among capped well-keyed states the reachable ones are exactly those that bake only
      below a full live log. */
  lemma ReachableShape(s: View, logCap: nat, bakedCap: nat)
    requires Tiles(logCap, bakedCap).Settled(s)
    ensures Reachable(s, logCap, bakedCap) <==> BakedWhenFull(s, logCap)
  {
    hide Layer, From, Rank, Winner, Times;
    var d := s.live + s.baked;
    if BakedWhenFull(s, logCap) {
      forall p
        ensures p in From(d, logCap, bakedCap).live <==> p in s.live
        ensures p in From(d, logCap, bakedCap).baked <==> p in s.baked
      {
        NormalForm(d, p, logCap, bakedCap);
        LayerShape(s.live, p, logCap);
        LayerShape(s.baked, p, bakedCap);
        if p in s.live { LiveRank(s, p, logCap); }
        if p in s.baked { BakedRank(s, p, logCap); }
        WinnerIsMember(d, p);
      }
      assert From(d, logCap, bakedCap).live == s.live && From(d, logCap, bakedCap).baked == s.baked;
    }
    if Reachable(s, logCap, bakedCap) {
      forall p | p in s.baked
        ensures forall q | q in s.live && q.author == p.author :: p.ts < q.ts
        ensures |Times(s.live, p.author)| == logCap
      {
        BakedBelowLive(d, p, logCap, bakedCap);
      }
    }
  }

  lemma WinnerIsMember(d: set<SignedPlacement>, p: SignedPlacement)
    ensures Winner(d, p) ==> p in d
  {
  }

  /** From an empty summary the receiver is sent everything, and rebuilds the sender,
      baked layer included, exactly when the sender bakes only below a full live log. */
  lemma FreshPeerRebuilds(b: View, logCap: nat, bakedCap: nat)
    requires Tiles(logCap, bakedCap).Settled(b)
    ensures Tiles(logCap, bakedCap).Join(Pair({}, {}), Pair(Sent(map[], b), {})) == b
       <==> BakedWhenFull(b, logCap)
  {
    hide Layer, Stack.Join, BakedWhenFull;
    assert Sent(map[], b) == b.live + b.baked;
    ReachableShape(b, logCap, bakedCap);
    TilesLawful(logCap, bakedCap);
    Tiles(logCap, bakedCap).JoinCommutes(Pair({}, {}), Pair(b.live + b.baked, {}));
  }

  /** A placement baked beside no live log, which merging a crafted state can store, is
      within both caps and yet no such state: a fresh peer would hold it live. */
  lemma BakedAloneNotRebuilt(p: SignedPlacement, logCap: nat, bakedCap: nat)
    requires logCap >= 1 && bakedCap >= 1
    ensures Tiles(logCap, bakedCap).Settled(Pair({}, {p}))
    ensures Tiles(logCap, bakedCap).Join(Pair({}, {}), Pair(Sent(map[], Pair({}, {p})), {})) != Pair({}, {p})
  {
    hide *;
    var b := Pair({}, {p});
    AloneNormal(p, bakedCap);
    NoneNormal(logCap);
    SettledShape(b, logCap, bakedCap);
    FreshPeerRebuilds(b, logCap, bakedCap);
    NoLiveTimes(p, logCap);
  }

  lemma NoLiveTimes(p: SignedPlacement, logCap: nat)
    requires logCap >= 1
    ensures !BakedWhenFull(Pair({}, {p}), logCap)
  {
    assert Times({}, p.author) == {};
    assert p in {p};
  }

  lemma SettledShape(s: View, logCap: nat, bakedCap: nat)
    ensures Tiles(logCap, bakedCap).Settled(s) <==>
      Layer(logCap).Normal(s.live) == s.live && Layer(bakedCap).Normal(s.baked) == s.baked
  {
    hide Layer;
  }

  lemma NoneNormal(cap: nat)
    ensures Layer(cap).Normal({}) == {}
  {
  }

  lemma AloneNormal(p: SignedPlacement, cap: nat)
    requires cap >= 1
    ensures Layer(cap).Normal({p}) == {p}
  {
    hide *;
    forall q
      ensures q in Layer(cap).Normal({p}) <==> q == p
    {
      LayerShape({p}, q, cap);
      AloneWinner(p, q);
    }
  }

  lemma AloneWinner(p: SignedPlacement, q: SignedPlacement)
    ensures Winner({p}, q) <==> q == p
    ensures q == p ==> Rank({p}, q) == 0
  {
    NeverBeatsItself(p);
    hide HoldsSlot;
    assert Times({p}, p.author) == {p.ts};
    assert Above(TimeLess, {p.ts}, p.ts) == {};
  }

  /** Every placement's own time is at most some time key filed under its author key. */
  ghost predicate Covered(logs: AuthorLogs, times: set<(Bytes32, u64)>) {
    forall a, t | a in logs && t in logs[a] :: exists u: u64 :: (a, u) in times && logs[a][t].ts <= u
  }

  /** A converged requester gets nothing exactly when every stored placement, whatever keys
      it is filed under, is no later than some time key of its author key in either layer. */
  lemma OwnDeltaExact(live: AuthorLogs, baked: AuthorLogs, s: Summary)
    requires Marks(s, TimeKeys(live) + TimeKeys(baked))
    ensures MissingFrom(s, live) + MissingFrom(s, baked) == {} <==>
      Covered(live, TimeKeys(live) + TimeKeys(baked)) && Covered(baked, TimeKeys(live) + TimeKeys(baked))
  {
    var times := TimeKeys(live) + TimeKeys(baked);
    hide TimeKeys;
    MissingExact(live, s, times);
    MissingExact(baked, s, times);
  }

  lemma MissingExact(logs: AuthorLogs, s: Summary, times: set<(Bytes32, u64)>)
    requires Marks(s, times)
    ensures MissingFrom(s, logs) == {} <==> Covered(logs, times)
  {
    forall a, t | a in logs && t in logs[a]
      ensures Newer(s, a, logs[a][t]) <==> !exists u: u64 :: (a, u) in times && logs[a][t].ts <= u
    {
      if a in s { assert (a, s[a]) in times; }
    }
    if MissingFrom(s, logs) == {} {
      forall a, t | a in logs && t in logs[a]
        ensures !Newer(s, a, logs[a][t])
      {
        NewerIsMissing(logs, s, a, t);
      }
    }
  }

  lemma NewerIsMissing(logs: AuthorLogs, s: Summary, a: Bytes32, t: u64)
    requires a in logs && t in logs[a]
    ensures Newer(s, a, logs[a][t]) ==> logs[a][t] in MissingFrom(s, logs)
  {
  }

  /** So a well-keyed state of any shape sends its own holder nothing. */
  lemma OwnDeltaEmpty(live: AuthorLogs, baked: AuthorLogs, s: Summary)
    requires KeyedLogs(live, Own) && KeyedLogs(baked, Own)
    requires Marks(s, TimeKeys(live) + TimeKeys(baked))
    ensures MissingFrom(s, live) + MissingFrom(s, baked) == {}
  {
    OwnDeltaExact(live, baked, s);
    var times := TimeKeys(live) + TimeKeys(baked);
    forall a, t | a in live && t in live[a]
      ensures (a, live[a][t].ts) in times
    {
      assert (a, t) in TimeKeys(live);
    }
    forall a, t | a in baked && t in baked[a]
      ensures (a, baked[a][t].ts) in times
    {
      assert (a, t) in TimeKeys(baked);
    }
  }

  /** Keys matter: a placement alone under an older time key is offered to its own holder. */
  lemma MisKeyedDeltaNotEmpty(p: SignedPlacement, key: u64, s: Summary)
    requires key < p.ts
    requires Marks(s, TimeKeys(map[p.author := map[key := p]]))
    ensures p in MissingFrom(s, map[p.author := map[key := p]])
  {
    var logs: AuthorLogs := map[p.author := map[key := p]];
    assert logs[p.author][key] == p;
    if p.author in s {
      assert (p.author, s[p.author]) in TimeKeys(logs);
    }
  }

  /** They matter only if no later key of the author covers the placement. */
  lemma CoveredMisKeyed(p: SignedPlacement, q: SignedPlacement, key: u64, s: Summary)
    requires p.author == q.author && key < p.ts <= q.ts && key != q.ts
    requires Marks(s, TimeKeys(map[p.author := map[key := p, q.ts := q]]) + TimeKeys(map[]))
    ensures MissingFrom(s, map[p.author := map[key := p, q.ts := q]]) == {}
  {
    var logs: AuthorLogs := map[p.author := map[key := p, q.ts := q]];
    assert (p.author, q.ts) in TimeKeys(logs);
    OwnDeltaExact(logs, map[], s);
  }

  lemma PairLive(p: SignedPlacement, q: SignedPlacement)
    requires p.author == q.author && p.ts < q.ts
    ensures p in Layer(2).Normal({q, p})
  {
    hide *;
    LayerShape({q, p}, p, 2);
    PairWinner(p, q);
    PairRank(p, q);
  }

  lemma PairWinner(p: SignedPlacement, q: SignedPlacement)
    requires p.author == q.author && p.ts < q.ts
    ensures Winner({q, p}, p)
  {
    hide HoldsSlot;
    NeverBeatsItself(p);
  }

  lemma PairRank(p: SignedPlacement, q: SignedPlacement)
    requires p.author == q.author && p.ts < q.ts
    ensures Rank({q, p}, p) < 2
  {
    var above := Above(TimeLess, Times({q, p}, p.author), p.ts);
    assert forall t | t in above :: t in {q.ts};
    SubsetSize(above, {q.ts});
  }

  lemma NeverBeatsItself(p: SignedPlacement)
    ensures !Beats(p, p) && HoldsSlot(p, p)
  {
    BytesOrder();
  }

  /** The watermark condition is needed: a placement behind the watermark is never sent. */
  lemma OlderPlacementNotSent(p: SignedPlacement, q: SignedPlacement, s: Summary)
    requires p.author == q.author && p.ts < q.ts
    requires Marks(s, {(q.author, q.ts)})
    ensures var a, b := Pair({q}, {}), Pair({p}, {});
      Tiles(2, 2).Join(a, Pair(Sent(s, b), {})) != Tiles(2, 2).Join(a, b)
  {
    hide Layer, Stack.From;
    var a, b, st := Pair({q}, {}), Pair({p}, {}), Tiles(2, 2);
    assert (q.author, q.ts) in {(q.author, q.ts)};
    assert Sent(s, b) == {};
    assert {q} + {p} == {q, p};
    PairLive(p, q);
    assert p in st.Join(a, b).live;
    var none: set<SignedPlacement> := {};
    assert st.Join(a, Pair(Sent(s, b), {})).live <= {q} + none;
  }
}
