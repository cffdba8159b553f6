/** The client's tile view against the core, and what the replay slider promises. */
module TileMirrorLaws {
  import opened Bytes
  import opened Orders
  import opened Stores
  import opened Layers
  import opened Filter
  import opened Outcomes
  import opened TileLog
  import opened TileFilter
  import opened TextKeys
  import opened TileMirror
  import opened CanvasLaws
  import Tile

  // ---- Replay ------------------------------------------------------------------------------

  lemma {:induction false} ValuesUntil(es: seq<Entry>, c: nat)
    requires forall e | e in es :: e.0 == e.1.ts
    ensures Values(Until(es, EntryTime, c)) == Until(Values(es), TimeOf, c)
  {
    if es != [] {
      assert es[0] in es && forall e | e in es[1..] :: e in es;
      ValuesUntil(es[1..], c);
      assert Values(es)[1..] == Values(es[1..]);
      var tail := Until(es[1..], EntryTime, c);
      assert Values([es[0]] + tail) == [es[0].1] + Values(tail);
      assert [] + tail == tail;
    }
  }

  lemma AcceptedUntil(baked: Log, live: Log, cooldown: nat, c: nat)
    ensures JsAccepted(baked, live, cooldown, Some(c)) == Until(JsAccepted(baked, live, cooldown, None), TimeOf, c)
  {
    hide SortByTime, OwnPairs, Greedy, Until;
    var es := OwnPairs(baked) + OwnPairs(live);
    SortUntil(es, c);
    SortSorted(es);
    CutoffCommutes(SortByTime(es), EntryTime, Plus(cooldown), 0, c);
    OwnTimesOf(baked, live, None);
    GreedyFrom(SortByTime(es), EntryTime, Plus(cooldown), 0);
    ValuesUntil(Greedy(SortByTime(es), EntryTime, Plus(cooldown), 0), c);
  }

  lemma {:induction false} ValidUntil(
      authors: seq<string>, live: JsLogs, baked: JsLogs, tierOf: string -> Option<Tier>, c: nat)
    ensures JsValid(authors, live, baked, tierOf, Some(c)) == Until(JsValid(authors, live, baked, tierOf, None), TimeOf, c)
  {
    if authors != [] {
      hide JsAccepted, Until;
      var init, a := authors[..|authors| - 1], authors[|authors| - 1];
      ValidUntil(init, live, baked, tierOf, c);
      var head := JsValid(init, live, baked, tierOf, None);
      if tierOf(a).Some? {
        var cooldown := Cooldown(tierOf(a).value);
        AcceptedUntil(LogOf(baked, a), LogOf(live, a), cooldown, c);
        UntilConcat(head, JsAccepted(LogOf(baked, a), LogOf(live, a), cooldown, None), TimeOf, c);
      } else {
        assert head + [] == head;
      }
    } else {
      assert JsValid(authors, live, baked, tierOf, None) == [];
    }
  }

  /** Replaying to a cutoff is the live filter cut at it: what the canvas would have shown
      had only those placements existed is what the full filter accepted up to then. */
  lemma ReplayCommutes(live: JsLogs, baked: JsLogs, tierOf: string -> Option<Tier>, c: nat)
    ensures JsValidPlacements(live, baked, tierOf, Some(c)) == Until(JsValidPlacements(live, baked, tierOf, None), TimeOf, c)
  {
    ValidUntil(SortedNames(live.Keys + baked.Keys), live, baked, tierOf, c);
  }

  /** As the slider moves on, valid placements only come, and each coordinate's winner only
      gives way to a later one: by time, then author, then signature. */
  lemma ReplayGrows(
      live: JsLogs, baked: JsLogs, tierOf: string -> Option<Tier>, c: nat, c': nat,
      w: map<u16, SignedPlacement>, w': map<u16, SignedPlacement>)
    requires c <= c'
    requires Winners(JsValidPlacements(live, baked, tierOf, Some(c)), w)
    requires Winners(JsValidPlacements(live, baked, tierOf, Some(c')), w')
    ensures forall v | v in JsValidPlacements(live, baked, tierOf, Some(c)) ::
      v in JsValidPlacements(live, baked, tierOf, Some(c'))
    ensures forall coord | coord in w ::
      coord in w' && NotLater(w[coord], w'[coord]) && w[coord].ts <= w'[coord].ts
  {
    hide JsValidPlacements, BytesLess, Until;
    var all := JsValidPlacements(live, baked, tierOf, None);
    ReplayCommutes(live, baked, tierOf, c);
    ReplayCommutes(live, baked, tierOf, c');
    UntilMembers(all, TimeOf, c);
    UntilMembers(all, TimeOf, c');
    hide First;
    WinnersUnique(JsValidPlacements(live, baked, tierOf, Some(c)), w, w);
    WinnersUnique(JsValidPlacements(live, baked, tierOf, Some(c')), w', w');
    forall coord | coord in w
      ensures coord in w' && NotLater(w[coord], w'[coord])
    {
      assert w[coord] in JsValidPlacements(live, baked, tierOf, Some(c));
      assert w[coord] in JsValidPlacements(live, baked, tierOf, Some(c')) && w[coord].coord == coord;
    }
  }

  /** A cutoff at or past the newest valid placement reproduces the live board. */
  lemma ReplayReproduces(live: JsLogs, baked: JsLogs, tierOf: string -> Option<Tier>, c: nat)
    requires forall v | v in JsValidPlacements(live, baked, tierOf, None) :: v.ts <= c
    ensures JsValidPlacements(live, baked, tierOf, Some(c)) == JsValidPlacements(live, baked, tierOf, None)
  {
    hide JsValidPlacements;
    ReplayCommutes(live, baked, tierOf, c);
    AllUntil(JsValidPlacements(live, baked, tierOf, None), c);
  }

  lemma {:induction false} AllUntil(ps: seq<SignedPlacement>, c: nat)
    requires forall p | p in ps :: p.ts <= c
    ensures Until(ps, TimeOf, c) == ps
  {
    if ps != [] {
      assert ps[0] in ps && forall p | p in ps[1..] :: p in ps;
      AllUntil(ps[1..], c);
      assert [ps[0]] + ps[1..] == ps;
    }
  }

  // ---- Agreement with the core -----------------------------------------------------------------

  lemma SamePairs(log: Log)
    requires OwnTimes(log)
    ensures OwnPairs(log) == Pairs(log)
  {
    var q := SortedTimes(log.Keys);
    assert forall t | t in q :: t in Elems(q);
    assert LogValues(log) == LogAt(log, q);
    assert |OwnPairs(log)| == |q| == |Pairs(log)|;
    forall i | 0 <= i < |q|
      ensures OwnPairs(log)[i] == Pairs(log)[i]
    {
      assert q[i] in Elems(q);
    }
  }

  /** The client's selection is spaced and stored, and never larger than the core's; plain
      subtraction and the saturating addition accept the same exactly when the end of time fits. */
  lemma SameAccepted(baked: Log, live: Log, cooldown: nat)
    requires OwnTimes(baked) && OwnTimes(live) && cooldown > 0
    ensures |JsAccepted(baked, live, cooldown, None)| <= |Accepted(baked, live, cooldown)|
    ensures JsAccepted(baked, live, cooldown, None) == Accepted(baked, live, cooldown) <==> EndFits(baked, live, cooldown)
  {
    hide *;
    JsSpaced(baked, live, cooldown);
    CooldownMaximal(baked, live, cooldown, JsAccepted(baked, live, cooldown, None));
    SpacingExact(baked, live, cooldown);
    if EndFits(baked, live, cooldown) { JsAcceptsSpaced(baked, live, cooldown); }
  }

  lemma SameChains(baked: Log, live: Log)
    requires OwnTimes(baked) && OwnTimes(live)
    ensures JsChain(baked, live, None) == Chain(baked, live)
    ensures forall e | e in Chain(baked, live) :: e.0 == e.1.ts && Stored(baked, live, e.1)
  {
    hide SortByTime, OwnPairs;
    SamePairs(baked);
    SamePairs(live);
    forall e | e in Chain(baked, live)
      ensures e.0 == e.1.ts && Stored(baked, live, e.1)
    {
      ChainMembers(baked, live, e);
    }
  }

  lemma JsSpaced(baked: Log, live: Log, cooldown: nat)
    requires OwnTimes(baked) && OwnTimes(live)
    ensures Spaced(JsAccepted(baked, live, cooldown, None), TimeOf, Plus(cooldown))
    ensures forall p | p in JsAccepted(baked, live, cooldown, None) :: Stored(baked, live, p)
  {
    hide Chain, JsChain, Greedy, Plus, Stored, OwnTimes;
    SameChains(baked, live);
    ChainByTime(baked, live);
    PlusRises(cooldown);
    var chain := Chain(baked, live);
    GreedySpaced(chain, EntryTime, Plus(cooldown), 0);
    GreedyFrom(chain, EntryTime, Plus(cooldown), 0);
    var es := Greedy(chain, EntryTime, Plus(cooldown), 0);
    assert forall i | 0 <= i < |es| :: es[i] in es;
  }

  lemma PlusRises(cooldown: nat)
    ensures Rising(Plus(cooldown)) && forall t :: Plus(cooldown)(t) >= t
  {
  }

  lemma JsAcceptsSpaced(baked: Log, live: Log, cooldown: nat)
    requires OwnTimes(baked) && OwnTimes(live) && Spaced(Accepted(baked, live, cooldown), TimeOf, Plus(cooldown))
    ensures JsAccepted(baked, live, cooldown, None) == Accepted(baked, live, cooldown)
  {
    hide Chain, JsChain, Greedy, Plus, Saturating, Stored, OwnTimes;
    SameChains(baked, live);
    var chain := Chain(baked, live);
    GreedyFrom(chain, EntryTime, Saturating(cooldown), 0);
    var es := Greedy(chain, EntryTime, Saturating(cooldown), 0);
    forall i, j | 0 <= i < j < |es|
      ensures EntryTime(es[j]) >= Plus(cooldown)(EntryTime(es[i]))
    {
      assert es[i] in es && es[j] in es;
      assert TimeOf(Values(es)[j]) >= Plus(cooldown)(TimeOf(Values(es)[i]));
    }
    PlusAbove(cooldown);
    GreedyWider(chain, EntryTime, Saturating(cooldown), Plus(cooldown), 0, 0);
  }

  lemma SameLog(js: JsLogs, rust: Logs<Bytes32>, a: Bytes32)
    requires KeyedLogs(js, HexOf) && KeyedLogs(rust, Own) && All(js) == All(rust)
    ensures LogOf(js, HexOf(a)) == LogOf(rust, a)
  {
    hide All, HexOf;
    var p, q := LogOf(js, HexOf(a)), LogOf(rust, a);
    forall t | t in p
      ensures t in q && q[t] == p[t]
    {
      InAll(js, HexOf, p[t]);
      InAll(rust, Own, p[t]);
    }
    forall t | t in q
      ensures t in p
    {
      InAll(js, HexOf, q[t]);
      InAll(rust, Own, q[t]);
    }
  }

  lemma SameNames(js: JsLogs, rust: Logs<Bytes32>, a: string)
    requires KeyedLogs(js, HexOf) && KeyedLogs(rust, Own) && All(js) == All(rust)
    ensures a in js <==> exists b: Bytes32 :: b in rust && HexOf(b) == a
  {
    hide All, HexOf;
    if a in js {
      var t :| t in js[a];
      var p := js[a][t];
      InAll(js, HexOf, p);
      InAll(rust, Own, p);
      assert p.author in rust;
    }
    if b: Bytes32 :| b in rust && HexOf(b) == a {
      var t :| t in rust[b];
      InAll(js, HexOf, rust[b][t]);
      InAll(rust, Own, rust[b][t]);
    }
  }

  /** Hex names sort as the authors do. */
  lemma SortedHex(names: set<string>, authors: set<Bytes32>)
    requires forall a :: a in names <==> exists b: Bytes32 :: b in authors && HexOf(b) == a
    ensures |SortedNames(names)| == |authors|
    ensures forall i | 0 <= i < |authors| :: SortedNames(names)[i] == HexOf(SortedAuthors(authors)[i])
  {
    hide HexOf, StringLess, BytesLess;
    var order := SortedAuthors(authors);
    var image := seq(|order|, i requires 0 <= i < |order| => HexOf(order[i]));
    HexAscends(order, image);
    forall a
      ensures a in image <==> a in SortedNames(names)
    {
      assert a in SortedNames(names) <==> a in Elems(SortedNames(names));
      if a in names {
        var b: Bytes32 :| b in authors && HexOf(b) == a;
        assert b in Elems(order);
        var i :| 0 <= i < |order| && order[i] == b;
        assert image[i] == a;
      }
      if a in image {
        var i :| 0 <= i < |image| && image[i] == a;
        assert order[i] in Elems(order);
      }
    }
    StringLessTotal();
    assert forall x, y | StringLess(x, y) && StringLess(y, x) :: StringLess(x, x);
    AscendingUnique(StringLess, image, SortedNames(names));
  }

  lemma HexAscends(order: seq<Bytes32>, image: seq<string>)
    requires Ascending(AuthorLess, order)
    requires |image| == |order| && forall i | 0 <= i < |order| :: image[i] == HexOf(order[i])
    ensures Ascending(StringLess, image)
  {
    hide StringLess, BytesLess, Hex;
    forall i, j | 0 <= i < j < |image|
      ensures StringLess(image[i], image[j])
    {
      HexOrder(order[i], order[j]);
      assert AuthorLess(order[i], order[j]);
    }
  }

  lemma SameAcceptedOf(
      a: Bytes32, jl: JsLogs, jb: JsLogs, rl: Logs<Bytes32>, rb: Logs<Bytes32>, cooldown: nat)
    requires KeyedLogs(jl, HexOf) && KeyedLogs(rl, Own) && All(jl) == All(rl)
    requires KeyedLogs(jb, HexOf) && KeyedLogs(rb, Own) && All(jb) == All(rb)
    requires cooldown > 0
    ensures var js, acc := JsAccepted(LogOf(jb, HexOf(a)), LogOf(jl, HexOf(a)), cooldown, None), Accepted(LogOf(rb, a), LogOf(rl, a), cooldown);
      |js| <= |acc| && (js == acc <==> EndFits(LogOf(rb, a), LogOf(rl, a), cooldown))
  {
    hide All, JsAccepted, Accepted, HexOf, EndFits;
    SameLog(jl, rl, a);
    SameLog(jb, rb, a);
    AuthorOwnTimes(rl, rb, a);
    SameAccepted(LogOf(rb, a), LogOf(rl, a), cooldown);
  }

  /** The end of time fits for every admitted author. */
  ghost predicate EndFitsAll(live: Logs<Bytes32>, baked: Logs<Bytes32>, tierOf: Bytes32 -> Option<Tier>) {
    forall a | tierOf(a).Some? :: EndFits(LogOf(baked, a), LogOf(live, a), Cooldown(tierOf(a).value))
  }

  lemma ConcatEqual<T>(p: seq<T>, x: seq<T>, q: seq<T>, y: seq<T>)
    requires |p| <= |q| && |x| <= |y|
    ensures p + x == q + y <==> p == q && x == y
  {
    if p + x == q + y {
      assert |p + x| == |p| + |x| && |q + y| == |q| + |y|;
      assert (p + x)[..|p|] == p && (q + y)[..|q|] == q && (p + x)[|p|..] == x && (q + y)[|q|..] == y;
    }
  }

  lemma TierCases(tier: Option<Tier>)
    ensures tier.Some? ==> Cooldown(tier.value) > 0
  {
  }

  lemma {:induction false} SameValidOf(
      names: seq<string>, authors: seq<Bytes32>, jl: JsLogs, jb: JsLogs, rl: Logs<Bytes32>, rb: Logs<Bytes32>,
      jsTier: string -> Option<Tier>, tierOf: Bytes32 -> Option<Tier>)
    requires |names| == |authors| && forall i | 0 <= i < |authors| :: names[i] == HexOf(authors[i])
    requires KeyedLogs(jl, HexOf) && KeyedLogs(rl, Own) && All(jl) == All(rl)
    requires KeyedLogs(jb, HexOf) && KeyedLogs(rb, Own) && All(jb) == All(rb)
    requires forall a: Bytes32 :: jsTier(HexOf(a)) == tierOf(a)
    ensures |JsValid(names, jl, jb, jsTier, None)| <= |Valid(authors, rl, rb, tierOf)|
    ensures JsValid(names, jl, jb, jsTier, None) == Valid(authors, rl, rb, tierOf) <==>
      forall a | a in authors && tierOf(a).Some? :: EndFits(LogOf(rb, a), LogOf(rl, a), Cooldown(tierOf(a).value))
  {
    hide *;
    if authors == [] {
      JsValidNone(names, jl, jb, jsTier, None);
      Tile.ValidNone(authors, rl, rb, tierOf);
      DropNothing(names);
      DropNothing(authors);
    } else {
      var n, a := |authors| - 1, authors[|authors| - 1];
      SameValidOf(names[..n], authors[..n], jl, jb, rl, rb, jsTier, tierOf);
      JsValidStep(names, n, jl, jb, jsTier, None);
      ValidStep(authors, n, rl, rb, tierOf);
      assert names[..n + 1] == names && authors[..n + 1] == authors && authors == authors[..n] + [a];
      assert names[n] == HexOf(a) && jsTier(names[n]) == tierOf(a);
      var p, q := JsValid(names[..n], jl, jb, jsTier, None), Valid(authors[..n], rl, rb, tierOf);
      if tierOf(a).Some? {
        var cooldown := Cooldown(tierOf(a).value);
        TierCases(tierOf(a));
        SameAcceptedOf(a, jl, jb, rl, rb, cooldown);
        ConcatEqual(p, JsAccepted(LogOf(jb, HexOf(a)), LogOf(jl, HexOf(a)), cooldown, None),
                    q, Accepted(LogOf(rb, a), LogOf(rl, a), cooldown));
      } else {
        assert p + [] == p && q + [] == q;
      }
    }
  }

  /** A client store and a core state with the same view have the same valid placements in
      the same order exactly when the end of time fits for every admitted author; then they
      derive the same winners and show the same pixels. */
  lemma ClientAgrees(
      jl: JsLogs, jb: JsLogs, rl: Logs<Bytes32>, rb: Logs<Bytes32>,
      jsTier: string -> Option<Tier>, tierOf: Bytes32 -> Option<Tier>)
    requires KeyedLogs(jl, HexOf) && KeyedLogs(jb, HexOf) && KeyedLogs(rl, Own) && KeyedLogs(rb, Own)
    requires View(jl, jb) == View(rl, rb) && forall a: Bytes32 :: jsTier(HexOf(a)) == tierOf(a)
    ensures var js, valid := JsValidPlacements(jl, jb, jsTier, None), TileFilter.ValidPlacements(rl, rb, tierOf);
      && (js == valid <==> EndFitsAll(rl, rb, tierOf))
      && (js == valid ==> forall w, w' | Winners(js, w) && Winners(valid, w') :: w == w')
      && (js == valid ==> forall c, x, y | PixelRule(js, c, x) && PixelRule(valid, c, y) :: x == y)
  {
    hide *;
    SameView(jl, jb, rl, rb);
    var names, authors := jl.Keys + jb.Keys, rl.Keys + rb.Keys;
    forall a
      ensures a in names <==> exists b: Bytes32 :: b in authors && HexOf(b) == a
    {
      SameNames(jl, rl, a);
      SameNames(jb, rb, a);
    }
    SortedHex(names, authors);
    SameValidOf(SortedNames(names), SortedAuthors(authors), jl, jb, rl, rb, jsTier, tierOf);
    JsValidShape(jl, jb, jsTier, None);
    Tile.ValidShape(rl, rb, tierOf);
    FitsOfStored(rl, rb, tierOf);
    var js, valid := JsValidPlacements(jl, jb, jsTier, None), TileFilter.ValidPlacements(rl, rb, tierOf);
    if js == valid {
      forall w, w' | Winners(js, w) && Winners(valid, w')
        ensures w == w'
      {
        WinnersUnique(valid, w, w');
      }
      forall c, x, y | PixelRule(js, c, x) && PixelRule(valid, c, y)
        ensures x == y
      {
        PixelUnique(valid, c, x, y);
      }
    }
  }

  lemma SameView(jl: JsLogs, jb: JsLogs, rl: Logs<Bytes32>, rb: Logs<Bytes32>)
    requires View(jl, jb) == View(rl, rb)
    ensures All(jl) == All(rl) && All(jb) == All(rb)
  {
    hide All;
  }

  /** Authors without entries always fit. */
  lemma FitsOfStored(live: Logs<Bytes32>, baked: Logs<Bytes32>, tierOf: Bytes32 -> Option<Tier>)
    ensures EndFitsAll(live, baked, tierOf) <==>
      forall a | a in SortedAuthors(live.Keys + baked.Keys) && tierOf(a).Some? ::
        EndFits(LogOf(baked, a), LogOf(live, a), Cooldown(tierOf(a).value))
  {
    hide SortedAuthors, Accepted, BelowEnd;
    var authors := SortedAuthors(live.Keys + baked.Keys);
    forall a | a !in authors
      ensures LogOf(live, a) == map[] && LogOf(baked, a) == map[]
    {
      assert a !in Elems(authors);
    }
  }

  // ---- The times a client can hold -------------------------------------------------------------

  /** Every time is a safe integer: the client's reader refuses any other. */
  ghost predicate SafeTimes(live: Logs<Bytes32>, baked: Logs<Bytes32>) {
    forall p | p in All(live) + All(baked) :: p.ts <= MAX_SAFE_INTEGER
  }

  lemma UnderOwnTime(logs: Logs<Bytes32>, a: Bytes32)
    requires KeyedLogs(logs, Own)
    ensures forall t | t in LogOf(logs, a) :: LogOf(logs, a)[t] in All(logs) && LogOf(logs, a)[t].ts == t
  {
  }

  lemma SafeFits(live: Logs<Bytes32>, baked: Logs<Bytes32>, tierOf: Bytes32 -> Option<Tier>)
    requires KeyedLogs(live, Own) && KeyedLogs(baked, Own) && SafeTimes(live, baked)
    ensures EndFitsAll(live, baked, tierOf)
  {
    hide Accepted, Saturating, LogOf, All;
    forall a
      ensures MAX_U64 !in LogOf(live, a) && MAX_U64 !in LogOf(baked, a)
    {
      UnderOwnTime(live, a);
      UnderOwnTime(baked, a);
    }
  }

  /** On the times a client can hold the two agree without further conditions. */
  lemma SafeClientAgrees(
      jl: JsLogs, jb: JsLogs, rl: Logs<Bytes32>, rb: Logs<Bytes32>,
      jsTier: string -> Option<Tier>, tierOf: Bytes32 -> Option<Tier>)
    requires KeyedLogs(jl, HexOf) && KeyedLogs(jb, HexOf) && KeyedLogs(rl, Own) && KeyedLogs(rb, Own)
    requires View(jl, jb) == View(rl, rb) && forall a: Bytes32 :: jsTier(HexOf(a)) == tierOf(a)
    requires SafeTimes(rl, rb)
    ensures var js, valid := JsValidPlacements(jl, jb, jsTier, None), TileFilter.ValidPlacements(rl, rb, tierOf);
      && js == valid
      && (forall w, w' | Winners(js, w) && Winners(valid, w') :: w == w')
      && (forall c, x, y | PixelRule(js, c, x) && PixelRule(valid, c, y) :: x == y)
  {
    hide *;
    SafeFits(rl, rb, tierOf);
    ClientAgrees(jl, jb, rl, rb, jsTier, tierOf);
  }
}
