/** Beyond the caps: how the cooldown over the placements a tile has kept compares with the
    cooldown over a longer history. */
module WindowLaws {
  import opened Bytes
  import opened Orders
  import opened Choice
  import opened Layers
  import opened Filter
  import opened Outcomes
  import opened TileLog
  import opened TileFilter
  import opened CanvasLaws
  import TileLaws

  // ---- The kept chain is a tail of the longer one -------------------------------------------

  /** In an ascending sequence, members above all others come last. */
  lemma {:induction false} UpperIsTail(all: seq<Entry>, kept: seq<Entry>)
    requires Ascending(EntryLess, all) && Ascending(EntryLess, kept) && forall e | e in kept :: e in all
    requires forall e, k | e in all && e !in kept && k in kept :: EntryLess(e, k)
    ensures |kept| <= |all| && all[|all| - |kept|..] == kept
    ensures forall e | e in all[..|all| - |kept|] :: e in all && e !in kept
    decreases |all|
  {
    if all == [] || all[0] in kept {
      forall e
        ensures e in all <==> e in kept
      {
        if e in all {
          var i :| 0 <= i < |all| && all[i] == e;
          assert i > 0 ==> EntryLess(all[0], all[i]);
        }
      }
      AscendingUnique(EntryLess, all, kept);
    } else {
      forall e | e in kept
        ensures e in all[1..]
      {
        assert e in all && e != all[0];
      }
      UpperIsTail(all[1..], kept);
      var n := |all| - |kept|;
      forall e | e in all[..n]
        ensures e in all && e !in kept
      {
        assert e != all[0] ==> e in all[1..][..n - 1];
      }
    }
  }

  /** What the larger caps keep beyond the smaller is older than all the smaller keep. */
  lemma DroppedIsOlder(d: set<SignedPlacement>, cap: nat, larger: nat, p: SignedPlacement, q: SignedPlacement)
    requires cap <= larger && p.author == q.author
    requires p in Layer(larger).Normal(d) && p !in Layer(cap).Normal(d) && q in Layer(cap).Normal(d)
    ensures p.ts < q.ts
  {
    hide Layer;
    TileLaws.LayerShape(d, p, cap);
    TileLaws.LayerShape(d, p, larger);
    TileLaws.LayerShape(d, q, cap);
    if p.ts >= q.ts {
      var above, wider := Above(TimeLess, TileLaws.Times(d, p.author), p.ts), Above(TimeLess, TileLaws.Times(d, q.author), q.ts);
      SubsetSize(above, wider);
    }
  }

  lemma SmallerWithin(d: set<SignedPlacement>, cap: nat, larger: nat)
    requires cap <= larger
    ensures Layer(cap).Normal(d) <= Layer(larger).Normal(d)
  {
    hide *;
    forall p | p in Layer(cap).Normal(d)
      ensures p in Layer(larger).Normal(d)
    {
      TileLaws.LayerShape(d, p, cap);
      TileLaws.LayerShape(d, p, larger);
    }
  }

  /** The tile of a history under larger caps. */
  ghost predicate Wider(
      d: set<SignedPlacement>, live: AuthorLogs, baked: AuthorLogs, logCap: nat, bakedCap: nat,
      full: AuthorLogs, rest: AuthorLogs, logCap': nat, bakedCap': nat)
  {
    && Keyed(live, baked) && View(live, baked) == TileLaws.From(d, logCap, bakedCap)
    && Keyed(full, rest) && View(full, rest) == TileLaws.From(d, logCap', bakedCap')
    && logCap + bakedCap <= logCap' + bakedCap'
  }

  lemma ChainIsTail(
      d: set<SignedPlacement>, live: AuthorLogs, baked: AuthorLogs, logCap: nat, bakedCap: nat,
      full: AuthorLogs, rest: AuthorLogs, logCap': nat, bakedCap': nat, a: Bytes32)
    returns (older: seq<Entry>)
    requires Wider(d, live, baked, logCap, bakedCap, full, rest, logCap', bakedCap')
    ensures var kept := Chain(LogOf(baked, a), LogOf(live, a));
      && Chain(LogOf(rest, a), LogOf(full, a)) == older + kept
      && forall e, k | e in older && k in kept :: e.0 < k.0
  {
    hide *;
    var kept, all := Chain(LogOf(baked, a), LogOf(live, a)), Chain(LogOf(rest, a), LogOf(full, a));
    WiderShape(d, live, baked, logCap, bakedCap, full, rest, logCap', bakedCap');
    OneLog(d, live, baked, logCap, bakedCap, a);
    OneLog(d, full, rest, logCap', bakedCap', a);
    SmallerWithin(d, logCap + bakedCap, logCap' + bakedCap');
    forall e, k | e in all && e !in kept && k in kept
      ensures EntryLess(e, k)
    {
      DroppedIsOlder(d, logCap + bakedCap, logCap' + bakedCap', e.1, k.1);
      EarlierEntry(e, k);
    }
    UpperIsTail(all, kept);
    older := all[..|all| - |kept|];
    forall e, k | e in older && k in kept
      ensures e.0 < k.0
    {
      EarlierEntry(e, k);
    }
  }

  lemma EarlierEntry(e: Entry, k: Entry)
    ensures EntryLess(e, k) <==> e.0 < k.0
  {
  }

  lemma WiderShape(
      d: set<SignedPlacement>, live: AuthorLogs, baked: AuthorLogs, logCap: nat, bakedCap: nat,
      full: AuthorLogs, rest: AuthorLogs, logCap': nat, bakedCap': nat)
    requires Wider(d, live, baked, logCap, bakedCap, full, rest, logCap', bakedCap')
    ensures Keyed(live, baked) && View(live, baked) == TileLaws.From(d, logCap, bakedCap)
    ensures Keyed(full, rest) && View(full, rest) == TileLaws.From(d, logCap', bakedCap')
    ensures logCap + bakedCap <= logCap' + bakedCap'
  {
    hide Keyed, TileLaws.From, View;
  }

  /** An author's chain is what one log of both caps holds of the author, in time order. */
  lemma OneLog(d: set<SignedPlacement>, live: AuthorLogs, baked: AuthorLogs, logCap: nat, bakedCap: nat, a: Bytes32)
    requires Keyed(live, baked) && View(live, baked) == TileLaws.From(d, logCap, bakedCap)
    ensures Ascending(EntryLess, Chain(LogOf(baked, a), LogOf(live, a)))
    ensures forall e | e in Chain(LogOf(baked, a), LogOf(live, a)) :: e.0 == e.1.ts
    ensures forall e :: e in Chain(LogOf(baked, a), LogOf(live, a)) <==>
      e.1.author == a && e.0 == e.1.ts && e.1 in Layer(logCap + bakedCap).Normal(d)
  {
    hide *;
    ReachableApart(live, baked, d, logCap, bakedCap);
    ApartAt(live, baked, a);
    ChainStrict(LogOf(baked, a), LogOf(live, a));
    TileLaws.ContentsAreOneLog(d, logCap, bakedCap);
    ContentsOf(live, baked);
    forall e
      ensures e in Chain(LogOf(baked, a), LogOf(live, a)) <==>
        e.1.author == a && e.0 == e.1.ts && e.1 in Layer(logCap + bakedCap).Normal(d)
    {
      ChainIsContents(live, baked, a, e);
    }
  }

  lemma ApartAt(live: AuthorLogs, baked: AuthorLogs, a: Bytes32)
    requires Apart(live, baked)
    ensures LogOf(baked, a).Keys !! LogOf(live, a).Keys
  {
  }

  // ---- The two selections -------------------------------------------------------------------

  /** Selecting from a tail, with and without what came before it. */
  lemma TailSelections(older: seq<Entry>, kept: seq<Entry>, bar: nat -> nat)
    requires Ascending(EntryLess, older + kept) && Rising(bar)
    ensures var all, inside, own := Greedy(older + kept, EntryTime, bar, 0),
          Greedy(kept, EntryTime, bar, After(older, EntryTime, bar, 0)), Greedy(kept, EntryTime, bar, 0);
      && all == Greedy(older, EntryTime, bar, 0) + inside
      && |inside| <= |own| <= |inside| + 1
      && forall i, j | 0 <= i < |inside| && 0 <= j < |own| && inside[i] == own[j] :: inside[i..] == own[j..]
  {
    hide Greedy, After, Rising;
    var before := Greedy(older, EntryTime, bar, 0);
    var lo := After(older, EntryTime, bar, 0);
    GreedyConcat(older, kept, EntryTime, bar, 0);
    GreedyFrom(older, EntryTime, bar, 0);
    TailAscends(older, kept);
    AfterBelow(older, kept, bar);
    GreedyFewer(kept, EntryTime, bar, 0, lo);
    GreedyOneMore(kept, EntryTime, bar, 0, lo);
    var inside, own := Greedy(kept, EntryTime, bar, lo), Greedy(kept, EntryTime, bar, 0);
    forall i, j | 0 <= i < |inside| && 0 <= j < |own| && inside[i] == own[j]
      ensures inside[i..] == own[j..]
    {
      GreedyRejoins(kept, EntryTime, bar, lo, 0, i, j);
    }
  }

  lemma TailAscends(older: seq<Entry>, kept: seq<Entry>)
    requires Ascending(EntryLess, older + kept)
    ensures ByTime(kept, EntryTime) && forall m, n | 0 <= m < n < |kept| :: kept[m] != kept[n]
  {
    var all, k := older + kept, |older|;
    forall m, n | 0 <= m < n < |kept|
      ensures kept[m].0 < kept[n].0
    {
      assert all[k + m] == kept[m] && all[k + n] == kept[n];
      assert EntryLess(all[k + m], all[k + n]);
    }
  }

  lemma AfterBelow(older: seq<Entry>, kept: seq<Entry>, bar: nat -> nat)
    requires Ascending(EntryLess, older + kept) && Rising(bar)
    ensures forall k | k in kept :: After(older, EntryTime, bar, 0) <= bar(EntryTime(k))
  {
    hide Greedy;
    var before, all := Greedy(older, EntryTime, bar, 0), older + kept;
    GreedyFrom(older, EntryTime, bar, 0);
    forall k | k in kept
      ensures After(older, EntryTime, bar, 0) <= bar(EntryTime(k))
    {
      if before != [] {
        var last := before[|before| - 1];
        assert last in before;
        var m :| 0 <= m < |older| && older[m] == last;
        var n :| 0 <= n < |kept| && kept[n] == k;
        assert all[m] == last && all[|older| + n] == k && EntryLess(all[m], all[|older| + n]);
      }
    }
  }

  ghost predicate Timed(es: seq<Entry>) {
    forall e | e in es :: e.0 == e.1.ts
  }

  /** Under their own times, equal placements are equal entries. */
  lemma ValuesRejoin(late: seq<Entry>, own: seq<Entry>)
    requires Timed(late) && Timed(own)
    requires forall i, j | 0 <= i < |late| && 0 <= j < |own| && late[i] == own[j] :: late[i..] == own[j..]
    ensures forall i, j | 0 <= i < |late| && 0 <= j < |own| && Values(late)[i] == Values(own)[j] ::
      Values(late)[i..] == Values(own)[j..]
  {
    forall i, j | 0 <= i < |late| && 0 <= j < |own| && Values(late)[i] == Values(own)[j]
      ensures Values(late)[i..] == Values(own)[j..]
    {
      assert late[i] in late && own[j] in own;
      assert Values(late)[i..] == Values(late[i..]) && Values(own)[j..] == Values(own[j..]);
    }
  }

  lemma ValuesStored(baked: Log, live: Log, older: seq<Entry>, early: seq<Entry>, late: seq<Entry>)
    requires OwnTimes(baked) && OwnTimes(live) && Timed(older)
    requires forall e | e in early :: e in older
    requires forall e | e in late :: e in Chain(baked, live)
    requires forall e, k | e in older && k in Chain(baked, live) :: e.0 < k.0
    ensures forall p, q | p in Values(early) && Stored(baked, live, q) :: p.ts < q.ts
    ensures forall p | p in Values(late) :: Stored(baked, live, p)
  {
    hide Chain, Stored, OwnTimes;
    forall p, q | p in Values(early) && Stored(baked, live, q)
      ensures p.ts < q.ts
    {
      var i :| 0 <= i < |early| && Values(early)[i] == p;
      assert early[i] in early;
      StoredEntry(baked, live, q);
    }
    forall p | p in Values(late)
      ensures Stored(baked, live, p)
    {
      var i :| 0 <= i < |late| && Values(late)[i] == p;
      assert late[i] in late;
      EntryStored(baked, live, late[i]);
    }
  }

  lemma EntryStored(baked: Log, live: Log, e: Entry)
    requires OwnTimes(baked) && OwnTimes(live) && e in Chain(baked, live)
    ensures Stored(baked, live, e.1) && e.0 == e.1.ts
  {
    hide Chain;
    ChainMembers(baked, live, e);
  }

  lemma TimedChain(baked: Log, live: Log)
    requires OwnTimes(baked) && OwnTimes(live)
    ensures Timed(Chain(baked, live))
  {
    hide Chain, Stored, OwnTimes;
    forall e | e in Chain(baked, live)
      ensures e.0 == e.1.ts
    {
      EntryStored(baked, live, e);
    }
  }

  lemma TimedParts(p: seq<Entry>, q: seq<Entry>)
    requires Timed(p + q)
    ensures Timed(p) && Timed(q)
  {
    assert forall e | e in p || e in q :: e in p + q;
  }

  lemma TimedWithin(p: seq<Entry>, q: seq<Entry>)
    requires Timed(q) && forall e | e in p :: e in q
    ensures Timed(p)
  {
  }

  /** Whatever an author's tile has lost to the caps, the cooldown over what it kept compares
      with the cooldown over the longer history as follows. The longer history accepts some
      placements older than all those kept, and then some of those kept; the kept ones alone
      accept as many or one more, and the same from the first one both accept. They accept
      exactly the same if and only if the longer history accepts the oldest one kept. */
  lemma WindowAgrees(
      d: set<SignedPlacement>, live: AuthorLogs, baked: AuthorLogs, logCap: nat, bakedCap: nat,
      full: AuthorLogs, rest: AuthorLogs, logCap': nat, bakedCap': nat, a: Bytes32, cooldown: nat)
    returns (before: seq<SignedPlacement>, inside: seq<SignedPlacement>)
    requires Wider(d, live, baked, logCap, bakedCap, full, rest, logCap', bakedCap')
    ensures Accepted(LogOf(rest, a), LogOf(full, a), cooldown) == before + inside
    ensures forall p, q | p in before && Stored(LogOf(baked, a), LogOf(live, a), q) :: p.ts < q.ts
    ensures forall p | p in inside :: Stored(LogOf(baked, a), LogOf(live, a), p)
    ensures var own := Accepted(LogOf(baked, a), LogOf(live, a), cooldown);
      && |inside| <= |own| <= |inside| + 1
      && (forall i, j | 0 <= i < |inside| && 0 <= j < |own| && inside[i] == own[j] :: inside[i..] == own[j..])
      && (inside == own <==> own == [] || own[0] in Accepted(LogOf(rest, a), LogOf(full, a), cooldown))
  {
    hide *;
    var bar := Saturating(cooldown);
    var older := ChainIsTail(d, live, baked, logCap, bakedCap, full, rest, logCap', bakedCap', a);
    var kept := Chain(LogOf(baked, a), LogOf(live, a));
    WiderShape(d, live, baked, logCap, bakedCap, full, rest, logCap', bakedCap');
    OneLog(d, live, baked, logCap, bakedCap, a);
    OneLog(d, full, rest, logCap', bakedCap', a);
    BarRises(cooldown);
    TailSelections(older, kept, bar);
    var early, late := Greedy(older, EntryTime, bar, 0), Greedy(kept, EntryTime, bar, After(older, EntryTime, bar, 0));
    var own := Greedy(kept, EntryTime, bar, 0);
    before, inside := Values(early), Values(late);
    AcceptedValues(LogOf(rest, a), LogOf(full, a), cooldown);
    AcceptedValues(LogOf(baked, a), LogOf(live, a), cooldown);
    ValuesSplit(early, late);
    GreedyFrom(older, EntryTime, bar, 0);
    GreedyFrom(kept, EntryTime, bar, After(older, EntryTime, bar, 0));
    GreedyFrom(kept, EntryTime, bar, 0);
    AuthorOwnTimes(live, baked, a);
    AuthorOwnTimes(full, rest, a);
    TimedChain(LogOf(rest, a), LogOf(full, a));
    TimedParts(older, kept);
    TimedWithin(late, kept);
    TimedWithin(own, kept);
    ValuesRejoin(late, own);
    ValuesStored(LogOf(baked, a), LogOf(live, a), older, early, late);
    CooldownSpaced(LogOf(baked, a), LogOf(live, a), cooldown);
    SameIfFirst(before, inside, Values(own));
  }

  lemma SameIfFirst(before: seq<SignedPlacement>, inside: seq<SignedPlacement>, own: seq<SignedPlacement>)
    requires |inside| <= |own| && forall p, q | p in before && q in own :: p.ts < q.ts
    requires forall i, j | 0 <= i < |inside| && 0 <= j < |own| && inside[i] == own[j] :: inside[i..] == own[j..]
    ensures inside == own <==> own == [] || own[0] in before + inside
  {
    if own != [] && own[0] in before + inside {
      assert own[0] in own && own[0] !in before;
      var i :| 0 <= i < |inside| && inside[i] == own[0];
      assert inside[i..] == own[0..] && |inside[i..]| == |inside| - i;
    }
  }

  // ---- The difference occurs ------------------------------------------------------------------

  function Holding(log: Log, a: Bytes32): AuthorLogs { map[a := log] }

  const NONE: AuthorLogs := map[]

  lemma PairViews(p: SignedPlacement, q: SignedPlacement)
    requires p.author == q.author && p.ts < q.ts
    ensures var one, two := Holding(map[q.ts := q], p.author), Holding(map[p.ts := p, q.ts := q], p.author);
      && Keyed(one, NONE) && View(one, NONE) == Pair({q}, {})
      && Keyed(two, NONE) && View(two, NONE) == Pair({q, p}, {})
  {
    var a := p.author;
    var one, two := Holding(map[q.ts := q], a), Holding(map[p.ts := p, q.ts := q], a);
    assert one[a][q.ts] == q && two[a][q.ts] == q && two[a][p.ts] == p;
    assert q.ts in one[a] && q.ts in two[a];
    assert All(one) == {q} && All(two) == {q, p} && All(NONE) == {};
  }

  lemma PairRanks(p: SignedPlacement, q: SignedPlacement)
    requires p.author == q.author && p.ts < q.ts
    ensures TileLaws.Winner({q, p}, p) && TileLaws.Winner({q, p}, q)
    ensures TileLaws.Rank({q, p}, p) == 1 && TileLaws.Rank({q, p}, q) == 0
  {
    hide HoldsSlot;
    TileLaws.NeverBeatsItself(p);
    TileLaws.NeverBeatsItself(q);
    var times := TileLaws.Times({q, p}, p.author);
    assert forall t | t in times :: t == p.ts || t == q.ts;
    assert q in {q, p} && q.ts in times;
    assert Above(TimeLess, times, p.ts) == {q.ts} && Above(TimeLess, times, q.ts) == {};
  }

  lemma PairFrom(p: SignedPlacement, q: SignedPlacement)
    requires p.author == q.author && p.ts < q.ts
    ensures TileLaws.From({q, p}, 1, 0) == Pair({q}, {}) && TileLaws.From({q, p}, 2, 0) == Pair({q, p}, {})
  {
    hide *;
    var d, one, two := {q, p}, TileLaws.From({q, p}, 1, 0), TileLaws.From({q, p}, 2, 0);
    PairRanks(p, q);
    forall r
      ensures r in one.live <==> r in {q}
      ensures r in two.live <==> r in {q, p}
      ensures r !in one.baked && r !in two.baked
    {
      TileLaws.NormalForm(d, r, 1, 0);
      TileLaws.NormalForm(d, r, 2, 0);
      WinnerWithin(d, r);
    }
    assert one.live == {q} && two.live == {q, p} && one.baked == {} && two.baked == {};
  }

  lemma WinnerWithin(d: set<SignedPlacement>, r: SignedPlacement)
    ensures TileLaws.Winner(d, r) ==> r in d
  {
  }

  lemma PairSelections(p: SignedPlacement, q: SignedPlacement)
    requires q.ts == p.ts + 1 && q.ts < MAX_U64
    ensures Accepted(map[], map[q.ts := q], 2) == [q]
    ensures Accepted(map[], map[p.ts := p, q.ts := q], 2) == [p]
  {
    hide Chain, Greedy, Saturating;
    var x: seq<Entry>, y: seq<Entry> := [(p.ts, p)], [(q.ts, q)];
    PairChain(p, q);
    OneChain(q);
    SaturatingStep(2, p.ts);
    GreedyStep(x + y, Saturating(2), 0);
    assert (x + y)[1..] == y && y[1..] == [] && x + y == [(p.ts, p), (q.ts, q)];
    GreedyStep(y, Saturating(2), p.ts + 2);
    GreedyStep(y, Saturating(2), 0);
    GreedyStep([], Saturating(2), p.ts + 2);
    GreedyStep([], Saturating(2), Saturating(2)(q.ts));
  }

  lemma OneChain(q: SignedPlacement)
    ensures Chain(map[], map[q.ts := q]) == [(q.ts, q)]
  {
    hide Pairs;
    OnePair(q);
    var es: seq<Entry> := [(q.ts, q)];
    assert Pairs(map[]) + Pairs(map[q.ts := q]) == es;
    assert SortByTime(es[1..]) == [];
  }

  lemma OnePair(q: SignedPlacement)
    ensures Pairs(map[q.ts := q]) == [(q.ts, q)] && Pairs(map[]) == []
  {
    hide Sorted;
    var one: Log := map[q.ts := q];
    var times := SortedTimes(one.Keys);
    forall t
      ensures t in [q.ts] <==> t in times
    {
      assert t in times <==> t in Elems(times);
    }
    AscendingUnique(TimeLess, [q.ts], times);
  }

  /** Two placements one second apart under a cap of one. The longer history accepts the
      older and rejects the newer; the capped tile, which lost the older, accepts the newer. */
  lemma LosingRevives(p: SignedPlacement, q: SignedPlacement)
    requires p.author == q.author && q.ts == p.ts + 1 && q.ts < MAX_U64
    ensures var live, full := Holding(map[q.ts := q], p.author), Holding(map[p.ts := p, q.ts := q], p.author);
      && Wider({q, p}, live, NONE, 1, 0, full, NONE, 2, 0)
      && Accepted(LogOf(NONE, p.author), LogOf(live, p.author), 2) == [q]
      && Accepted(LogOf(NONE, p.author), LogOf(full, p.author), 2) == [p]
  {
    hide *;
    PairViews(p, q);
    PairFrom(p, q);
    PairSelections(p, q);
    OneAuthor(p.author, map[q.ts := q]);
    OneAuthor(p.author, map[p.ts := p, q.ts := q]);
    IsWider({q, p}, Holding(map[q.ts := q], p.author), NONE, 1, 0,
            Holding(map[p.ts := p, q.ts := q], p.author), NONE, 2, 0);
  }

  lemma OneAuthor(a: Bytes32, log: Log)
    ensures LogOf(Holding(log, a), a) == log && LogOf(NONE, a) == map[]
  {
  }

  lemma IsWider(
      d: set<SignedPlacement>, live: AuthorLogs, baked: AuthorLogs, logCap: nat, bakedCap: nat,
      full: AuthorLogs, rest: AuthorLogs, logCap': nat, bakedCap': nat)
    requires Keyed(live, baked) && View(live, baked) == TileLaws.From(d, logCap, bakedCap)
    requires Keyed(full, rest) && View(full, rest) == TileLaws.From(d, logCap', bakedCap')
    requires logCap + bakedCap <= logCap' + bakedCap'
    ensures Wider(d, live, baked, logCap, bakedCap, full, rest, logCap', bakedCap')
  {
    hide Keyed, TileLaws.From, View;
  }
}
