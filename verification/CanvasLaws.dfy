/** What the cooldown filter and the derived canvas promise. */
module CanvasLaws {
  import opened Bytes
  import opened Orders
  import opened Choice
  import opened Stores
  import opened Layers
  import opened Filter
  import opened Outcomes
  import opened TileLog
  import opened TileFilter
  import Tile
  import TileLaws

  type AuthorLogs = Logs<Bytes32>

  function TimeOf(p: SignedPlacement): nat { p.ts }

  // ---- The cooldown filter of one author --------------------------------------------------

  /** Every placement of the log is filed under its own time. */
  ghost predicate OwnTimes(log: Log) {
    forall t | t in log :: log[t].ts == t
  }

  ghost predicate Stored(baked: Log, live: Log, p: SignedPlacement) {
    (p.ts in baked && baked[p.ts] == p) || (p.ts in live && live[p.ts] == p)
  }

  lemma BarRises(cooldown: nat)
    ensures Rising(Saturating(cooldown)) && Rising(Plus(cooldown))
    ensures forall t: nat :: Saturating(cooldown)(t) >= t
    ensures forall t: nat | t + cooldown <= MAX_U64 :: Saturating(cooldown)(t) == Plus(cooldown)(t)
    ensures cooldown > 0 ==> forall t: nat | t < MAX_U64 :: Saturating(cooldown)(t) > t
  {
  }

  ghost function BelowEnd(log: Log): Log {
    map t | t in log && t < MAX_U64 :: log[t]
  }

  /** The greatest timestamp, which the bar saturates to, is not stored; or it is stored
      once, and nothing accepted before it is within the cooldown of it. */
  ghost predicate EndFits(baked: Log, live: Log, cooldown: nat) {
    || (MAX_U64 !in baked && MAX_U64 !in live)
    || (!(MAX_U64 in baked && MAX_U64 in live)
        && forall p | p in Accepted(BelowEnd(baked), BelowEnd(live), cooldown) :: p.ts + cooldown <= MAX_U64)
  }

  /** Accepted placements are stored, every other stored placement falls within the
      cooldown of an earlier accepted one, and no spaced selection of the stored ones is
      larger. They are a cooldown apart exactly when the end of time fits. */
  lemma CooldownOptimal(baked: Log, live: Log, cooldown: nat, other: seq<SignedPlacement>)
    requires OwnTimes(baked) && OwnTimes(live) && cooldown > 0
    requires Spaced(other, TimeOf, Plus(cooldown)) && forall p | p in other :: Stored(baked, live, p)
    ensures var acc := Accepted(baked, live, cooldown);
      && (forall p | p in acc :: Stored(baked, live, p))
      && (forall p | Stored(baked, live, p) && p !in acc ::
           exists a :: a in acc && a.ts <= p.ts < a.ts + cooldown)
      && |other| <= |acc|
      && (Spaced(acc, TimeOf, Plus(cooldown)) <==> EndFits(baked, live, cooldown))
  {
    hide *;
    CooldownSpaced(baked, live, cooldown);
    SpacingExact(baked, live, cooldown);
    CooldownRejects(baked, live, cooldown);
    CooldownMaximal(baked, live, cooldown, other);
  }

  lemma AcceptedEntries(baked: Log, live: Log, cooldown: nat)
    requires OwnTimes(baked) && OwnTimes(live)
    ensures var es := Greedy(Chain(baked, live), EntryTime, Saturating(cooldown), 0);
      && Accepted(baked, live, cooldown) == Values(es)
      && Spaced(es, EntryTime, Saturating(cooldown))
      && forall e | e in es :: e in Chain(baked, live) && e.0 == e.1.ts && Stored(baked, live, e.1)
  {
    var chain := Chain(baked, live);
    ChainByTime(baked, live);
    BarRises(cooldown);
    GreedySpaced(chain, EntryTime, Saturating(cooldown), 0);
    GreedyMembers(chain, EntryTime, Saturating(cooldown), 0);
    forall e | e in chain
      ensures e.0 == e.1.ts && Stored(baked, live, e.1)
    {
      ChainMembers(baked, live, e);
    }
  }

  lemma CooldownSpaced(baked: Log, live: Log, cooldown: nat)
    requires OwnTimes(baked) && OwnTimes(live)
    ensures Spaced(Accepted(baked, live, cooldown), TimeOf, Saturating(cooldown))
    ensures forall p | p in Accepted(baked, live, cooldown) :: Stored(baked, live, p)
  {
    hide Accepted, Greedy, Saturating, Stored, OwnTimes;
    AcceptedEntries(baked, live, cooldown);
    var es := Greedy(Chain(baked, live), EntryTime, Saturating(cooldown), 0);
    assert forall i | 0 <= i < |es| :: es[i] in es;
  }

  lemma RejectedWithin(baked: Log, live: Log, cooldown: nat, p: SignedPlacement) returns (a: SignedPlacement)
    requires OwnTimes(baked) && OwnTimes(live)
    requires Stored(baked, live, p) && p !in Accepted(baked, live, cooldown)
    ensures a in Accepted(baked, live, cooldown) && a.ts <= p.ts < a.ts + cooldown && p.ts < MAX_U64
  {
    hide Greedy, OwnTimes, Chain, Accepted, Stored, ByTime, Rising, Saturating;
    AcceptedEntries(baked, live, cooldown);
    var chain, acc := Chain(baked, live), Accepted(baked, live, cooldown);
    var es := Greedy(chain, EntryTime, Saturating(cooldown), 0);
    EntriesAccepted(es);
    StoredEntry(baked, live, p);
    ChainByTime(baked, live);
    GreedyRejects(chain, EntryTime, Saturating(cooldown), 0, (p.ts, p));
    var e :| e in es && EntryTime(e) <= p.ts < Saturating(cooldown)(EntryTime(e));
    SaturatingStep(cooldown, e.0);
    a := e.1;
  }

  lemma EntriesAccepted(es: seq<Entry>)
    ensures forall e | e in es :: e.1 in Values(es)
  {
    assert forall i | 0 <= i < |es| :: Values(es)[i] == es[i].1;
  }

  lemma StoredEntry(baked: Log, live: Log, p: SignedPlacement)
    requires OwnTimes(baked) && OwnTimes(live) && Stored(baked, live, p)
    ensures (p.ts, p) in Chain(baked, live)
  {
    hide Chain;
    ChainMembers(baked, live, (p.ts, p));
  }

  lemma CooldownRejects(baked: Log, live: Log, cooldown: nat)
    requires OwnTimes(baked) && OwnTimes(live)
    ensures forall p | Stored(baked, live, p) && p !in Accepted(baked, live, cooldown) ::
      exists a :: a in Accepted(baked, live, cooldown) && a.ts <= p.ts < a.ts + cooldown
  {
    forall p | Stored(baked, live, p) && p !in Accepted(baked, live, cooldown)
      ensures exists a :: a in Accepted(baked, live, cooldown) && a.ts <= p.ts < a.ts + cooldown
    {
      var a := RejectedWithin(baked, live, cooldown, p);
    }
  }

  // ---- Ties in time ------------------------------------------------------------------------

  /** The entries at one time, in order. */
  ghost function AtTime(es: seq<Entry>, t: nat): seq<Entry> {
    if es == [] then [] else (if es[0].0 == t then [es[0]] else []) + AtTime(es[1..], t)
  }

  lemma AtTimeStep(es: seq<Entry>, t: nat)
    ensures es == [] ==> AtTime(es, t) == []
    ensures es != [] ==> AtTime(es, t) == (if es[0].0 == t then [es[0]] else []) + AtTime(es[1..], t)
  {
  }

  lemma {:induction false} NoneAtTime(es: seq<Entry>, t: nat)
    requires forall e | e in es :: e.0 != t
    ensures AtTime(es, t) == []
  {
    if es != [] { NoneAtTime(es[1..], t); }
  }

  lemma {:induction false} AtTimeConcat(p: seq<Entry>, q: seq<Entry>, t: nat)
    ensures AtTime(p + q, t) == AtTime(p, t) + AtTime(q, t)
  {
    hide AtTime;
    AtTimeStep(p, t);
    AtTimeStep(p + q, t);
    if p == [] {
      assert p + q == q;
    } else {
      assert (p + q)[1..] == p[1..] + q && (p + q)[0] == p[0];
      AtTimeConcat(p[1..], q, t);
    }
  }

  lemma {:induction false} InsertAtTime(e: Entry, q: seq<Entry>, t: nat)
    ensures AtTime(InsertByTime(e, q), t) == (if e.0 == t then [e] else []) + AtTime(q, t)
  {
    hide AtTime;
    AtTimeStep(q, t);
    AtTimeStep(InsertByTime(e, q), t);
    if q == [] || e.0 <= q[0].0 {
      assert InsertByTime(e, q) == [e] + q && ([e] + q)[1..] == q;
    } else {
      var r := InsertByTime(e, q[1..]);
      InsertAtTime(e, q[1..], t);
      assert ([q[0]] + r)[1..] == r;
    }
  }

  /** The sort keeps entries of one time in their order. */
  lemma {:induction false} SortIsStable(es: seq<Entry>, t: nat)
    ensures AtTime(SortByTime(es), t) == AtTime(es, t)
  {
    if es != [] {
      SortIsStable(es[1..], t);
      InsertAtTime(es[0], SortByTime(es[1..]), t);
    }
  }

  lemma {:induction false} OneAtTime(es: seq<Entry>, e: Entry)
    requires Ascending(EntryLess, es) && e in es
    ensures AtTime(es, e.0) == [e]
  {
    assert forall x | x in es[1..] :: EntryLess(es[0], x);
    if e == es[0] { NoneAtTime(es[1..], e.0); } else { OneAtTime(es[1..], e); }
  }

  lemma PairsAtTime(log: Log, t: u64)
    ensures AtTime(Pairs(log), t) == if t in log then [(t, log[t])] else []
  {
    hide Pairs;
    PairTimes(log);
    if t in log {
      PairsMembers(log, (t, log[t]));
      OneAtTime(Pairs(log), (t, log[t]));
    } else {
      forall e | e in Pairs(log)
        ensures e.0 != t
      {
        PairsMembers(log, e);
      }
      NoneAtTime(Pairs(log), t);
    }
  }

  /** An author's chain is in time order and lists, of every time, the baked entry and then
      the live one. */
  lemma ChainExact(baked: Log, live: Log, t: u64)
    ensures ByTime(Chain(baked, live), EntryTime)
    ensures AtTime(Chain(baked, live), t) ==
      (if t in baked then [(t, baked[t])] else []) + (if t in live then [(t, live[t])] else [])
  {
    hide Pairs, SortByTime;
    ChainByTime(baked, live);
    SortIsStable(Pairs(baked) + Pairs(live), t);
    AtTimeConcat(Pairs(baked), Pairs(live), t);
    PairsAtTime(baked, t);
    PairsAtTime(live, t);
  }

  // ---- The end of time ---------------------------------------------------------------------

  lemma {:induction false} UntilAscends(es: seq<Entry>, c: nat)
    requires Ascending(EntryLess, es)
    ensures Ascending(EntryLess, Until(es, EntryTime, c))
  {
    if es != [] {
      UntilAscends(es[1..], c);
      UntilMembers(es[1..], EntryTime, c);
      var tail := Until(es[1..], EntryTime, c);
      forall j | 0 <= j < |tail|
        ensures EntryLess(es[0], tail[j])
      {
        assert tail[j] in tail;
        var k :| 0 <= k < |es[1..]| && es[1..][k] == tail[j];
        assert EntryLess(es[0], es[k + 1]);
      }
    }
  }

  lemma PairsBelow(log: Log)
    ensures Pairs(BelowEnd(log)) == Until(Pairs(log), EntryTime, MAX_U64 - 1)
  {
    hide Pairs, Until;
    PairTimes(log);
    PairTimes(BelowEnd(log));
    UntilAscends(Pairs(log), MAX_U64 - 1);
    UntilMembers(Pairs(log), EntryTime, MAX_U64 - 1);
    forall e
      ensures e in Pairs(BelowEnd(log)) <==> e in Until(Pairs(log), EntryTime, MAX_U64 - 1)
    {
      PairsMembers(log, e);
      PairsMembers(BelowEnd(log), e);
    }
    AscendingUnique(EntryLess, Pairs(BelowEnd(log)), Until(Pairs(log), EntryTime, MAX_U64 - 1));
  }

  /** Cutting the logs below the end cuts the chain. */
  lemma ChainBelow(baked: Log, live: Log)
    ensures Chain(BelowEnd(baked), BelowEnd(live)) == Until(Chain(baked, live), EntryTime, MAX_U64 - 1)
  {
    hide Pairs, Until, SortByTime;
    PairsBelow(baked);
    PairsBelow(live);
    UntilConcat(Pairs(baked), Pairs(live), EntryTime, MAX_U64 - 1);
    SortUntil(Pairs(baked) + Pairs(live), MAX_U64 - 1);
  }

  lemma ChainSize(baked: Log, live: Log)
    ensures |Chain(baked, live)| == |baked| + |live|
  {
    hide SortByTime;
    SortSize(Pairs(baked) + Pairs(live));
    assert |baked| == |baked.Keys| && |live| == |live.Keys|;
  }

  function AtEnd(log: Log): nat { if MAX_U64 in log then 1 else 0 }

  lemma BelowEndSize(log: Log)
    ensures |BelowEnd(log)| + AtEnd(log) == |log|
  {
    assert |log| == |log.Keys| && |BelowEnd(log)| == |BelowEnd(log).Keys|;
    if MAX_U64 in log {
      assert log.Keys == BelowEnd(log).Keys + {MAX_U64};
    } else {
      assert log.Keys == BelowEnd(log).Keys;
    }
  }

  /** What is stored at the end is always accepted, however close. */
  lemma {:induction false} AllAtEnd(q: seq<Entry>, cooldown: nat, lo: nat)
    requires lo <= MAX_U64 && forall e | e in q :: e.0 == MAX_U64
    ensures Greedy(q, EntryTime, Saturating(cooldown), lo) == q
  {
    hide Greedy, Saturating;
    var bar := Saturating(cooldown);
    GreedyStep(q, bar, lo);
    if q != [] {
      assert q[0] in q && forall e | e in q[1..] :: e in q;
      SaturatingStep(cooldown, q[0].0);
      AllAtEnd(q[1..], cooldown, bar(q[0].0));
      assert q == [q[0]] + q[1..];
    }
  }

  lemma AfterWithin(p: seq<Entry>, cooldown: nat)
    ensures After(p, EntryTime, Saturating(cooldown), 0) <= MAX_U64
  {
    hide Greedy, Saturating;
    var acc := Greedy(p, EntryTime, Saturating(cooldown), 0);
    if acc != [] { SaturatingStep(cooldown, acc[|acc| - 1].0); }
  }

  lemma GreedyEnd(p: seq<Entry>, q: seq<Entry>, cooldown: nat)
    requires forall e | e in q :: e.0 == MAX_U64
    ensures Greedy(p + q, EntryTime, Saturating(cooldown), 0) == Greedy(p, EntryTime, Saturating(cooldown), 0) + q
  {
    hide *;
    GreedyConcat(p, q, EntryTime, Saturating(cooldown), 0);
    AfterWithin(p, cooldown);
    AllAtEnd(q, cooldown, After(p, EntryTime, Saturating(cooldown), 0));
  }

  lemma ValuesSplit(p: seq<Entry>, q: seq<Entry>)
    ensures Values(p + q) == Values(p) + Values(q)
  {
  }

  lemma AcceptedValues(baked: Log, live: Log, cooldown: nat)
    ensures Accepted(baked, live, cooldown) == Values(Greedy(Chain(baked, live), EntryTime, Saturating(cooldown), 0))
  {
  }

  /** The accepted placements are those of the history below the end, then what is at it. */
  lemma AcceptedSplit(baked: Log, live: Log, cooldown: nat) returns (end: seq<SignedPlacement>)
    requires OwnTimes(baked) && OwnTimes(live)
    ensures Accepted(baked, live, cooldown) == Accepted(BelowEnd(baked), BelowEnd(live), cooldown) + end
    ensures |end| == AtEnd(baked) + AtEnd(live) && forall p | p in end :: p.ts == MAX_U64
    ensures forall p | p in Accepted(BelowEnd(baked), BelowEnd(live), cooldown) :: p.ts < MAX_U64
  {
    hide *;
    var tail := ChainSplit(baked, live);
    var low := Chain(BelowEnd(baked), BelowEnd(live));
    GreedyEnd(low, tail, cooldown);
    AcceptedValues(baked, live, cooldown);
    AcceptedValues(BelowEnd(baked), BelowEnd(live), cooldown);
    ValuesSplit(Greedy(low, EntryTime, Saturating(cooldown), 0), tail);
    end := Values(tail);
    BelowOwnTimes(baked);
    BelowOwnTimes(live);
    CooldownSpaced(BelowEnd(baked), BelowEnd(live), cooldown);
    StoredBelow(baked, live);
  }

  lemma ChainSplit(baked: Log, live: Log) returns (tail: seq<Entry>)
    requires OwnTimes(baked) && OwnTimes(live)
    ensures Chain(baked, live) == Chain(BelowEnd(baked), BelowEnd(live)) + tail
    ensures |tail| == AtEnd(baked) + AtEnd(live)
    ensures forall e | e in tail :: e.0 == MAX_U64
    ensures forall p | p in Values(tail) :: p.ts == MAX_U64
  {
    hide Chain, Until, BelowEnd, AtEnd, ByTime, OwnTimes;
    var chain := Chain(baked, live);
    var low := Until(chain, EntryTime, MAX_U64 - 1);
    ChainByTime(baked, live);
    UntilIsPrefix(chain, EntryTime, MAX_U64 - 1);
    tail := chain[|low|..];
    assert chain == low + tail;
    ChainBelow(baked, live);
    ChainSize(baked, live);
    ChainSize(BelowEnd(baked), BelowEnd(live));
    BelowEndSize(baked);
    BelowEndSize(live);
    TailTimes(baked, live, |low|);
  }

  lemma TailTimes(baked: Log, live: Log, n: nat)
    requires OwnTimes(baked) && OwnTimes(live) && n <= |Chain(baked, live)|
    requires forall i | n <= i < |Chain(baked, live)| :: EntryTime(Chain(baked, live)[i]) > MAX_U64 - 1
    ensures forall e | e in Chain(baked, live)[n..] :: e.0 == MAX_U64
    ensures forall p | p in Values(Chain(baked, live)[n..]) :: p.ts == MAX_U64
  {
    hide Chain;
    var chain := Chain(baked, live);
    forall e | e in chain[n..]
      ensures e.0 == MAX_U64 && e.1.ts == MAX_U64
    {
      var i :| 0 <= i < |chain[n..]| && chain[n..][i] == e;
      assert chain[n + i] == e && EntryTime(chain[n + i]) > MAX_U64 - 1;
      assert e in chain;
      ChainMembers(baked, live, e);
    }
    forall p | p in Values(chain[n..])
      ensures p.ts == MAX_U64
    {
      var i :| 0 <= i < |chain[n..]| && Values(chain[n..])[i] == p;
      assert chain[n..][i] in chain[n..];
    }
  }

  lemma BelowOwnTimes(log: Log)
    requires OwnTimes(log)
    ensures OwnTimes(BelowEnd(log)) && MAX_U64 !in BelowEnd(log)
  {
  }

  lemma StoredBelow(baked: Log, live: Log)
    ensures forall p | Stored(BelowEnd(baked), BelowEnd(live), p) :: p.ts < MAX_U64 && Stored(baked, live, p)
    ensures forall p | Stored(baked, live, p) && p.ts < MAX_U64 :: Stored(BelowEnd(baked), BelowEnd(live), p)
    ensures forall p | Stored(baked, live, p) && p.ts == MAX_U64 :: AtEnd(baked) + AtEnd(live) >= 1
  {
  }

  /** Below the end the saturating bar is the plain one. */
  lemma BelowEndSpaced(baked: Log, live: Log, cooldown: nat)
    requires OwnTimes(baked) && OwnTimes(live)
    ensures Spaced(Accepted(BelowEnd(baked), BelowEnd(live), cooldown), TimeOf, Plus(cooldown))
  {
    hide Accepted, BelowEnd, Stored;
    BelowOwnTimes(baked);
    BelowOwnTimes(live);
    StoredBelow(baked, live);
    CooldownSpaced(BelowEnd(baked), BelowEnd(live), cooldown);
    var acc := Accepted(BelowEnd(baked), BelowEnd(live), cooldown);
    forall i, j | 0 <= i < j < |acc|
      ensures TimeOf(acc[j]) >= Plus(cooldown)(TimeOf(acc[i]))
    {
      assert acc[i] in acc && acc[j] in acc;
      assert TimeOf(acc[j]) >= Saturating(cooldown)(TimeOf(acc[i]));
    }
  }

  /** The accepted placements are a cooldown apart exactly when the end of time fits. */
  lemma SpacingExact(baked: Log, live: Log, cooldown: nat)
    requires OwnTimes(baked) && OwnTimes(live) && cooldown > 0
    ensures Spaced(Accepted(baked, live, cooldown), TimeOf, Plus(cooldown)) <==> EndFits(baked, live, cooldown)
  {
    hide Accepted, BelowEnd, OwnTimes;
    var end := AcceptedSplit(baked, live, cooldown);
    BelowEndSpaced(baked, live, cooldown);
    var acc0 := Accepted(BelowEnd(baked), BelowEnd(live), cooldown);
    SpacedWithEnd(acc0, end, cooldown);
  }

  lemma SpacedWithEnd(low: seq<SignedPlacement>, end: seq<SignedPlacement>, cooldown: nat)
    requires cooldown > 0 && Spaced(low, TimeOf, Plus(cooldown)) && forall p | p in end :: p.ts == MAX_U64
    ensures Spaced(low + end, TimeOf, Plus(cooldown)) <==>
      end == [] || (|end| == 1 && forall p | p in low :: p.ts + cooldown <= MAX_U64)
  {
    if end == [] {
      assert low + end == low;
    } else if |end| == 1 {
      assert end == [end[0]] && end[0] in end;
      SpacedWithOne(low, end[0], cooldown);
    } else {
      var all, n := low + end, |low|;
      assert end[0] in end && end[1] in end && all[n] == end[0] && all[n + 1] == end[1];
      assert TimeOf(all[n + 1]) < Plus(cooldown)(TimeOf(all[n]));
    }
  }

  lemma SpacedWithOne(low: seq<SignedPlacement>, last: SignedPlacement, cooldown: nat)
    requires Spaced(low, TimeOf, Plus(cooldown))
    ensures Spaced(low + [last], TimeOf, Plus(cooldown)) <==> forall p | p in low :: p.ts + cooldown <= last.ts
  {
    hide Spaced;
    SpacedSnoc(low, last, Plus(cooldown));
    assert forall i | 0 <= i < |low| :: low[i] in low;
  }

  lemma SpacedSnoc(low: seq<SignedPlacement>, last: SignedPlacement, bar: nat -> nat)
    requires Spaced(low, TimeOf, bar)
    ensures Spaced(low + [last], TimeOf, bar) <==> forall i | 0 <= i < |low| :: TimeOf(last) >= bar(TimeOf(low[i]))
  {
    var all, n := low + [last], |low|;
    assert all[n] == last && forall i | 0 <= i < n :: all[i] == low[i];
    if Spaced(all, TimeOf, bar) {
      forall i | 0 <= i < n
        ensures TimeOf(last) >= bar(TimeOf(low[i]))
      {
        assert TimeOf(all[n]) >= bar(TimeOf(all[i]));
      }
    }
  }

  /** No spaced selection of the stored placements is larger than what is accepted. */
  lemma CooldownMaximal(baked: Log, live: Log, cooldown: nat, other: seq<SignedPlacement>)
    requires OwnTimes(baked) && OwnTimes(live) && cooldown > 0
    requires Spaced(other, TimeOf, Plus(cooldown)) && forall p | p in other :: Stored(baked, live, p)
    ensures |other| <= |Accepted(baked, live, cooldown)|
  {
    hide Accepted, BelowEnd, OwnTimes, Stored, AtEnd;
    BelowOwnTimes(baked);
    BelowOwnTimes(live);
    StoredBelow(baked, live);
    var end := AcceptedSplit(baked, live, cooldown);
    var n := |other| - 1;
    forall i | 0 <= i < n
      ensures other[i].ts < MAX_U64
    {
      assert TimeOf(other[n]) >= Plus(cooldown)(TimeOf(other[i]));
    }
    if other != [] {
      assert other[n] in other;
      var early := if other[n].ts < MAX_U64 then other else other[..n];
      forall p | p in early
        ensures Stored(BelowEnd(baked), BelowEnd(live), p)
      {
        assert p in other;
      }
      MaximalBelowEnd(BelowEnd(baked), BelowEnd(live), cooldown, early);
    }
  }

  lemma MaximalBelowEnd(baked: Log, live: Log, cooldown: nat, other: seq<SignedPlacement>)
    requires OwnTimes(baked) && OwnTimes(live) && cooldown > 0 && MAX_U64 !in baked && MAX_U64 !in live
    requires Spaced(other, TimeOf, Plus(cooldown)) && forall p | p in other :: Stored(baked, live, p)
    ensures |other| <= |Accepted(baked, live, cooldown)|
  {
    hide Saturating, Plus, Greedy, Chain, Accepted;
    AcceptedEntries(baked, live, cooldown);
    var chain := Chain(baked, live);
    ChainByTime(baked, live);
    BarRises(cooldown);
    forall e | e in chain
      ensures Saturating(cooldown)(EntryTime(e)) > EntryTime(e)
    {
      ChainMembers(baked, live, e);
    }
    PlusAbove(cooldown);
    var pairs := seq(|other|, i requires 0 <= i < |other| => (other[i].ts, other[i]));
    forall e | e in pairs
      ensures e in chain
    {
      var i :| 0 <= i < |other| && pairs[i] == e;
      assert other[i] in other;
      ChainMembers(baked, live, e);
    }
    forall i, j | 0 <= i < j < |pairs|
      ensures EntryTime(pairs[j]) >= Saturating(cooldown)(EntryTime(pairs[i]))
    {
      assert TimeOf(other[j]) >= Plus(cooldown)(TimeOf(other[i]));
    }
    GreedyOptimal(chain, EntryTime, Saturating(cooldown), 0, pairs);
  }

  lemma PlusAbove(cooldown: nat)
    ensures forall t: nat :: Plus(cooldown)(t) >= Saturating(cooldown)(t)
  {
  }

  lemma PairPairs(p: SignedPlacement, q: SignedPlacement)
    requires p.ts < q.ts
    ensures Pairs(map[p.ts := p, q.ts := q]) == [(p.ts, p), (q.ts, q)] && Pairs(map[]) == []
  {
    hide Sorted;
    var live: Log := map[p.ts := p, q.ts := q];
    var times, two := SortedTimes(live.Keys), [p.ts, q.ts];
    forall t
      ensures t in two <==> t in times
    {
      assert t in times <==> t in Elems(times);
      if t == p.ts { assert two[0] == t; }
      if t == q.ts { assert two[1] == t; }
    }
    AscendingUnique(TimeLess, two, times);
  }

  lemma PairChain(p: SignedPlacement, q: SignedPlacement)
    requires p.ts < q.ts
    ensures Chain(map[], map[p.ts := p, q.ts := q]) == [(p.ts, p), (q.ts, q)]
  {
    hide Pairs;
    PairPairs(p, q);
    var es: seq<Entry> := [(p.ts, p), (q.ts, q)];
    assert Pairs(map[]) + Pairs(map[p.ts := p, q.ts := q]) == es;
    assert SortByTime(es[1..][1..]) == [];
    assert SortByTime(es[1..]) == [(q.ts, q)];
    assert SortByTime(es) == InsertByTime((p.ts, p), [(q.ts, q)]);
  }

  /** One second apart at the end of time, and both accepted: too close, and too many. */
  lemma SaturationBreaksSpacing(p: SignedPlacement, q: SignedPlacement)
    requires p.ts == MAX_U64 - 1 && q.ts == MAX_U64
    ensures Accepted(map[], map[p.ts := p, q.ts := q], 2) == [p, q]
    ensures 2 > 1 + (q.ts - p.ts) / 2
  {
    hide Chain, Greedy, Saturating;
    var es: seq<Entry> := [(p.ts, p), (q.ts, q)];
    PairChain(p, q);
    GreedyStep(es, Saturating(2), 0);
    SaturatingStep(2, p.ts);
    GreedyStep([(q.ts, q)], Saturating(2), MAX_U64);
    GreedyStep([], Saturating(2), Saturating(2)(q.ts));
    assert es[1..] == [(q.ts, q)] && [(q.ts, q)][1..] == [];
    assert Greedy(es, EntryTime, Saturating(2), 0) == es;
  }

  /** The oldest stored placement is accepted first. At most 1 + (newest - oldest) / cooldown
      are accepted exactly when nothing is stored at the end of time, or what is accepted
      below it leaves room for what is stored at it. */
  lemma CooldownCountExact(baked: Log, live: Log, cooldown: nat)
    requires OwnTimes(baked) && OwnTimes(live) && cooldown > 0 && Accepted(baked, live, cooldown) != []
    ensures var acc := Accepted(baked, live, cooldown);
      var below, end := |Accepted(BelowEnd(baked), BelowEnd(live), cooldown)|, AtEnd(baked) + AtEnd(live);
      && (forall p | Stored(baked, live, p) :: acc[0].ts <= p.ts)
      && acc[0].ts <= acc[|acc| - 1].ts <= MAX_U64
      && (|acc| <= 1 + (acc[|acc| - 1].ts - acc[0].ts) / cooldown <==>
          end == 0 || (below + end - 1) * cooldown <= MAX_U64 - acc[0].ts)
  {
    hide Accepted, BelowEnd, OwnTimes, Plus, Saturating, AtEnd;
    var end := AcceptedSplit(baked, live, cooldown);
    OldestFirst(baked, live, cooldown);
    var acc := Accepted(baked, live, cooldown);
    if end == [] {
      BelowEndSpaced(baked, live, cooldown);
      assert acc == Accepted(BelowEnd(baked), BelowEnd(live), cooldown);
      SpacedCount(acc, TimeOf, cooldown);
    } else {
      assert acc[|acc| - 1] == end[|end| - 1] && end[|end| - 1] in end;
      CountExact(|acc| - 1, cooldown, MAX_U64 - acc[0].ts);
    }
  }

  lemma OldestFirst(baked: Log, live: Log, cooldown: nat)
    requires OwnTimes(baked) && OwnTimes(live) && Accepted(baked, live, cooldown) != []
    ensures var acc := Accepted(baked, live, cooldown); forall p | p in acc || Stored(baked, live, p) :: acc[0].ts <= p.ts
  {
    hide Accepted, Saturating, Stored, OwnTimes;
    CooldownSpaced(baked, live, cooldown);
    CooldownRejects(baked, live, cooldown);
    BarRises(cooldown);
    var acc := Accepted(baked, live, cooldown);
    forall p | p in acc
      ensures acc[0].ts <= p.ts
    {
      var i :| 0 <= i < |acc| && acc[i] == p;
      assert i > 0 ==> TimeOf(acc[i]) >= Saturating(cooldown)(TimeOf(acc[0]));
    }
  }

  lemma CountExact(n: nat, gap: nat, span: nat)
    requires gap > 0
    ensures n <= span / gap <==> n * gap <= span
  {
    if n * gap <= span { DivideBound(n, gap, span); } else if n <= span / gap { FewEnough(n, gap, span); }
  }

  lemma FewEnough(n: nat, gap: nat, span: nat)
    requires gap > 0 && n <= span / gap
    ensures n * gap <= span
  {
    var q := span / gap;
    assert span == q * gap + span % gap && q * gap == n * gap + (q - n) * gap && (q - n) * gap >= 0;
  }

  /** So the bound holds wherever the end of time fits. */
  lemma CooldownCount(baked: Log, live: Log, cooldown: nat)
    requires OwnTimes(baked) && OwnTimes(live) && cooldown > 0 && EndFits(baked, live, cooldown)
    requires Accepted(baked, live, cooldown) != []
    ensures var acc := Accepted(baked, live, cooldown);
      acc[0].ts <= acc[|acc| - 1].ts && |acc| <= 1 + (acc[|acc| - 1].ts - acc[0].ts) / cooldown
  {
    hide Accepted, Plus;
    SpacingExact(baked, live, cooldown);
    SpacedCount(Accepted(baked, live, cooldown), TimeOf, cooldown);
  }

  // ---- The canvas --------------------------------------------------------------------------

  ghost predicate Keyed(live: AuthorLogs, baked: AuthorLogs) {
    KeyedLogs(live, Own) && KeyedLogs(baked, Own)
  }

  /** An author's chain lists exactly that author's stored placements under their times. */
  lemma ChainIsContents(live: AuthorLogs, baked: AuthorLogs, a: Bytes32, e: Entry)
    requires Keyed(live, baked)
    ensures OwnTimes(LogOf(live, a)) && OwnTimes(LogOf(baked, a))
    ensures e in Chain(LogOf(baked, a), LogOf(live, a)) <==>
      e.1.author == a && e.0 == e.1.ts && e.1 in All(live) + All(baked)
  {
    ChainMembers(LogOf(baked, a), LogOf(live, a), e);
    InAll(live, Own, e.1);
    InAll(baked, Own, e.1);
  }

  lemma AcceptedIsStored(live: AuthorLogs, baked: AuthorLogs, a: Bytes32, cooldown: nat, p: SignedPlacement)
    requires Keyed(live, baked) && p in Accepted(LogOf(baked, a), LogOf(live, a), cooldown)
    ensures p.author == a && p in All(live) + All(baked)
  {
    hide All, KeyedLogs, Chain;
    ChainIsContents(live, baked, a, (p.ts, p));
    GreedyFrom(Chain(LogOf(baked, a), LogOf(live, a)), EntryTime, Saturating(cooldown), 0);
    var es := Greedy(Chain(LogOf(baked, a), LogOf(live, a)), EntryTime, Saturating(cooldown), 0);
    var i :| 0 <= i < |es| && es[i].1 == p;
    assert es[i] in es;
    ChainIsContents(live, baked, a, es[i]);
  }

  /** A placement is valid when its author has a tier and the cooldown accepts it. */
  lemma {:induction false} InValid(
      authors: seq<Bytes32>, live: AuthorLogs, baked: AuthorLogs, tierOf: Bytes32 -> Option<Tier>, p: SignedPlacement)
    requires Keyed(live, baked)
    ensures p in Valid(authors, live, baked, tierOf) <==>
      && p.author in authors && tierOf(p.author).Some?
      && p in Accepted(LogOf(baked, p.author), LogOf(live, p.author), Cooldown(tierOf(p.author).value))
  {
    if authors != [] {
      hide Accepted, KeyedLogs;
      var init, a := authors[..|authors| - 1], authors[|authors| - 1];
      assert authors == init + [a];
      InValid(init, live, baked, tierOf, p);
      if tierOf(a).Some? && p in Accepted(LogOf(baked, a), LogOf(live, a), Cooldown(tierOf(a).value)) {
        AcceptedIsStored(live, baked, a, Cooldown(tierOf(a).value), p);
      }
    }
  }

  lemma ValidIsAccepted(live: AuthorLogs, baked: AuthorLogs, tierOf: Bytes32 -> Option<Tier>, p: SignedPlacement)
    requires Keyed(live, baked)
    ensures p in ValidPlacements(live, baked, tierOf) <==>
      && tierOf(p.author).Some?
      && p in Accepted(LogOf(baked, p.author), LogOf(live, p.author), Cooldown(tierOf(p.author).value))
    ensures p in ValidPlacements(live, baked, tierOf) <==>
      match tierOf(p.author)
      case None => false
      case Some(Pow) => p in Accepted(LogOf(baked, p.author), LogOf(live, p.author), 20)
      case Some(Ghostkey) => p in Accepted(LogOf(baked, p.author), LogOf(live, p.author), 2)
  {
    hide Accepted, Valid;
    var authors := SortedAuthors(live.Keys + baked.Keys);
    InValid(authors, live, baked, tierOf, p);
    if tierOf(p.author).Some?
       && p in Accepted(LogOf(baked, p.author), LogOf(live, p.author), Cooldown(tierOf(p.author).value)) {
      AcceptedIsStored(live, baked, p.author, Cooldown(tierOf(p.author).value), p);
      InAll(live, Own, p);
      InAll(baked, Own, p);
      assert p.author in Elems(authors);
    }
  }

  /** An admitted author's two logs do not disagree at the greatest timestamp. */
  ghost predicate OneAtTheEnd(live: AuthorLogs, baked: AuthorLogs, tierOf: Bytes32 -> Option<Tier>) {
    forall a | tierOf(a).Some? && MAX_U64 in LogOf(live, a) && MAX_U64 in LogOf(baked, a) ::
      LogOf(live, a)[MAX_U64] == LogOf(baked, a)[MAX_U64]
  }

  ghost predicate OneEach(ps: seq<SignedPlacement>) {
    forall v, w | v in ps && w in ps && v.author == w.author && v.ts == w.ts :: v == w
  }

  /** The filter accepts two placements of one author at one time only where the addition
      saturates: one live and one baked, both at the greatest timestamp. */
  lemma SameTime(
      live: AuthorLogs, baked: AuthorLogs, tierOf: Bytes32 -> Option<Tier>, v: SignedPlacement, w: SignedPlacement)
    requires Keyed(live, baked)
    requires v in ValidPlacements(live, baked, tierOf) && w in ValidPlacements(live, baked, tierOf)
    requires v.author == w.author && v.ts == w.ts
    ensures v == w || AtBothEnds(live, baked, v, w)
    ensures tierOf(v.author).Some?
  {
    hide *;
    ValidIsAccepted(live, baked, tierOf, v);
    ValidIsAccepted(live, baked, tierOf, w);
    var a, cooldown := v.author, Cooldown(tierOf(v.author).value);
    AuthorOwnTimes(live, baked, a);
    AcceptedIsStored(live, baked, a, cooldown, v);
    AcceptedIsStored(live, baked, a, cooldown, w);
    if v.ts < MAX_U64 {
      CooldownPositive(tierOf(a).value);
      OneBeforeTheEnd(LogOf(baked, a), LogOf(live, a), cooldown, v, w);
    } else {
      AtTheEnd(live, baked, v, w);
    }
  }

  lemma OneBeforeTheEnd(baked: Log, live: Log, cooldown: nat, v: SignedPlacement, w: SignedPlacement)
    requires OwnTimes(baked) && OwnTimes(live) && cooldown > 0
    requires v in Accepted(baked, live, cooldown) && w in Accepted(baked, live, cooldown)
    requires v.ts == w.ts < MAX_U64
    ensures v == w
  {
    hide Accepted, OwnTimes, Stored, Saturating;
    CooldownSpaced(baked, live, cooldown);
    BarRises(cooldown);
    var acc := Accepted(baked, live, cooldown);
    var i :| 0 <= i < |acc| && acc[i] == v;
    var j :| 0 <= j < |acc| && acc[j] == w;
    LaterAfter(acc, Saturating(cooldown), i);
    LaterAfter(acc, Saturating(cooldown), j);
  }

  lemma LaterAfter(acc: seq<SignedPlacement>, bar: nat -> nat, i: nat)
    requires i < |acc| && Spaced(acc, TimeOf, bar) && bar(acc[i].ts) > acc[i].ts
    ensures forall j | i < j < |acc| :: acc[j].ts > acc[i].ts
  {
    forall j | i < j < |acc|
      ensures acc[j].ts > acc[i].ts
    {
      assert TimeOf(acc[j]) >= bar(TimeOf(acc[i]));
    }
  }

  lemma AtTheEnd(live: AuthorLogs, baked: AuthorLogs, v: SignedPlacement, w: SignedPlacement)
    requires Keyed(live, baked) && v in All(live) + All(baked) && w in All(live) + All(baked)
    requires v.author == w.author && v.ts == w.ts >= MAX_U64
    ensures v == w || AtBothEnds(live, baked, v, w)
  {
    hide All;
    InAll(live, Own, v);
    InAll(live, Own, w);
    InAll(baked, Own, v);
    InAll(baked, Own, w);
    hide KeyedLogs;
  }

  lemma CooldownPositive(tier: Tier)
    ensures Cooldown(tier) > 0
  {
  }

  ghost predicate AtBothEnds(live: AuthorLogs, baked: AuthorLogs, v: SignedPlacement, w: SignedPlacement) {
    && v.ts == MAX_U64 && MAX_U64 in LogOf(live, v.author) && MAX_U64 in LogOf(baked, v.author)
    && {v, w} == {LogOf(live, v.author)[MAX_U64], LogOf(baked, v.author)[MAX_U64]}
  }

  lemma OnePerTime(
      live: AuthorLogs, baked: AuthorLogs, tierOf: Bytes32 -> Option<Tier>, v: SignedPlacement, w: SignedPlacement)
    requires Keyed(live, baked) && OneAtTheEnd(live, baked, tierOf)
    requires v in ValidPlacements(live, baked, tierOf) && w in ValidPlacements(live, baked, tierOf)
    requires v.author == w.author && v.ts == w.ts
    ensures v == w
  {
    hide TileFilter.ValidPlacements, KeyedLogs;
    SameTime(live, baked, tierOf, v, w);
    if AtBothEnds(live, baked, v, w) {
      assert v in {v, w} && w in {v, w};
    }
  }

  /** It does so exactly when no admitted author has two placements at the greatest
      timestamp, one live and one baked; that time is never cooled down. */
  lemma OnePerTimeExact(live: AuthorLogs, baked: AuthorLogs, tierOf: Bytes32 -> Option<Tier>)
    requires Keyed(live, baked)
    ensures OneEach(ValidPlacements(live, baked, tierOf)) <==> OneAtTheEnd(live, baked, tierOf)
  {
    hide Accepted, TileFilter.ValidPlacements, All, KeyedLogs;
    var valid := ValidPlacements(live, baked, tierOf);
    if OneAtTheEnd(live, baked, tierOf) {
      forall v, w | v in valid && w in valid && v.author == w.author && v.ts == w.ts
        ensures v == w
      {
        OnePerTime(live, baked, tierOf, v, w);
      }
    }
    if OneEach(valid) {
      forall a | tierOf(a).Some? && MAX_U64 in LogOf(live, a) && MAX_U64 in LogOf(baked, a)
        ensures LogOf(live, a)[MAX_U64] == LogOf(baked, a)[MAX_U64]
      {
        EndIsAccepted(live, baked, tierOf, a, LogOf(live, a)[MAX_U64]);
        EndIsAccepted(live, baked, tierOf, a, LogOf(baked, a)[MAX_U64]);
      }
    }
  }

  lemma EndIsAccepted(
      live: AuthorLogs, baked: AuthorLogs, tierOf: Bytes32 -> Option<Tier>, a: Bytes32, p: SignedPlacement)
    requires Keyed(live, baked) && tierOf(a).Some?
    requires (MAX_U64 in LogOf(live, a) && LogOf(live, a)[MAX_U64] == p) || (MAX_U64 in LogOf(baked, a) && LogOf(baked, a)[MAX_U64] == p)
    ensures p.author == a && p.ts == MAX_U64 && p in ValidPlacements(live, baked, tierOf)
  {
    hide Accepted, TileFilter.ValidPlacements, All;
    AuthorOwnTimes(live, baked, a);
    var cooldown := Cooldown(tierOf(a).value);
    if p !in Accepted(LogOf(baked, a), LogOf(live, a), cooldown) {
      var e := RejectedWithin(LogOf(baked, a), LogOf(live, a), cooldown, p);
    }
    ValidIsAccepted(live, baked, tierOf, p);
  }

  lemma AuthorOwnTimes(live: AuthorLogs, baked: AuthorLogs, a: Bytes32)
    requires Keyed(live, baked)
    ensures OwnTimes(LogOf(live, a)) && OwnTimes(LogOf(baked, a))
  {
  }

  /** The author's two placements at the greatest timestamp tie for one pixel. */
  ghost predicate TornEnd(live: AuthorLogs, baked: AuthorLogs, a: Bytes32) {
    && MAX_U64 in LogOf(live, a) && MAX_U64 in LogOf(baked, a)
    && var p, q := LogOf(live, a)[MAX_U64], LogOf(baked, a)[MAX_U64];
       p != q && p.coord == q.coord && p.signature == q.signature
  }

  /** A pixel with a valid placement shows the colour of one that no other there is later
      than, in (ts, author, signature): of the first such, and of every such but the two of
      a torn end. It shows the empty sentinel exactly where nothing valid was placed or the
      sentinel itself was. */
  lemma CanvasExact(live: AuthorLogs, baked: AuthorLogs, tierOf: Bytes32 -> Option<Tier>, c: u16, color: u8)
    requires Keyed(live, baked) && PixelRule(ValidPlacements(live, baked, tierOf), c, color)
    ensures var valid := ValidPlacements(live, baked, tierOf);
      (exists v :: v in valid && v.coord == c) ==> exists w :: ShownAt(valid, c, w) && color == w.color
    ensures forall w | First(ValidPlacements(live, baked, tierOf), c, w) :: color == w.color
    ensures forall w | Greatest(ValidPlacements(live, baked, tierOf), c, w) ::
      color == w.color || (w.ts == MAX_U64 && TornEnd(live, baked, w.author))
    ensures color == EMPTY_PIXEL <==>
      || (forall v | v in ValidPlacements(live, baked, tierOf) :: v.coord != c)
      || (exists w :: First(ValidPlacements(live, baked, tierOf), c, w) && w.color == EMPTY_PIXEL)
  {
    hide TileFilter.ValidPlacements, KeyedLogs, First;
    var valid := ValidPlacements(live, baked, tierOf);
    if exists v :: v in valid && v.coord == c {
      var u :| First(valid, c, u) && u.color == color;
      FirstIsGreatest(valid, c, u);
      GreatestIsShown(valid, c, u);
      forall w | Greatest(valid, c, w)
        ensures color == w.color || (w.ts == MAX_U64 && TornEnd(live, baked, w.author))
      {
        SameRank(u, w);
        SameTime(live, baked, tierOf, u, w);
        if u != w { TwoEnds(live, baked, u, w); }
      }
    } else {
      forall w | First(valid, c, w)
        ensures w in valid && w.coord == c
      {
        FirstIsGreatest(valid, c, w);
      }
    }
  }

  /** w is valid at c; every other valid placement there is older, or as old by a smaller
      author, or by the same author with a signature not greater. */
  ghost predicate ShownAt(valid: seq<SignedPlacement>, c: u16, w: SignedPlacement) {
    && w in valid && w.coord == c
    && forall v | v in valid && v.coord == c ::
         && v.ts <= w.ts
         && (v.ts == w.ts ==> v.author == w.author || BytesLess(v.author, w.author))
         && (v.ts == w.ts && v.author == w.author ==> !BytesLess(w.signature, v.signature))
  }

  lemma GreatestIsShown(valid: seq<SignedPlacement>, c: u16, w: SignedPlacement)
    ensures Greatest(valid, c, w) <==> ShownAt(valid, c, w)
  {
    BytesOrder();
    hide BytesLess;
  }

  lemma TwoEnds(live: AuthorLogs, baked: AuthorLogs, v: SignedPlacement, w: SignedPlacement)
    requires AtBothEnds(live, baked, v, w) && v != w && v.coord == w.coord && v.signature == w.signature
    ensures TornEnd(live, baked, v.author)
  {
    var p, q := LogOf(live, v.author)[MAX_U64], LogOf(baked, v.author)[MAX_U64];
    assert v in {p, q} && w in {p, q} && p in {v, w} && q in {v, w};
  }

  lemma SameRank(u: SignedPlacement, w: SignedPlacement)
    requires NotLater(u, w) && NotLater(w, u)
    ensures u.ts == w.ts && u.author == w.author && u.signature == w.signature
  {
    BytesOrder();
  }

  // ---- The canvas depends on the contents only ----------------------------------------------

  ghost predicate EntryLess(a: Entry, b: Entry) { a.0 < b.0 }

  ghost predicate DistinctTimes(es: seq<Entry>) {
    forall i, j | 0 <= i < j < |es| :: es[i].0 != es[j].0
  }

  lemma {:induction false} InsertStrict(e: Entry, q: seq<Entry>)
    requires Ascending(EntryLess, q) && forall x | x in q :: x.0 != e.0
    ensures Ascending(EntryLess, InsertByTime(e, q))
  {
    if q != [] {
      assert q[0] in q;
      if e.0 > q[0].0 {
        assert forall x | x in q[1..] :: x in q;
        InsertStrict(e, q[1..]);
        InsertMembers(e, q[1..]);
        var r := InsertByTime(e, q[1..]);
        forall j | 0 <= j < |r|
          ensures EntryLess(q[0], r[j])
        {
          assert r[j] in r;
        }
      }
    }
  }

  lemma {:induction false} SortStrict(es: seq<Entry>)
    requires DistinctTimes(es)
    ensures Ascending(EntryLess, SortByTime(es))
  {
    if es != [] {
      SortStrict(es[1..]);
      SortSorted(es[1..]);
      InsertStrict(es[0], SortByTime(es[1..]));
    }
  }

  lemma ChainStrict(baked: Log, live: Log)
    requires baked.Keys !! live.Keys
    ensures Ascending(EntryLess, Chain(baked, live))
  {
    hide SortByTime, Pairs;
    var p, q := Pairs(baked), Pairs(live);
    var es: seq<Entry> := p + q;
    PairTimes(baked);
    PairTimes(live);
    forall i, j | 0 <= i < j < |es|
      ensures es[i].0 != es[j].0
    {
      if j < |p| {
        assert es[i] == p[i] && es[j] == p[j];
      } else if i >= |p| {
        assert es[i] == q[i - |p|] && es[j] == q[j - |p|];
      } else {
        assert es[i] == p[i] && es[j] == q[j - |p|];
      }
    }
    SortStrict(es);
  }

  lemma PairTimes(log: Log)
    ensures forall i | 0 <= i < |Pairs(log)| :: Pairs(log)[i].0 in log
    ensures forall i, j | 0 <= i < j < |Pairs(log)| :: Pairs(log)[i].0 < Pairs(log)[j].0
  {
    var q := SortedTimes(log.Keys);
    forall i | 0 <= i < |q|
      ensures q[i] in log
    {
      assert q[i] in Elems(q);
    }
    forall i, j | 0 <= i < j < |q|
      ensures q[i] < q[j]
    {
      assert TimeLess(q[i], q[j]);
    }
  }

  /** No author has the same time key in both layers. */
  ghost predicate Apart(live: AuthorLogs, baked: AuthorLogs) {
    forall a :: LogOf(live, a).Keys !! LogOf(baked, a).Keys
  }

  lemma SameChain(live: AuthorLogs, baked: AuthorLogs, live': AuthorLogs, baked': AuthorLogs, a: Bytes32)
    requires Keyed(live, baked) && Keyed(live', baked') && Apart(live, baked) && Apart(live', baked')
    requires All(live) + All(baked) == All(live') + All(baked')
    ensures Chain(LogOf(baked, a), LogOf(live, a)) == Chain(LogOf(baked', a), LogOf(live', a))
  {
    hide Chain, All, KeyedLogs;
    ChainStrict(LogOf(baked, a), LogOf(live, a));
    ChainStrict(LogOf(baked', a), LogOf(live', a));
    var p, q := Chain(LogOf(baked, a), LogOf(live, a)), Chain(LogOf(baked', a), LogOf(live', a));
    forall e
      ensures e in p <==> e in q
    {
      ChainIsContents(live, baked, a, e);
      ChainIsContents(live', baked', a, e);
    }
    AscendingUnique(EntryLess, p, q);
  }

  lemma SameAuthors(live: AuthorLogs, baked: AuthorLogs, live': AuthorLogs, baked': AuthorLogs)
    requires Keyed(live, baked) && Keyed(live', baked') && All(live) + All(baked) == All(live') + All(baked')
    ensures live.Keys + baked.Keys <= live'.Keys + baked'.Keys
  {
    forall a | a in live.Keys + baked.Keys
      ensures a in live'.Keys + baked'.Keys
    {
      var log := if a in live then live[a] else baked[a];
      var t :| t in log;
      assert log[t] in All(live) + All(baked);
      InAll(live', Own, log[t]);
      InAll(baked', Own, log[t]);
    }
  }

  /** How the contents are split into live and baked does not show: states with the same
      contents, no time in both layers, have the same valid placements and so the same canvas. */
  lemma SameContentsSameValid(
      live: AuthorLogs, baked: AuthorLogs, live': AuthorLogs, baked': AuthorLogs, tierOf: Bytes32 -> Option<Tier>)
    requires Keyed(live, baked) && Keyed(live', baked') && Apart(live, baked) && Apart(live', baked')
    requires All(live) + All(baked) == All(live') + All(baked')
    ensures ValidPlacements(live, baked, tierOf) == ValidPlacements(live', baked', tierOf)
  {
    hide All, KeyedLogs, Valid, Apart;
    SameAuthors(live, baked, live', baked');
    SameAuthors(live', baked', live, baked);
    assert live.Keys + baked.Keys == live'.Keys + baked'.Keys;
    SameValid(SortedAuthors(live.Keys + baked.Keys), live, baked, live', baked', tierOf);
  }

  lemma {:induction false} SameValid(
      authors: seq<Bytes32>, live: AuthorLogs, baked: AuthorLogs, live': AuthorLogs, baked': AuthorLogs,
      tierOf: Bytes32 -> Option<Tier>)
    requires Keyed(live, baked) && Keyed(live', baked') && Apart(live, baked) && Apart(live', baked')
    requires All(live) + All(baked) == All(live') + All(baked')
    ensures Valid(authors, live, baked, tierOf) == Valid(authors, live', baked', tierOf)
  {
    if authors != [] {
      hide All, Keyed, Apart, Chain, Valid;
      var n := |authors| - 1;
      assert authors[..n + 1] == authors;
      ValidStep(authors, n, live, baked, tierOf);
      ValidStep(authors, n, live', baked', tierOf);
      SameValid(authors[..n], live, baked, live', baked', tierOf);
      SameChain(live, baked, live', baked', authors[n]);
    }
  }

  // ---- Within the caps nothing is lost -------------------------------------------------------

  lemma ReachableApart(live: AuthorLogs, baked: AuthorLogs, d: set<SignedPlacement>, logCap: nat, bakedCap: nat)
    requires Keyed(live, baked) && View(live, baked) == TileLaws.From(d, logCap, bakedCap)
    ensures Apart(live, baked)
  {
    hide TileLaws.From;
    forall a
      ensures LogOf(live, a).Keys !! LogOf(baked, a).Keys
    {
      forall t | t in LogOf(live, a) && t in LogOf(baked, a)
        ensures false
      {
        var p, q := baked[a][t], live[a][t];
        assert p in All(baked) && q in All(live);
        TileLaws.BakedBelowLive(d, p, logCap, bakedCap);
      }
    }
  }

  lemma ContentsOf(live: AuthorLogs, baked: AuthorLogs)
    ensures View(live, baked).live + View(live, baked).baked == All(live) + All(baked)
  {
  }

  /** While no author exceeds logCap + bakedCap distinct times, the capped state shows the
      same canvas as one whose caps are never reached: the full history. */
  lemma WithinCapsNothingLost(
      d: set<SignedPlacement>, live: AuthorLogs, baked: AuthorLogs, full: AuthorLogs, rest: AuthorLogs,
      logCap: nat, bakedCap: nat, big: nat, tierOf: Bytes32 -> Option<Tier>)
    requires Keyed(live, baked) && View(live, baked) == TileLaws.From(d, logCap, bakedCap)
    requires Keyed(full, rest) && View(full, rest) == TileLaws.From(d, big, bakedCap)
    requires big >= logCap && forall p | p in d :: |TileLaws.Times(d, p.author)| <= logCap + bakedCap
    ensures ValidPlacements(live, baked, tierOf) == ValidPlacements(full, rest, tierOf)
  {
    hide *;
    ContentsOf(live, baked);
    ContentsOf(full, rest);
    ReachableApart(live, baked, d, logCap, bakedCap);
    ReachableApart(full, rest, d, big, bakedCap);
    TileLaws.ContentsAreOneLog(d, logCap, bakedCap);
    TileLaws.ContentsAreOneLog(d, big, bakedCap);
    TileLaws.LargerCapSame(d, logCap + bakedCap, big + bakedCap);
    SameContentsSameValid(live, baked, full, rest, tierOf);
  }
}
