/** The cooldown filter and the last-writer-wins canvas (common/src/tile.rs) as functions
    of an author's two logs. */
module TileFilter {
  import opened Bytes
  import opened Orders
  import opened Filter
  import opened Outcomes
  import opened TileLog

  const EMPTY_PIXEL: u8 := 0xff
  const PALETTE_COLORS: u8 := 255
  const TILE_AREA: nat := 65536

  datatype Tier = Pow | Ghostkey

  function Cooldown(tier: Tier): nat {
    match tier
    case Pow => 20
    case Ghostkey => 2
  }

  /** A log entry with the time key it is filed under. */
  type Entry = (u64, SignedPlacement)

  function EntryTime(e: Entry): nat { e.0 }

  /** u64 saturating_add of the cooldown. */
  function Saturating(cooldown: nat): nat -> nat {
    (t: nat) => if t + cooldown > MAX_U64 then (if t > MAX_U64 then t else MAX_U64) else t + cooldown
  }

  function PairsAt(log: Log, times: seq<u64>): (r: seq<Entry>)
    requires forall t | t in times :: t in log
    ensures |r| == |times| && forall i | 0 <= i < |times| :: r[i] == (times[i], log[times[i]])
  {
    seq(|times|, i requires 0 <= i < |times| => (times[i], log[times[i]]))
  }

  /** A log's entries, oldest first. */
  function Pairs(log: Log): seq<Entry> {
    var q := SortedTimes(log.Keys);
    assert forall t | t in q :: t in Elems(q);
    PairsAt(log, q)
  }

  function InsertByTime(e: Entry, q: seq<Entry>): seq<Entry> {
    if q == [] then [e]
    else if e.0 <= q[0].0 then [e] + q
    else [q[0]] + InsertByTime(e, q[1..])
  }

  /** A stable sort by time. */
  function SortByTime(es: seq<Entry>): seq<Entry> {
    if es == [] then [] else InsertByTime(es[0], SortByTime(es[1..]))
  }

  /** One chain over an author's baked and live entries, earliest first. */
  function Chain(baked: Log, live: Log): seq<Entry> {
    SortByTime(Pairs(baked) + Pairs(live))
  }

  function Values(es: seq<Entry>): (r: seq<SignedPlacement>)
    ensures |r| == |es| && forall i | 0 <= i < |es| :: r[i] == es[i].1
  {
    seq(|es|, i requires 0 <= i < |es| => es[i].1)
  }

  /** What the cooldown accepts of one author. */
  function Accepted(baked: Log, live: Log, cooldown: nat): seq<SignedPlacement> {
    Values(Greedy(Chain(baked, live), EntryTime, Saturating(cooldown), 0))
  }

  /** All accepted placements, author by author; authors without a tier contribute none. */
  function Valid(
    authors: seq<Bytes32>, live: Logs<Bytes32>, baked: Logs<Bytes32>, tierOf: Bytes32 -> Option<Tier>): seq<SignedPlacement>
  {
    if authors == [] then []
    else
      var a := authors[|authors| - 1];
      Valid(authors[..|authors| - 1], live, baked, tierOf)
      + match tierOf(a)
        case None => []
        case Some(tier) => Accepted(LogOf(baked, a), LogOf(live, a), Cooldown(tier))
  }

  function ValidPlacements(
    live: Logs<Bytes32>, baked: Logs<Bytes32>, tierOf: Bytes32 -> Option<Tier>): seq<SignedPlacement>
  {
    Valid(SortedAuthors(live.Keys + baked.Keys), live, baked, tierOf)
  }

  /** Last-writer-wins order: (ts, author bytes, signature bytes). */
  predicate LwwLess(a: SignedPlacement, b: SignedPlacement) {
    a.ts < b.ts
    || (a.ts == b.ts && (BytesLess(a.author, b.author)
      || (a.author == b.author && BytesLess(a.signature, b.signature))))
  }

  /** v is older than w, or as old by a smaller author, or by the same author with a
      signature not greater. */
  ghost predicate NotLater(v: SignedPlacement, w: SignedPlacement) {
    v.ts < w.ts
    || (v.ts == w.ts && BytesLess(v.author, w.author))
    || (v.ts == w.ts && v.author == w.author && !BytesLess(w.signature, v.signature))
  }

  /** w is placed at c and nothing there is later. */
  ghost predicate Greatest(valid: seq<SignedPlacement>, c: u16, w: SignedPlacement) {
    w in valid && w.coord == c && forall v | v in valid && v.coord == c :: NotLater(v, w)
  }

  lemma NotLaterExact(v: SignedPlacement, w: SignedPlacement)
    ensures NotLater(v, w) <==> !LwwLess(w, v)
  {
    BytesOrder();
    hide BytesLess;
  }

  /** w is the first of the greatest placements at c: above everything before it there,
      and not below anything after. */
  ghost predicate First(valid: seq<SignedPlacement>, c: u16, w: SignedPlacement) {
    exists i :: 0 <= i < |valid| && FirstAt(valid, c, w, i)
  }

  ghost predicate FirstAt(valid: seq<SignedPlacement>, c: u16, w: SignedPlacement, i: nat)
    requires i < |valid|
  {
    && valid[i] == w && w.coord == c
    && (forall j | 0 <= j < i && valid[j].coord == c :: LwwLess(valid[j], w))
    && (forall j | i <= j < |valid| && valid[j].coord == c :: !LwwLess(w, valid[j]))
  }

  /** Every placed coordinate has its first greatest placement. */
  ghost predicate Winners(valid: seq<SignedPlacement>, winners: map<u16, SignedPlacement>) {
    && (forall c | c in winners :: First(valid, c, winners[c]) && Greatest(valid, c, winners[c]))
    && (forall v | v in valid :: v.coord in winners)
  }

  /** A pixel shows its winner's colour, or the empty sentinel when nothing valid was placed. */
  ghost predicate PixelRule(valid: seq<SignedPlacement>, c: u16, color: u8) {
    if exists v :: v in valid && v.coord == c
    then exists w :: First(valid, c, w) && Greatest(valid, c, w) && w.color == color
    else color == EMPTY_PIXEL
  }

  lemma WinnersStep(valid: seq<SignedPlacement>, winners: map<u16, SignedPlacement>, p: SignedPlacement)
    requires Winners(valid, winners)
    ensures Winners(valid + [p],
      winners[p.coord := if p.coord in winners && !LwwLess(winners[p.coord], p) then winners[p.coord] else p])
  {
    hide LwwLess, First, FirstAt, Greatest;
    var all := valid + [p];
    var next := if p.coord in winners && !LwwLess(winners[p.coord], p) then winners[p.coord] else p;
    if p.coord in winners {
      StillFirst(valid, p.coord, winners[p.coord], p);
      NowFirst(valid, p.coord, winners[p.coord], p);
    } else {
      AloneFirst(valid, p);
    }
    FirstIsGreatest(all, p.coord, next);
    forall c | c in winners && c != p.coord
      ensures First(all, c, winners[c]) && Greatest(all, c, winners[c])
    {
      StillFirst(valid, c, winners[c], p);
      FirstIsGreatest(all, c, winners[c]);
    }
  }

  lemma StillFirst(valid: seq<SignedPlacement>, c: u16, w: SignedPlacement, p: SignedPlacement)
    requires First(valid, c, w)
    ensures p.coord != c || !LwwLess(w, p) ==> First(valid + [p], c, w)
  {
    hide LwwLess;
    var i :| 0 <= i < |valid| && FirstAt(valid, c, w, i);
    if p.coord != c || !LwwLess(w, p) {
      var all := valid + [p];
      assert forall j | 0 <= j < |valid| :: all[j] == valid[j];
      assert FirstAt(all, c, w, i);
    }
  }

  lemma NowFirst(valid: seq<SignedPlacement>, c: u16, w: SignedPlacement, p: SignedPlacement)
    requires First(valid, c, w) && p.coord == c
    ensures LwwLess(w, p) ==> First(valid + [p], c, p)
  {
    hide LwwLess;
    var i :| 0 <= i < |valid| && FirstAt(valid, c, w, i);
    if LwwLess(w, p) {
      var all := valid + [p];
      forall j | 0 <= j < |valid| && all[j].coord == c
        ensures LwwLess(all[j], p)
      {
        LwwChain(all[j], w, p);
      }
      NeverBelowItself(p);
      assert FirstAt(all, c, p, |valid|);
    }
  }

  lemma AloneFirst(valid: seq<SignedPlacement>, p: SignedPlacement)
    requires forall v | v in valid :: v.coord != p.coord
    ensures First(valid + [p], p.coord, p)
  {
    hide LwwLess;
    NeverBelowItself(p);
    var all := valid + [p];
    assert forall j | 0 <= j < |valid| :: all[j] in valid;
    assert FirstAt(all, p.coord, p, |valid|);
  }

  lemma NeverBelowItself(p: SignedPlacement)
    ensures !LwwLess(p, p)
  {
    BytesOrder();
  }

  lemma LwwChain(v: SignedPlacement, w: SignedPlacement, p: SignedPlacement)
    requires LwwLess(w, p) && (LwwLess(v, w) || !LwwLess(w, v))
    ensures LwwLess(v, p)
  {
    BytesOrder();
    hide BytesLess;
  }

  /** The first greatest is a greatest, and there is only one first. */
  lemma FirstIsGreatest(valid: seq<SignedPlacement>, c: u16, w: SignedPlacement)
    requires First(valid, c, w)
    ensures Greatest(valid, c, w)
    ensures forall v | First(valid, c, v) :: v == w
  {
    hide LwwLess, NotLater;
    var i :| 0 <= i < |valid| && FirstAt(valid, c, w, i);
    forall v | v in valid && v.coord == c
      ensures NotLater(v, w)
    {
      NotLaterExact(v, w);
      var j :| 0 <= j < |valid| && valid[j] == v;
      if j < i { LwwAsymmetric(v, w); }
    }
    forall v | First(valid, c, v)
      ensures v == w
    {
      var j :| 0 <= j < |valid| && FirstAt(valid, c, v, j);
      assert valid[i] == w && valid[j] == v;
    }
  }

  lemma LwwAsymmetric(v: SignedPlacement, w: SignedPlacement)
    requires LwwLess(v, w)
    ensures !LwwLess(w, v)
  {
    BytesOrder();
    hide BytesLess;
  }

  /** The valid placements determine the winners and every pixel. */
  lemma WinnersUnique(valid: seq<SignedPlacement>, w: map<u16, SignedPlacement>, w': map<u16, SignedPlacement>)
    requires Winners(valid, w) && Winners(valid, w')
    ensures w == w'
    ensures forall c | c in w :: Greatest(valid, c, w[c])
  {
    hide First;
    forall c | c in w
      ensures c in w' && w'[c] == w[c] && Greatest(valid, c, w[c])
    {
      FirstIsGreatest(valid, c, w[c]);
    }
    forall c | c in w'
      ensures c in w
    {
      FirstIsGreatest(valid, c, w'[c]);
    }
  }

  lemma PixelUnique(valid: seq<SignedPlacement>, c: u16, x: u8, y: u8)
    requires PixelRule(valid, c, x) && PixelRule(valid, c, y)
    ensures x == y
  {
    hide First, Greatest;
    if exists v :: v in valid && v.coord == c {
      var w :| First(valid, c, w) && w.color == x;
      FirstIsGreatest(valid, c, w);
    }
  }

  lemma WinnerColours(valid: seq<SignedPlacement>, winners: map<u16, SignedPlacement>, c: u16)
    requires Winners(valid, winners)
    ensures PixelRule(valid, c, if c in winners then winners[c].color else EMPTY_PIXEL)
  {
    hide First;
    if c in winners { FirstIsGreatest(valid, c, winners[c]); }
  }

  // ---- The chain ---------------------------------------------------------------------------

  lemma {:induction false} InsertMembers(e: Entry, q: seq<Entry>)
    ensures forall x :: x in InsertByTime(e, q) <==> x == e || x in q
  {
    if q != [] && e.0 > q[0].0 { InsertMembers(e, q[1..]); }
  }

  lemma {:induction false} InsertSorted(e: Entry, q: seq<Entry>)
    requires ByTime(q, EntryTime)
    ensures ByTime(InsertByTime(e, q), EntryTime)
  {
    if q != [] && e.0 > q[0].0 {
      InsertSorted(e, q[1..]);
      InsertMembers(e, q[1..]);
      var r := InsertByTime(e, q[1..]);
      forall j | 0 <= j < |r|
        ensures EntryTime(q[0]) <= EntryTime(r[j])
      {
        assert r[j] in r;
      }
    }
  }

  lemma {:induction false} SortSorted(es: seq<Entry>)
    ensures ByTime(SortByTime(es), EntryTime)
    ensures forall x :: x in SortByTime(es) <==> x in es
  {
    if es != [] {
      SortSorted(es[1..]);
      InsertSorted(es[0], SortByTime(es[1..]));
      InsertMembers(es[0], SortByTime(es[1..]));
    }
  }

  lemma PairsMembers(log: Log, e: Entry)
    ensures e in Pairs(log) <==> e.0 in log && log[e.0] == e.1
  {
    var q := SortedTimes(log.Keys);
    if e.0 in log && log[e.0] == e.1 {
      assert e.0 in Elems(q);
      var i :| 0 <= i < |q| && q[i] == e.0;
      assert Pairs(log)[i] == e;
    }
    if e in Pairs(log) {
      var i :| 0 <= i < |q| && Pairs(log)[i] == e;
      assert q[i] in Elems(q);
    }
  }

  lemma ChainMembers(baked: Log, live: Log, e: Entry)
    ensures e in Chain(baked, live) <==> (e.0 in baked && baked[e.0] == e.1) || (e.0 in live && live[e.0] == e.1)
  {
    SortSorted(Pairs(baked) + Pairs(live));
    PairsMembers(baked, e);
    PairsMembers(live, e);
  }

  lemma ChainByTime(baked: Log, live: Log)
    ensures ByTime(Chain(baked, live), EntryTime)
  {
    SortSorted(Pairs(baked) + Pairs(live));
  }

  lemma GreedyStep(es: seq<Entry>, bar: nat -> nat, lo: nat)
    ensures es == [] ==> Greedy(es, EntryTime, bar, lo) == []
    ensures es != [] ==> (Greedy(es, EntryTime, bar, lo) ==
      if es[0].0 >= lo then [es[0]] + Greedy(es[1..], EntryTime, bar, bar(es[0].0))
      else Greedy(es[1..], EntryTime, bar, lo))
  {
  }

  lemma ValuesStep(es: seq<Entry>, e: Entry)
    ensures Values(es + [e]) == Values(es) + [e.1] && Values([]) == []
  {
  }

  lemma SaturatingStep(cooldown: nat, t: u64)
    ensures Saturating(cooldown)(t) == if t + cooldown > MAX_U64 then MAX_U64 else t + cooldown
  {
  }

  lemma ValidStep(authors: seq<Bytes32>, i: nat, live: Logs<Bytes32>, baked: Logs<Bytes32>, tierOf: Bytes32 -> Option<Tier>)
    requires i < |authors|
    ensures Valid(authors[..i + 1], live, baked, tierOf) == Valid(authors[..i], live, baked, tierOf)
      + match tierOf(authors[i])
        case None => []
        case Some(tier) => Accepted(LogOf(baked, authors[i]), LogOf(live, authors[i]), Cooldown(tier))
    ensures Valid(authors[..0], live, baked, tierOf) == []
  {
    assert authors[..i + 1][..i] == authors[..i];
  }

  lemma {:induction false} SortSize(es: seq<Entry>)
    ensures |SortByTime(es)| == |es|
  {
    if es != [] {
      SortSize(es[1..]);
      InsertSize(es[0], SortByTime(es[1..]));
    }
  }

  lemma {:induction false} InsertSize(e: Entry, q: seq<Entry>)
    ensures |InsertByTime(e, q)| == |q| + 1
  {
    if q != [] && e.0 > q[0].0 { InsertSize(e, q[1..]); }
  }

  lemma {:induction false} InsertUntil(e: Entry, q: seq<Entry>, c: nat)
    requires ByTime(q, EntryTime)
    ensures Until(InsertByTime(e, q), EntryTime, c)
         == if e.0 <= c then InsertByTime(e, Until(q, EntryTime, c)) else Until(q, EntryTime, c)
  {
    if q != [] {
      var rest := q[1..];
      if e.0 <= q[0].0 {
        assert ([e] + q)[1..] == q;
        if q[0].0 > c {
          assert forall x | x in q :: EntryTime(q[0]) <= EntryTime(x);
          NoneUntil(q, EntryTime, c);
        }
      } else {
        assert ([q[0]] + InsertByTime(e, rest))[1..] == InsertByTime(e, rest);
        InsertUntil(e, rest, c);
        if q[0].0 <= c { assert ([q[0]] + Until(rest, EntryTime, c))[1..] == Until(rest, EntryTime, c); }
      }
    }
  }

  /** Cutting before the stable sort is cutting after it. */
  lemma {:induction false} SortUntil(es: seq<Entry>, c: nat)
    ensures SortByTime(Until(es, EntryTime, c)) == Until(SortByTime(es), EntryTime, c)
  {
    if es != [] {
      SortUntil(es[1..], c);
      SortSorted(es[1..]);
      InsertUntil(es[0], SortByTime(es[1..]), c);
      var tail := Until(es[1..], EntryTime, c);
      if es[0].0 <= c {
        assert Until(es, EntryTime, c) == [es[0]] + tail;
        assert ([es[0]] + tail)[1..] == tail;
      } else {
        assert Until(es, EntryTime, c) == tail;
      }
    }
  }
}
