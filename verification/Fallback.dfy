/** Delivering one delta over a network that fails (web/src/backend.ts, updateOrPut):
    try UPDATE, else GET, merge locally and PUT. Calls may land and still report failure,
    reads may be stale, and other writers join their states in between. */
module Fallback {
  import opened Orders
  import opened Outcomes
  import opened Stores
  import opened Layers
  import TileLog
  import TileLaws
  import ChatBuffer

  /** A contract's states under merging; of is the state a delta alone builds. */
  datatype Lattice<!S(==,!new), !D(!new)> = Lattice(join: (S, S) -> S, of: D -> S, valid: S -> bool)
  {
    ghost predicate Lawful() {
      && (forall a, b | valid(a) && valid(b) :: valid(join(a, b)) && join(a, b) == join(b, a))
      && (forall a, b, c | valid(a) && valid(b) && valid(c) :: join(join(a, b), c) == join(a, join(b, c)))
      && (forall a | valid(a) :: join(a, a) == a)
      && (forall d :: valid(of(d)))
    }

    /** s has already absorbed x. */
    predicate Absorbed(s: S, x: S) { join(s, x) == s }

    lemma LaterAbsorbed(s: S, x: S, y: S)
      requires Lawful() && valid(s) && valid(x) && valid(y) && Absorbed(s, x)
      ensures Absorbed(join(s, y), x)
    {
      assert join(join(s, y), x) == join(s, join(y, x));
      assert join(s, join(x, y)) == join(join(s, x), y);
    }

    /** Putting back an absorbed state with the delta merged in only adds the delta. */
    lemma PutAddsDelta(s: S, x: S, d: D)
      requires Lawful() && valid(s) && valid(x) && Absorbed(s, x)
      ensures join(s, join(x, of(d))) == join(s, of(d))
    {
      assert join(join(s, x), of(d)) == join(s, join(x, of(d)));
    }

    lemma TwiceIsOnce(s: S, d: D)
      requires Lawful() && valid(s)
      ensures join(join(s, of(d)), of(d)) == join(s, of(d))
    {
      assert join(join(s, of(d)), of(d)) == join(s, join(of(d), of(d)));
    }

    lemma OthersPassThrough(s: S, c: S, d: D)
      requires Lawful() && valid(s) && valid(c)
      ensures join(join(s, of(d)), c) == join(join(s, c), of(d))
    {
      assert join(s, join(of(d), c)) == join(s, join(c, of(d)));
      assert join(join(s, of(d)), c) == join(s, join(of(d), c));
      assert join(join(s, c), of(d)) == join(s, join(c, of(d)));
    }

    /** Writes between a GET and its PUT are never lost: if s grew to s joined with x, merging
        the PUT of s plus the delta gives exactly that plus the delta, however often repeated. */
    lemma GetMergePut(s: S, x: S, d: D)
      requires Lawful() && valid(s) && valid(x)
      ensures join(join(s, x), join(s, of(d))) == join(join(s, x), of(d))
      ensures join(join(join(s, x), of(d)), join(s, of(d))) == join(join(s, x), of(d))
    {
      var grown := join(s, x);
      assert Absorbed(s, s);
      LaterAbsorbed(s, s, x);
      PutAddsDelta(grown, s, d);
      LaterAbsorbed(grown, s, of(d));
      PutAddsDelta(join(grown, of(d)), s, d);
      TwiceIsOnce(grown, d);
    }
  }

  /** What happens around one remote call: what others wrote before it was served, what a
      read returns, whether the call takes effect and whether its reply arrives in time. */
  datatype Attempt<S> = Attempt(concurrent: S, seen: S, lands: bool, replies: bool)

  /** The state after the writes of others around a run of calls. */
  ghost function AfterWrites<S(!new), D(!new)>(l: Lattice<S, D>, s: S, attempts: seq<Attempt<S>>): S {
    if attempts == [] then s else AfterWrites(l, l.join(s, attempts[0].concurrent), attempts[1..])
  }

  /** Going from (script, others) to (script', others'), calls were served in script order
      and others holds exactly what others wrote around them. */
  ghost predicate Served<S(!new), D(!new)>(
    l: Lattice<S, D>, script: seq<Attempt<S>>, others: S, script': seq<Attempt<S>>, others': S)
  {
    |script'| <= |script| &&
    var n := |script| - |script'|;
    script' == script[n..] && others' == AfterWrites(l, others, script[..n])
  }

  lemma {:induction false} AfterMoreWrites<S(!new), D(!new)>(l: Lattice<S, D>, s: S, p: seq<Attempt<S>>, q: seq<Attempt<S>>)
    ensures AfterWrites(l, s, p + q) == AfterWrites(l, AfterWrites(l, s, p), q)
  {
    if p == [] {
      assert p + q == q;
    } else {
      assert (p + q)[1..] == p[1..] + q;
      AfterMoreWrites(l, l.join(s, p[0].concurrent), p[1..], q);
    }
  }

  lemma ServedTwice<S(!new), D(!new)>(
      l: Lattice<S, D>, x: seq<Attempt<S>>, s: S, y: seq<Attempt<S>>, t: S, z: seq<Attempt<S>>, u: S)
    requires Served(l, x, s, y, t) && Served(l, y, t, z, u)
    ensures Served(l, x, s, z, u)
  {
    var n, k := |x| - |y|, |y| - |z|;
    assert x[..n + k] == x[..n] + y[..k];
    AfterMoreWrites(l, s, x[..n], y[..k]);
  }

  lemma OneServed<S(!new), D(!new)>(l: Lattice<S, D>, script: seq<Attempt<S>>, others: S)
    requires script != []
    ensures Served(l, script, others, script[1..], l.join(others, script[0].concurrent))
    ensures Served(l, script, others, script, others)
  {
    assert script[..1] == [script[0]] && [script[0]][1..] == [];
    var one := [script[0]];
    assert AfterWrites(l, others, one) == AfterWrites(l, l.join(others, one[0].concurrent), one[1..]);
  }

  /** The i-th call of the script takes effect; its reply arrives; both. */
  ghost predicate Lands<S(!new)>(script: seq<Attempt<S>>, i: nat) { i < |script| && script[i].lands }

  ghost predicate Answers<S(!new)>(script: seq<Attempt<S>>, i: nat) { i < |script| && script[i].replies }

  ghost predicate Succeeds<S(!new)>(script: seq<Attempt<S>>, i: nat) { i < |script| && script[i].lands && script[i].replies }

  /** The script after n calls. */
  ghost function Rest<S(!new)>(script: seq<Attempt<S>>, n: nat): seq<Attempt<S>> {
    if n <= |script| then script[n..] else []
  }

  lemma RestOfRest<S(!new)>(script: seq<Attempt<S>>, n: nat, k: nat)
    ensures Rest(Rest(script, n), k) == Rest(script, n + k)
    ensures forall i: nat :: Lands(Rest(script, n), i) <==> Lands(script, n + i)
    ensures forall i: nat :: Answers(Rest(script, n), i) <==> Answers(script, n + i)
    ensures forall i: nat :: Succeeds(Rest(script, n), i) <==> Succeeds(script, n + i)
  {
  }

  /** The network as this client sees it. others is the state without this client's writes. */
  class Channel<S(==,!new), D(!new)> {
    const lattice: Lattice<S, D>
    var script: seq<Attempt<S>>
    var network: S
    ghost var others: S

    ghost predicate Valid()
      reads this
    {
      && lattice.Lawful() && lattice.valid(network) && lattice.valid(others)
      && forall a | a in script :: lattice.valid(a.concurrent) && lattice.valid(a.seen)
    }

    ghost predicate Written(network: S, others: S, d: D) {
      network == lattice.join(others, lattice.of(d))
    }

    /** This client has written the delta at most: nothing else, whole or not at all. */
    ghost predicate AtMost(d: D)
      reads this
    {
      network == others || Written(network, others, d)
    }

    constructor (lattice: Lattice<S, D>, start: S, script: seq<Attempt<S>>)
      requires lattice.Lawful() && lattice.valid(start)
      requires forall a | a in script :: lattice.valid(a.concurrent) && lattice.valid(a.seen)
      ensures Valid() && network == others == start && this.lattice == lattice
    {
      this.lattice := lattice;
      this.script := script;
      network := start;
      others := start;
    }

    /** Others write, then the call is served; a script run out of attempts answers no more. */
    method Serve(ghost d: D) returns (a: Option<Attempt<S>>)
      requires Valid() && AtMost(d)
      modifies this
      ensures Valid() && AtMost(d)
      ensures a.Some? ==> lattice.valid(a.value.seen)
      ensures Served(lattice, old(script), old(others), script, others)
      ensures Written(old(network), old(others), d) ==> Written(network, others, d)
      ensures old(network) == old(others) ==> network == others
      ensures script == Rest(old(script), 1) && (a.Some? <==> old(script) != []) && (a.Some? ==> a.value == old(script)[0])
      ensures forall s | lattice.valid(s) && lattice.Absorbed(old(network), s) :: lattice.Absorbed(network, s)
    {
      if script == [] {
        return None;
      }
      var next := script[0];
      assert next in script;
      script := script[1..];
      lattice.OthersPassThrough(others, next.concurrent, d);
      OneServed(lattice, old(script), others);
      hide AfterWrites;
      forall s | lattice.valid(s) && lattice.Absorbed(network, s)
        ensures lattice.Absorbed(lattice.join(network, next.concurrent), s)
      {
        lattice.LaterAbsorbed(network, s, next.concurrent);
      }
      network := lattice.join(network, next.concurrent);
      others := lattice.join(others, next.concurrent);
      return Some(next);
    }

    method UpdateWithDelta(d: D) returns (ok: bool)
      requires Valid() && AtMost(d)
      modifies this
      ensures Valid() && AtMost(d)
      ensures ok || Written(old(network), old(others), d) ==> Written(network, others, d)
      ensures Served(lattice, old(script), old(others), script, others)
      ensures ok <==> Succeeds(old(script), 0)
      ensures script == Rest(old(script), 1)
      ensures Lands(old(script), 0) ==> Written(network, others, d)
      ensures !Lands(old(script), 0) && old(network) == old(others) ==> network == others
    {
      var a := Serve(d);
      lattice.TwiceIsOnce(others, d);
      if a.Some? && a.value.lands {
        network := lattice.join(network, lattice.of(d));
      }
      ok := a.Some? && a.value.lands && a.value.replies;
    }

    /** A read returns some state the network has already absorbed, not always the newest. */
    method GetState(ghost d: D) returns (state: Option<S>)
      requires Valid() && AtMost(d)
      modifies this
      ensures Valid() && AtMost(d)
      ensures Written(old(network), old(others), d) ==> Written(network, others, d)
      ensures Served(lattice, old(script), old(others), script, others)
      ensures state.Some? ==> lattice.valid(state.value) && lattice.Absorbed(network, state.value)
      ensures state.Some? <==> Answers(old(script), 0)
      ensures script == Rest(old(script), 1)
      ensures old(network) == old(others) ==> network == others
    {
      var a := Serve(d);
      if a.None? || !a.value.replies {
        return None;
      }
      return Some(if lattice.Absorbed(network, a.value.seen) then a.value.seen else network);
    }

    /** A stored state is merged by every replica, never overwritten. */
    method PutState(state: S, ghost base: S, ghost d: D) returns (ok: bool)
      requires Valid() && AtMost(d) && lattice.valid(base) && lattice.Absorbed(network, base)
      requires state == lattice.join(base, lattice.of(d))
      modifies this
      ensures Valid() && AtMost(d)
      ensures ok || Written(old(network), old(others), d) ==> Written(network, others, d)
      ensures Served(lattice, old(script), old(others), script, others)
      ensures ok <==> Succeeds(old(script), 0)
      ensures script == Rest(old(script), 1)
      ensures Lands(old(script), 0) ==> Written(network, others, d)
      ensures !Lands(old(script), 0) && old(network) == old(others) ==> network == others
    {
      hide Served, AfterWrites, Rest;
      var a := Serve(d);
      lattice.PutAddsDelta(network, base, d);
      lattice.TwiceIsOnce(others, d);
      if a.Some? && a.value.lands {
        network := lattice.join(network, state);
      }
      ok := a.Some? && a.value.lands && a.value.replies;
    }
  }

  /** Contract containers by key, and the keys whose UPDATEs are known to fail. */
  class Caches {
    var containers: map<string, string>
    var putFirst: set<string>

    constructor ()
      ensures containers == map[] && putFirst == {}
    {
      containers := map[];
      putFirst := {};
    }
  }

  /** GET (with the container the first time), merge, PUT. */
  method DoPut<S(==,!new), D(!new)>(channel: Channel<S, D>, key: string, container: string, d: D, caches: Caches)
    returns (ok: bool)
    requires channel.Valid() && channel.AtMost(d)
    modifies channel, caches
    ensures channel.Valid() && channel.AtMost(d)
    ensures ok || channel.Written(old(channel.network), old(channel.others), d) ==>
      channel.Written(channel.network, channel.others, d)
    ensures Served(channel.lattice, old(channel.script), old(channel.others), channel.script, channel.others)
    ensures ok <==> Answers(old(channel.script), 0) && Succeeds(old(channel.script), 1)
    ensures channel.script == Rest(old(channel.script), if Answers(old(channel.script), 0) then 2 else 1)
    ensures Answers(old(channel.script), 0) && Lands(old(channel.script), 1) ==>
      channel.Written(channel.network, channel.others, d)
    ensures !(Answers(old(channel.script), 0) && Lands(old(channel.script), 1)) && old(channel.network) == old(channel.others) ==>
      channel.network == channel.others
    ensures caches.putFirst == old(caches.putFirst) + if ok then {key} else {}
    ensures caches.containers ==
      if Answers(old(channel.script), 0) && key !in old(caches.containers)
      then old(caches.containers)[key := container] else old(caches.containers)
  {
    hide AfterWrites, Answers, Lands, Succeeds, Rest, Served;
    RestOfRest(channel.script, 1, 1);
    var state := channel.GetState(d);
    ghost var script, others := channel.script, channel.others;
    if state.None? {
      return false;
    }
    if key !in caches.containers {
      caches.containers := caches.containers[key := container];
    }
    ok := channel.PutState(channel.lattice.join(state.value, channel.lattice.of(d)), state.value, d);
    ServedTwice(channel.lattice, old(channel.script), old(channel.others), script, others, channel.script, channel.others);
    if ok {
      caches.putFirst := caches.putFirst + {key};
    }
  }

  /** One of the writes that a delivery attempts takes effect: an UPDATE, and after its
      failure a PUT if the GET answers; for a key known to need PUT, the other way round. */
  ghost predicate WritesLand<S(!new)>(s: seq<Attempt<S>>, putFirst: bool) {
    if !putFirst then Lands(s, 0) || (!Succeeds(s, 0) && Answers(s, 1) && Lands(s, 2))
    else if !Answers(s, 0) then Lands(s, 1)
    else Lands(s, 1) || (!Succeeds(s, 1) && Lands(s, 2))
  }

  /** UPDATE succeeds, or after its failure GET and PUT do; for a key known to need PUT, GET
      and PUT succeed, or the UPDATE after whichever of them failed does. */
  ghost predicate Delivers<S(!new)>(s: seq<Attempt<S>>, putFirst: bool) {
    if !putFirst then Succeeds(s, 0) || (Answers(s, 1) && Succeeds(s, 2))
    else (Answers(s, 0) && Succeeds(s, 1)) || Succeeds(s, if Answers(s, 0) then 2 else 1)
  }

  lemma MoreThanLands<S(!new)>(s: seq<Attempt<S>>)
    ensures forall i: nat | Succeeds(s, i) :: Lands(s, i)
  {
  }

  /** updateOrPut: success means the delta is in, together with everything others wrote;
      failure means it is in whole or not at all. Either way nothing else changed. */
  method UpdateOrPut<S(==,!new), D(!new)>(channel: Channel<S, D>, key: string, container: string, d: D, caches: Caches)
    returns (ok: bool)
    requires channel.Valid() && channel.AtMost(d)
    modifies channel, caches
    ensures channel.Valid() && channel.AtMost(d)
    ensures ok || channel.Written(old(channel.network), old(channel.others), d) ==>
      channel.Written(channel.network, channel.others, d)
    ensures Served(channel.lattice, old(channel.script), old(channel.others), channel.script, channel.others)
    ensures ok <==> Delivers(old(channel.script), key in old(caches.putFirst))
    ensures WritesLand(old(channel.script), key in old(caches.putFirst)) ==> channel.Written(channel.network, channel.others, d)
    ensures !WritesLand(old(channel.script), key in old(caches.putFirst)) && old(channel.network) == old(channel.others) ==>
      channel.network == channel.others
    ensures var s := old(channel.script);
      caches.putFirst == old(caches.putFirst)
        + if key !in old(caches.putFirst) && !Succeeds(s, 0) && Answers(s, 1) && Succeeds(s, 2) then {key} else {}
    ensures var s := old(channel.script);
      var fetched := if key in old(caches.putFirst) then Answers(s, 0) else !Succeeds(s, 0) && Answers(s, 1);
      caches.containers == if fetched && key !in old(caches.containers)
                           then old(caches.containers)[key := container] else old(caches.containers)
  {
    hide Served, Answers, Lands, Succeeds, Rest;
    RestOfRest(channel.script, 1, 1);
    RestOfRest(channel.script, 2, 1);
    MoreThanLands(channel.script);
    ghost var script, others;
    if key in caches.putFirst {
      ok := DoPut(channel, key, container, d, caches);
      script, others := channel.script, channel.others;
      if !ok {
        ok := channel.UpdateWithDelta(d);
        ServedTwice(channel.lattice, old(channel.script), old(channel.others), script, others, channel.script, channel.others);
      }
      return;
    }
    ok := channel.UpdateWithDelta(d);
    script, others := channel.script, channel.others;
    if !ok {
      ok := DoPut(channel, key, container, d, caches);
      ServedTwice(channel.lattice, old(channel.script), old(channel.others), script, others, channel.script, channel.others);
    }
  }

  /** Any number of repeated deliveries, of which any may fail, has the effect of one. */
  method Redeliver<S(==,!new), D(!new)>(
    channel: Channel<S, D>, key: string, container: string, d: D, caches: Caches, times: nat) returns (anyOk: bool)
    requires channel.Valid() && channel.AtMost(d)
    modifies channel, caches
    ensures channel.Valid() && channel.AtMost(d)
    ensures anyOk || channel.Written(old(channel.network), old(channel.others), d) ==>
      channel.Written(channel.network, channel.others, d)
    ensures Served(channel.lattice, old(channel.script), old(channel.others), channel.script, channel.others)
    ensures times > 0 && Delivers(old(channel.script), key in old(caches.putFirst)) ==> anyOk
  {
    hide Delivers, Lands, Answers, Succeeds, Rest;
    anyOk := false;
    for i := 0 to times
      invariant channel.Valid() && channel.AtMost(d)
      invariant Served(channel.lattice, old(channel.script), old(channel.others), channel.script, channel.others)
      invariant i == 0 ==> channel.script == old(channel.script) && caches.putFirst == old(caches.putFirst)
      invariant i > 0 && Delivers(old(channel.script), key in old(caches.putFirst)) ==> anyOk
      invariant anyOk || channel.Written(old(channel.network), old(channel.others), d) ==>
        channel.Written(channel.network, channel.others, d)
    {
      ghost var script, others := channel.script, channel.others;
      var ok := UpdateOrPut(channel, key, container, d, caches);
      ServedTwice(channel.lattice, old(channel.script), old(channel.others), script, others, channel.script, channel.others);
      anyOk := anyOk || ok;
    }
  }

  // ---- The contracts as lattices ------------------------------------------------------------------

  ghost function TileLattice(logCap: nat, bakedCap: nat): Lattice<Pair<TileLog.SignedPlacement>, set<TileLog.SignedPlacement>> {
    Lattice((a: Pair<TileLog.SignedPlacement>, b: Pair<TileLog.SignedPlacement>) => TileLog.Tiles(logCap, bakedCap).Join(a, b),
            (d: set<TileLog.SignedPlacement>) => TileLaws.From(d, logCap, bakedCap),
            (a: Pair<TileLog.SignedPlacement>) => TileLog.Tiles(logCap, bakedCap).Settled(a))
  }

  /** Every capped, well-keyed tile is a point of a lattice in which applying a delta is
      joining with the tile built from it. */
  lemma TileLatticeLawful(logCap: nat, bakedCap: nat)
    ensures TileLattice(logCap, bakedCap).Lawful()
    ensures var l := TileLattice(logCap, bakedCap);
      forall s, d :: l.join(s, l.of(d)) == TileLog.Tiles(logCap, bakedCap).Join(s, Pair(d, {}))
  {
    var l, st := TileLattice(logCap, bakedCap), TileLog.Tiles(logCap, bakedCap);
    hide TileLog.Tiles, Stack.Join, Stack.Settled, TileLaws.From;
    TileLog.TilesLawful(logCap, bakedCap);
    forall a, b
      ensures l.valid(l.join(a, b)) && l.join(a, b) == l.join(b, a)
    {
      st.JoinSettles(a, b);
      st.JoinCommutes(a, b);
    }
    forall a, b, c
      ensures l.join(l.join(a, b), c) == l.join(a, l.join(b, c))
    {
      st.JoinAssociates(a, b, c);
    }
    forall a | l.valid(a)
      ensures l.join(a, a) == a
    {
      st.JoinIdempotent(a);
    }
    forall d
      ensures l.valid(l.of(d))
    {
      FromSettled(d, logCap, bakedCap);
    }
    forall s, d
      ensures l.join(s, l.of(d)) == st.Join(s, Pair(d, {}))
    {
      TileLaws.DeltaIsJoin(s, d, {}, logCap, bakedCap);
    }
  }

  /** The tile law behind the fallback, for any capped, well-keyed tiles. */
  lemma TileGetMergePut(
      s: Pair<TileLog.SignedPlacement>, x: Pair<TileLog.SignedPlacement>, d: set<TileLog.SignedPlacement>, logCap: nat, bakedCap: nat)
    requires TileLog.Tiles(logCap, bakedCap).Settled(s) && TileLog.Tiles(logCap, bakedCap).Settled(x)
    ensures var st := TileLog.Tiles(logCap, bakedCap);
      st.Join(st.Join(s, x), st.Join(s, Pair(d, {}))) == st.Join(st.Join(s, x), Pair(d, {}))
  {
    hide TileLog.Tiles, Stack.Join, Stack.Settled, TileLaws.From, Lattice.Lawful;
    TileLatticeLawful(logCap, bakedCap);
    TileLattice(logCap, bakedCap).GetMergePut(s, x, d);
  }

  lemma FromSettled(d: set<TileLog.SignedPlacement>, logCap: nat, bakedCap: nat)
    ensures TileLog.Tiles(logCap, bakedCap).Settled(TileLaws.From(d, logCap, bakedCap))
  {
    hide TileLog.Tiles, Stack.Join, Stack.Settled;
    TileLog.TilesLawful(logCap, bakedCap);
    TileLog.Tiles(logCap, bakedCap).JoinSettles(Pair(d, {}), Pair({}, {}));
  }

  ghost function ChatLattice(cap: nat, authorCap: nat): Lattice<set<ChatBuffer.SignedMessage>, set<ChatBuffer.SignedMessage>> {
    Lattice((a: set<ChatBuffer.SignedMessage>, b: set<ChatBuffer.SignedMessage>) => ChatBuffer.Room(cap, authorCap).Normal(a + b),
            (d: set<ChatBuffer.SignedMessage>) => ChatBuffer.Room(cap, authorCap).Normal(d),
            (a: set<ChatBuffer.SignedMessage>) => ChatBuffer.Room(cap, authorCap).Normal(a) == a)
  }

  lemma ChatLatticeLawful(cap: nat, authorCap: nat)
    ensures ChatLattice(cap, authorCap).Lawful()
    ensures var l := ChatLattice(cap, authorCap);
      forall s, d :: l.join(s, l.of(d)) == ChatBuffer.Room(cap, authorCap).Normal(s + d)
  {
    var l := ChatLattice(cap, authorCap);
    hide ChatBuffer.Room, Store.Normal, ChatLattice;
    ChatLatticeShape(cap, authorCap);
    forall a, b, c
      ensures l.join(l.join(a, b), c) == l.join(a, l.join(b, c))
    {
      RoomLaws(cap, authorCap, a, b, c);
    }
    forall a, b
      ensures l.valid(l.join(a, b)) && l.join(a, b) == l.join(b, a)
      ensures l.join(a, l.of(b)) == ChatBuffer.Room(cap, authorCap).Normal(a + b)
    {
      RoomLaws(cap, authorCap, a, b, {});
    }
    forall a
      ensures l.valid(l.of(a)) && (l.valid(a) ==> l.join(a, a) == a)
    {
      RoomLaws(cap, authorCap, a, a, {});
    }
  }

  lemma ChatLatticeShape(cap: nat, authorCap: nat)
    ensures var l, room := ChatLattice(cap, authorCap), ChatBuffer.Room(cap, authorCap);
      && (forall a, b :: l.join(a, b) == room.Normal(a + b))
      && (forall d :: l.of(d) == room.Normal(d))
      && (forall a :: l.valid(a) <==> room.Normal(a) == a)
  {
    hide ChatBuffer.Room, Store.Normal;
  }

  lemma RoomLaws(
      cap: nat, authorCap: nat, a: set<ChatBuffer.SignedMessage>, b: set<ChatBuffer.SignedMessage>, c: set<ChatBuffer.SignedMessage>)
    ensures var room := ChatBuffer.Room(cap, authorCap);
      && room.Normal(a + b) == room.Normal(b + a)
      && room.Normal(a + a) == room.Normal(a)
      && room.Normal(room.Normal(a)) == room.Normal(a)
      && room.Normal(room.Normal(a + b)) == room.Normal(a + b)
      && room.Normal(room.Normal(a + b) + c) == room.Normal(a + room.Normal(b + c))
      && room.Normal(a + room.Normal(b)) == room.Normal(a + b)
  {
    hide *;
    var room := ChatBuffer.Room(cap, authorCap);
    assert a + b == b + a && a + a == a && a + {} == a && a + b + {} == a + b;
    assert room.Normal(a) + {} == room.Normal(a) && room.Normal(a + b) + {} == room.Normal(a + b);
    ChatBuffer.RoomAbsorbs(cap, authorCap, a, {});
    ChatBuffer.RoomAbsorbs(cap, authorCap, a + b, {});
    ChatBuffer.RoomAbsorbs(cap, authorCap, a + b, c);
    ChatBuffer.RoomAbsorbs(cap, authorCap, b, a);
    ChatBuffer.RoomAbsorbs(cap, authorCap, b + c, a);
    assert a + room.Normal(b) == room.Normal(b) + a;
    assert a + room.Normal(b + c) == room.Normal(b + c) + a && b + c + a == a + b + c;
  }
}
