/** Whole runs: peers insert locally, send full states or deltas, and receive them
    delayed, duplicated, reordered or never. The network keeps every message ever
    sent and delivers any of them to anyone at any time. */
module Replication {
  import opened Bytes
  import opened Orders
  import opened Stores
  import opened Layers
  import ChatBuffer
  import ChatLaws
  import Chat
  import opened Outcomes
  import TileLog
  import TileFilter
  import TileLaws

  /** from: the state of a history; join: full-state merge; offer: inserting a delta. */
  datatype Crdt<!E(!new), !S(!new)> = Crdt(
    from: set<E> -> S, join: (S, S) -> S, offer: (S, set<E>) -> S)
  {
    ghost predicate Lawful() {
      && (forall x, y :: join(from(x), from(y)) == from(x + y))
      && (forall x, y :: offer(from(x), y) == from(x + y))
    }
  }

  datatype Payload<E, S> = Full(state: S) | Delta(elements: set<E>)

  /** carried is what the receiver learns: for a full state, all its sender had received. */
  datatype Message<E, S> = Message(payload: Payload<E, S>, carried: set<E>)

  datatype Peer<E, S> = Peer(state: S, received: set<E>)

  datatype World<E, S> = World(peers: seq<Peer<E, S>>, sent: seq<Message<E, S>>)

  datatype Step<E> =
    | Insert(peer: nat, element: E)
    | SendFull(peer: nat)
    | SendDelta(peer: nat, elements: set<E>)
    | Deliver(peer: nat, message: nat)

  /** Steps that name no peer, no message, or a delta the peer does not know do nothing. */
  ghost function Next<E(!new), S(!new)>(c: Crdt<E, S>, w: World<E, S>, step: Step<E>): World<E, S> {
    if step.peer >= |w.peers| then w
    else
      var peer := w.peers[step.peer];
      match step
      case Insert(i, e) =>
        w.(peers := w.peers[i := Peer(c.offer(peer.state, {e}), peer.received + {e})])
      case SendFull(i) =>
        w.(sent := w.sent + [Message(Full(peer.state), peer.received)])
      case SendDelta(i, es) =>
        if es <= peer.received then w.(sent := w.sent + [Message(Delta(es), es)]) else w
      case Deliver(i, m) =>
        if m >= |w.sent| then w
        else
          var state := match w.sent[m].payload
            case Full(s) => c.join(peer.state, s)
            case Delta(es) => c.offer(peer.state, es);
          w.(peers := w.peers[i := Peer(state, peer.received + w.sent[m].carried)])
  }

  ghost function Run<E(!new), S(!new)>(c: Crdt<E, S>, n: nat, steps: seq<Step<E>>): World<E, S> {
    if steps == [] then World(seq(n, _ => Peer(c.from({}), {})), [])
    else Next(c, Run(c, n, steps[..|steps| - 1]), steps[|steps| - 1])
  }

  ghost function Inserted<E>(steps: seq<Step<E>>): set<E> {
    set s | s in steps && s.Insert? :: s.element
  }

  ghost predicate Faithful<E(!new), S(!new)>(c: Crdt<E, S>, w: World<E, S>, known: set<E>) {
    && (forall p | p in w.peers :: p.state == c.from(p.received) && p.received <= known)
    && (forall m | m in w.sent :: m.carried <= known && match m.payload
          case Full(s) => s == c.from(m.carried)
          case Delta(es) => es == m.carried)
  }

  lemma NextFaithful<E(!new), S(!new)>(c: Crdt<E, S>, w: World<E, S>, step: Step<E>, known: set<E>)
    requires c.Lawful() && Faithful(c, w, known)
    ensures Faithful(c, Next(c, w, step), known + if step.Insert? then {step.element} else {})
  {
    var w' := Next(c, w, step);
    if step.peer < |w.peers| {
      assert w.peers[step.peer] in w.peers;
      if step.Deliver? && step.message < |w.sent| { assert w.sent[step.message] in w.sent; }
      forall p | p in w'.peers
        ensures p in w.peers || p == w'.peers[step.peer]
      {
      }
    }
  }

  /** In every run each peer's state is the normal form of what it has transitively
      received, and nothing is received that was not inserted somewhere. */
  lemma {:induction false} EveryRunFaithful<E(!new), S(!new)>(c: Crdt<E, S>, n: nat, steps: seq<Step<E>>)
    requires c.Lawful()
    ensures |Run(c, n, steps).peers| == n
    ensures Faithful(c, Run(c, n, steps), Inserted(steps))
  {
    if steps != [] {
      hide Crdt.Lawful, Faithful;
      var init, last := steps[..|steps| - 1], steps[|steps| - 1];
      EveryRunFaithful(c, n, init);
      NextFaithful(c, Run(c, n, init), last, Inserted(init));
      assert steps == init + [last];
      assert Inserted(steps) == Inserted(init) + if last.Insert? then {last.element} else {};
    }
  }

  /** Strong eventual consistency: equal received sets give equal states, and peers that
      have received everything hold the normal form of everything. */
  lemma Converges<E(!new), S(!new)>(c: Crdt<E, S>, n: nat, steps: seq<Step<E>>, i: nat, j: nat)
    requires c.Lawful() && i < n && j < n
    ensures |Run(c, n, steps).peers| == n
    ensures var peers := Run(c, n, steps).peers;
      && peers[i].state == c.from(peers[i].received)
      && peers[i].received <= Inserted(steps)
      && (peers[i].received == peers[j].received ==> peers[i].state == peers[j].state)
      && (peers[i].received == Inserted(steps) ==> peers[i].state == c.from(Inserted(steps)))
  {
    EveryRunFaithful(c, n, steps);
    var peers := Run(c, n, steps).peers;
    assert peers[i] in peers && peers[j] in peers;
  }

  // ---- The two instances ---------------------------------------------------------------

  ghost function TileCrdt(logCap: nat, bakedCap: nat): Crdt<TileLog.SignedPlacement, Pair<TileLog.SignedPlacement>> {
    Crdt((d: set<TileLog.SignedPlacement>) => TileLaws.From(d, logCap, bakedCap),
         (a: Pair<TileLog.SignedPlacement>, b: Pair<TileLog.SignedPlacement>) => TileLog.Tiles(logCap, bakedCap).Join(a, b),
         (a: Pair<TileLog.SignedPlacement>, d: set<TileLog.SignedPlacement>) =>
           TileLog.Tiles(logCap, bakedCap).Join(a, Pair(d, {})))
  }

  /** Tile peers converge, whichever mix of full states and deltas they exchange. */
  lemma TileConverges(
      logCap: nat, bakedCap: nat, n: nat, steps: seq<Step<TileLog.SignedPlacement>>, i: nat, j: nat)
    requires i < n && j < n
    ensures var peers := Run(TileCrdt(logCap, bakedCap), n, steps).peers;
      && |peers| == n
      && peers[i].state == TileLaws.From(peers[i].received, logCap, bakedCap)
      && peers[i].received <= Inserted(steps)
      && (peers[i].received == peers[j].received ==> peers[i].state == peers[j].state)
  {
    hide Run, Crdt.Lawful, TileLaws.From;
    TileCrdtLawful(logCap, bakedCap);
    Converges(TileCrdt(logCap, bakedCap), n, steps, i, j);
  }

  /** Peers that received the same placements store the same tile and show the same pixels. */
  lemma TileCanvasesConverge(
      logCap: nat, bakedCap: nat, n: nat, steps: seq<Step<TileLog.SignedPlacement>>, i: nat, j: nat,
      live: TileLog.Logs<Bytes32>, baked: TileLog.Logs<Bytes32>, live': TileLog.Logs<Bytes32>, baked': TileLog.Logs<Bytes32>,
      tierOf: Bytes32 -> Option<TileFilter.Tier>)
    requires i < n && j < n
    requires TileLog.KeyedTile(live, baked, TileLog.Own, logCap, bakedCap)
    requires TileLog.KeyedTile(live', baked', TileLog.Own, logCap, bakedCap)
    ensures var peers := Run(TileCrdt(logCap, bakedCap), n, steps).peers;
      && |peers| == n
      && (peers[i].received == peers[j].received
          && TileLog.View(live, baked) == peers[i].state && TileLog.View(live', baked') == peers[j].state ==>
            && live == live' && baked == baked'
            && forall c, x, y |
                 && TileFilter.PixelRule(TileFilter.ValidPlacements(live, baked, tierOf), c, x)
                 && TileFilter.PixelRule(TileFilter.ValidPlacements(live', baked', tierOf), c, y) :: x == y)
  {
    hide *;
    TileConverges(logCap, bakedCap, n, steps, i, j);
    var peers := Run(TileCrdt(logCap, bakedCap), n, steps).peers;
    if peers[i].received == peers[j].received
       && TileLog.View(live, baked) == peers[i].state && TileLog.View(live', baked') == peers[j].state {
      TileLog.SameViewSameTile(live, baked, live', baked', TileLog.Own, logCap, bakedCap);
      var valid := TileFilter.ValidPlacements(live, baked, tierOf);
      forall c, x, y | TileFilter.PixelRule(valid, c, x) && TileFilter.PixelRule(valid, c, y)
        ensures x == y
      {
        TileFilter.PixelUnique(valid, c, x, y);
      }
    }
  }

  lemma TileCrdtLawful(logCap: nat, bakedCap: nat)
    ensures TileCrdt(logCap, bakedCap).Lawful()
  {
    hide TileLaws.From, TileLog.Tiles;
    var c := TileCrdt(logCap, bakedCap);
    forall x, y
      ensures c.join(c.from(x), c.from(y)) == c.from(x + y)
      ensures c.offer(c.from(x), y) == c.from(x + y)
    {
      TileLaws.DeltaIsJoin(c.from(x), x, y, logCap, bakedCap);
    }
  }

  ghost function ChatCrdt(cap: nat, authorCap: nat): Crdt<ChatBuffer.SignedMessage, set<ChatBuffer.SignedMessage>> {
    Crdt((s: set<ChatBuffer.SignedMessage>) => ChatBuffer.Room(cap, authorCap).Normal(s),
         (a: set<ChatBuffer.SignedMessage>, b: set<ChatBuffer.SignedMessage>) => ChatBuffer.Room(cap, authorCap).Normal(a + b),
         (a: set<ChatBuffer.SignedMessage>, b: set<ChatBuffer.SignedMessage>) => ChatBuffer.Room(cap, authorCap).Normal(a + b))
  }

  /** Chat peers converge under both caps. */
  lemma ChatConverges(
      cap: nat, authorCap: nat, n: nat, steps: seq<Step<ChatBuffer.SignedMessage>>, i: nat, j: nat)
    requires i < n && j < n
    ensures var peers := Run(ChatCrdt(cap, authorCap), n, steps).peers;
      && |peers| == n
      && peers[i].state == ChatBuffer.Room(cap, authorCap).Normal(peers[i].received)
      && peers[i].received <= Inserted(steps)
      && (peers[i].received == peers[j].received ==> peers[i].state == peers[j].state)
  {
    hide Run, Crdt.Lawful;
    ChatCrdtLawful(cap, authorCap);
    Converges(ChatCrdt(cap, authorCap), n, steps, i, j);
  }

  /** Peers that received the same messages store the same buffer and show the same list. */
  lemma ChatBuffersConverge(
      cap: nat, authorCap: nat, n: nat, steps: seq<Step<ChatBuffer.SignedMessage>>, i: nat, j: nat,
      m: ChatBuffer.Messages, m': ChatBuffer.Messages)
    requires i < n && j < n && ChatBuffer.WellKeyed(m) && ChatBuffer.WellKeyed(m')
    ensures var peers := Run(ChatCrdt(cap, authorCap), n, steps).peers;
      && |peers| == n
      && (peers[i].received == peers[j].received && m.Values == peers[i].state && m'.Values == peers[j].state ==>
            m == m' && Chat.Shown(m) == Chat.Shown(m'))
  {
    hide *;
    ChatConverges(cap, authorCap, n, steps, i, j);
    var peers := Run(ChatCrdt(cap, authorCap), n, steps).peers;
    if peers[i].received == peers[j].received && m.Values == peers[i].state && m'.Values == peers[j].state {
      ChatBuffer.SameMessagesSameBuffer(m, m');
    }
  }

  lemma ChatCrdtLawful(cap: nat, authorCap: nat)
    ensures ChatCrdt(cap, authorCap).Lawful()
  {
    hide ChatBuffer.Room;
    var c := ChatCrdt(cap, authorCap);
    forall x, y
      ensures c.join(c.from(x), c.from(y)) == c.from(x + y)
      ensures c.offer(c.from(x), y) == c.from(x + y)
    {
      ChatBuffer.RoomAbsorbs(cap, authorCap, x, y);
      ChatBuffer.RoomAbsorbsBoth(cap, authorCap, x, y);
    }
  }
}
