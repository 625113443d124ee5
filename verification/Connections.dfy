/** What topics are told about one connection, over every well-formed run of the network object. */
module Connections {
  import opened Cache
  import opened Muxer
  import opened Network
  import opened Sequences
  import opened Wire
  import opened Wrappers

  // ---- Runs ----

  datatype NetOp =
    | Joining(name: TopicName, at: nat)
    | Dialing(addr: Multiaddr, topic: TopicName, at: nat)
    | Established(peer: AddressablePeer, id: ConnectionId, dialer: bool, at: nat)
    | Closed(from: PeerId, id: ConnectionId, at: nat)
    | Received(from: PeerId, id: ConnectionId, msg: Message, at: nat)
    | Ticking(order: seq<TopicName>, dial: Option<(TopicName, Multiaddr)>, at: nat)
    | Discovered(addr: Multiaddr, order: seq<TopicName>, at: nat)
    | Commanding(command: RunloopCommand, at: nat)

  /** One event or command; `None` when the network object panics. */
  function Step(cfg: Settings, n: Net, op: NetOp): Option<Net> {
    match op
    case Joining(name, _) => Some(n.(topics := n.topics + {name}))
    case Dialing(addr, topic, now) => Some(BeginConnect(cfg, n, addr, topic, now))
    case Established(peer, id, dialer, now) => CompleteConnect(cfg, n, peer, id, dialer, now)
    case Closed(peer, id, _) => CompleteDisconnect(n, peer, id)
    case Received(from, id, msg, now) => AcceptMessage(cfg, n, from, id, msg, now)
    case Ticking(order, dial, now) => Some(TickAll(cfg, n, order, dial, now))
    case Discovered(addr, order, _) => Some(AppendLocalAddress(n, addr, order))
    case Commanding(command, _) => Some(Command(n, command))
  }

  /** Which connection identifiers were used, and whose connections are open. */
  datatype Links = Links(used: set<ConnectionId>, open: map<ConnectionId, PeerId>)

  function Follow(links: Links, op: NetOp): Links {
    match op
    case Established(peer, id, _, _) => Links(links.used + {id}, links.open[id := peer.id])
    case Closed(_, id, _) => links.(open := links.open - {id})
    case _ => links
  }

  /**
   * What the swarm and the topics promise: connection identifiers are fresh, messages and closings are of open
   * connections, a topic dials only after it was joined, and a dial completes before it expires.
   */
  ghost predicate WellFormed(cfg: Settings, n: Net, links: Links, op: NetOp) {
    match op
    case Dialing(_, topic, _) => topic in n.topics
    case Established(peer, id, dialer, now) =>
      id !in links.used && (dialer ==>
                            exists i :: 0 <= i < |peer.addresses| && Dialed(n.mux, cfg.timeout, peer.addresses[i], now))
    case Closed(peer, id, _) => id in links.open && links.open[id] == peer
    case Received(from, id, _, _) => id in links.open && links.open[id] == from
    case Ticking(order, dial, _) => Enumerates(order, n.topics) && Pending(n.mux, dial)
    case Discovered(_, order, _) => Enumerates(order, n.topics)
    case _ => true
  }

  datatype World = World(net: Option<Net>, links: Links)

  function Start(dedupes: bool): World {
    World(Some(Net(Mux(map[], map[], map[], map[]), if dedupes then Some(map[]) else None, {}, {}, [], [])),
          Links({}, map[]))
  }

  function RunOf(cfg: Settings, dedupes: bool, ops: seq<NetOp>): World {
    if ops == [] then Start(dedupes)
    else
      var before, op := RunOf(cfg, dedupes, ops[..|ops| - 1]), ops[|ops| - 1];
      World(if before.net.None? then None else Step(cfg, before.net.value, op), Follow(before.links, op))
  }

  ghost predicate WellFormedRun(cfg: Settings, dedupes: bool, ops: seq<NetOp>) {
    ops == [] ||
    (&& WellFormedRun(cfg, dedupes, ops[..|ops| - 1])
     && var before := RunOf(cfg, dedupes, ops[..|ops| - 1]);
        before.net.Some? ==> WellFormed(cfg, before.net.value, before.links, ops[|ops| - 1]))
  }

  // ---- What topics are told about a connection ----

  predicate Concerns(d: Delivery, id: ConnectionId) {
    match d.event
    case MessageReceived(_, _, c) => c == id
    case PeerConnected(_, c) => c == id
    case PeerDisconnected(_, c) => c == id
    case _ => false
  }

  function Of(log: seq<Delivery>, id: ConnectionId): seq<Delivery> {
    if log == [] then []
    else
      var front := Of(log[..|log| - 1], id);
      if Concerns(log[|log| - 1], id) then front + [log[|log| - 1]] else front
  }

  predicate IsMessage(d: Delivery, topic: TopicName, peer: PeerId) {
    d.topic == topic && d.event.MessageReceived? && d.event.from == peer && d.event.msg.topic == topic
  }

  /** Connected, then any number of messages, all by one peer on one topic. */
  predicate Talking(c: seq<Delivery>, topic: TopicName, peer: PeerId) {
    && c != [] && c[0].topic == topic && c[0].event.PeerConnected? && c[0].event.peer.id == peer
    && forall i :: 0 < i < |c| ==> IsMessage(c[i], topic, peer)
  }

  /** And then disconnected. */
  predicate Finished(c: seq<Delivery>, topic: TopicName, peer: PeerId) {
    && |c| > 1 && Talking(c[..|c| - 1], topic, peer)
    && c[|c| - 1] == Delivery(topic, PeerDisconnected(peer, c[0].event.id))
  }

  ghost predicate Orderly(c: seq<Delivery>) {
    c == [] || exists topic, peer :: Talking(c, topic, peer) || Finished(c, topic, peer)
  }

  // ---- The invariant ----

  predicate AssignedTo(assignments: Assigned, id: ConnectionId, peer: PeerId) {
    peer in assignments && id in assignments[peer]
  }

  predicate Waiting(unassigned: Unassigned, id: ConnectionId, peer: PeerId) {
    peer in unassigned && id in unassigned[peer].1
  }

  ghost predicate TopicsKnown(n: Net) {
    && (forall peer, id :: AssignedTo(n.mux.assignments, id, peer) ==> n.mux.assignments[peer][id] in n.topics)
    && (forall ip, topic :: ip in n.mux.requested && topic in n.mux.requested[ip] ==> topic in n.topics)
    && (forall ip :: ip in n.mux.ongoing ==> n.mux.ongoing[ip].value in n.topics)
  }

  /** Every open connection is assigned or waiting, under its own peer; nothing else is assigned. */
  ghost predicate Tracked(n: Net, links: Links) {
    && (forall id :: id in links.open ==>
        id in links.used && (AssignedTo(n.mux.assignments, id, links.open[id]) ||
                             Waiting(n.mux.unassigned, id, links.open[id])))
    && (forall peer, id :: AssignedTo(n.mux.assignments, id, peer) ==>
        id in links.open && links.open[id] == peer && !Waiting(n.mux.unassigned, id, peer))
    && (forall peer, id :: Waiting(n.mux.unassigned, id, peer) ==>
        id in links.used && (id in links.open ==> links.open[id] == peer))
    && (forall peer :: peer in n.mux.unassigned ==> n.mux.unassigned[peer].0.id == peer)
  }

  ghost predicate Told(n: Net, links: Links, id: ConnectionId) {
    var c := Of(n.log, id);
    && Orderly(c)
    && (id in links.open && AssignedTo(n.mux.assignments, id, links.open[id]) ==>
          Talking(c, n.mux.assignments[links.open[id]][id], links.open[id]) && c[0].event.id == id)
    && (id in links.open && !AssignedTo(n.mux.assignments, id, links.open[id]) ==> c == [])
    && (id !in links.used ==> c == [])
  }

  ghost predicate Inv(n: Net, links: Links) {
    TopicsKnown(n) && Tracked(n, links) && forall id: ConnectionId :: Told(n, links, id)
  }

  // ---- Steps that tell nobody anything about a connection ----

  lemma {:induction false} OfUnchanged(log: seq<Delivery>, more: seq<Delivery>, id: ConnectionId)
    requires forall i :: 0 <= i < |more| ==> !Concerns(more[i], id)
    ensures Of(log + more, id) == Of(log, id)
  {
    if more == [] {
      assert log + more == log;
    } else {
      OfUnchanged(log, more[..|more| - 1], id);
      assert (log + more)[..|log + more| - 1] == log + more[..|more| - 1];
    }
  }

  lemma OfSnoc(log: seq<Delivery>, d: Delivery, id: ConnectionId)
    ensures Of(log + [d], id) == if Concerns(d, id) then Of(log, id) + [d] else Of(log, id)
  {
    assert (log + [d])[..|log|] == log;
  }

  /** Assignments, waiting connections and the log are as before, up to events for all topics. */
  ghost predicate Quiet(n: Net, t: Net) {
    && t.mux.assignments == n.mux.assignments && t.mux.unassigned == n.mux.unassigned
    && n.log <= t.log && (forall i, id: ConnectionId :: |n.log| <= i < |t.log| ==> !Concerns(t.log[i], id))
  }

  lemma QuietKeeps(n: Net, t: Net, links: Links)
    requires Quiet(n, t) && Tracked(n, links) && forall id: ConnectionId :: Told(n, links, id)
    ensures Tracked(t, links) && forall id: ConnectionId :: Told(t, links, id)
  {
    forall id: ConnectionId ensures Told(t, links, id) {
      var more := t.log[|n.log|..];
      assert t.log == n.log + more;
      OfUnchanged(n.log, more, id);
      assert Told(n, links, id);
    }
  }

  lemma TryDialIsQuiet(cfg: Settings, n: Net, addr: Multiaddr, topic: TopicName, now: nat)
    requires TopicsKnown(n)
    ensures var t := TryDial(cfg, n, addr, topic, now);
            Quiet(n, t) && TopicsKnown(t) && t.topics == n.topics && t.log == n.log &&
                t.mux.assignments == n.mux.assignments
  {
    hide Get;
  }

  lemma {:induction false} DialNextIsQuiet(cfg: Settings, n: Net, addresses: Addresses, topic: TopicName, now: nat)
    requires TopicsKnown(n)
    ensures TopicsKnown(DialNextOf(cfg, n, addresses, topic, now))
  {
    if addresses != [] {
      if CanDial(n.mux, cfg.timeout, addresses[0], topic, now) {
        TryDialIsQuiet(cfg, n, addresses[0], topic, now);
      } else {
        DialNextIsQuiet(cfg, n, addresses[1..], topic, now);
      }
    }
  }

  lemma QuietSteps(cfg: Settings, n: Net, links: Links, op: NetOp)
    requires Inv(n, links) && WellFormed(cfg, n, links, op)
    requires !op.Established? && !op.Closed? && !op.Received?
    ensures Step(cfg, n, op).Some? && Inv(Step(cfg, n, op).value, links)
  {
    hide Enumerates, Pending, TryDial, Tracked, Told;
    var t := Step(cfg, n, op).value;
    match op {
      case Dialing(addr, topic, now) =>
        var m := n.(mux := PutDial(n.mux, addr, topic));
        assert TopicsKnown(m) by { PutDialKeeps(n, addr, topic); }
        TryDialIsQuiet(cfg, m, addr, topic, now);
      case Ticking(order, dial, now) =>
        var m := TickAll(cfg, n, order, None, now);
        assert TopicsKnown(m) by { PrunedKeeps(n, m); }
        if dial.Some? {
          TryDialIsQuiet(cfg, m, dial.value.1, dial.value.0, now);
        }
      case Joining(name, _) => JoinKeeps(n, t);
      case _ => JoinKeeps(n, t);
    }
    QuietKeeps(n, t, links);
  }

  lemma JoinKeeps(n: Net, t: Net)
    requires TopicsKnown(n) && t.mux == n.mux && n.topics <= t.topics
    ensures TopicsKnown(t)
  {
  }

  lemma PutDialKeeps(n: Net, addr: Multiaddr, topic: TopicName)
    requires TopicsKnown(n) && topic in n.topics
    ensures TopicsKnown(n.(mux := PutDial(n.mux, addr, topic)))
  {
  }

  lemma PrunedKeeps(n: Net, t: Net)
    requires TopicsKnown(n) && t.topics == n.topics
    requires t.mux.assignments == n.mux.assignments && t.mux.requested == n.mux.requested
    requires forall ip :: ip in t.mux.ongoing ==> ip in n.mux.ongoing && t.mux.ongoing[ip] == n.mux.ongoing[ip]
    ensures TopicsKnown(t)
  {
  }

  // ---- Steps about one connection ----

  lemma OtherConnections(n: Net, t: Net, links: Links, after: Links, id: ConnectionId, other: ConnectionId)
    requires Told(n, links, other) && other != id && Of(t.log, other) == Of(n.log, other)
    requires other in after.open <==> other in links.open
    requires other in links.open ==> after.open[other] == links.open[other]
    requires other in after.used <==> other in links.used
    requires other in links.open ==>
               var peer := links.open[other];
               && (AssignedTo(t.mux.assignments, other, peer) <==> AssignedTo(n.mux.assignments, other, peer))
               && (AssignedTo(t.mux.assignments, other, peer) ==>
                   t.mux.assignments[peer][other] == n.mux.assignments[peer][other])
    ensures Told(t, after, other)
  {
  }

  lemma AssignInMeans(assignments: Assigned, peer: PeerId, id: ConnectionId, topic: TopicName)
    ensures var after := AssignIn(assignments, peer, id, topic);
            && (forall p, c :: AssignedTo(after, c, p) <==> (p == peer && c == id) || AssignedTo(assignments, c, p))
            && (forall p, c :: AssignedTo(after, c, p) ==>
                  after[p][c] == if p == peer && c == id then topic else assignments[p][c])
  {
  }

  lemma RegisterKeeps(m: Mux, peer: AddressablePeer, id: ConnectionId)
    ensures Register(m, peer, id) == m.(unassigned := Register(m, peer, id).unassigned)
  {
  }

  lemma RegisterMeans(m: Mux, peer: AddressablePeer, id: ConnectionId)
    ensures var after := Register(m, peer, id).unassigned;
            && (forall p, c :: Waiting(after, c, p) <==> (p == peer.id && c == id) || Waiting(m.unassigned, c, p))
            && (forall p :: p in after ==> after[p].0.id == p || (p in m.unassigned && after[p].0 == m.unassigned[p].0))
  {
  }

  lemma WaitingIsThere(unassigned: Unassigned, id: ConnectionId, peer: PeerId)
    requires Waiting(unassigned, id, peer)
    ensures peer in unassigned
  {
  }

  lemma AssignMeans(m: Mux, peer: PeerId, id: ConnectionId, topic: TopicName)
    requires Waiting(m.unassigned, id, peer)
    ensures var (after, first) := Assign(m, peer, id, topic);
            && first == Some(m.unassigned[peer].0)
            && after == m.(assignments := AssignIn(m.assignments, peer, id, topic), unassigned := after.unassigned)
            && (forall p, c :: Waiting(after.unassigned, c, p) <==>
                !(p == peer && c == id) && Waiting(m.unassigned, c, p))
            && (forall p :: p in after.unassigned ==> p in m.unassigned && after.unassigned[p].0 == m.unassigned[p].0)
  {
  }

  /** Closing takes an assigned connection away; one that waits may stay behind. */
  lemma DisconnectMeans(m: Mux, peer: PeerId, id: ConnectionId)
    ensures var after := Disconnect(m, peer, id);
            && after == m.(assignments := after.assignments, unassigned := after.unassigned)
            && (forall p, c :: AssignedTo(after.assignments, c, p) <==>
                !(p == peer && c == id) && AssignedTo(m.assignments, c, p))
            && (forall p, c :: AssignedTo(after.assignments, c, p) ==> after.assignments[p][c] == m.assignments[p][c])
            && (forall p, c :: Waiting(after.unassigned, c, p) ==> Waiting(m.unassigned, c, p))
            && (forall p, c :: Waiting(m.unassigned, c, p) && !(p == peer && c == id) ==>
                Waiting(after.unassigned, c, p))
            && (forall p :: p in after.unassigned ==> p in m.unassigned && after.unassigned[p].0 == m.unassigned[p].0)
  {
    var after := Disconnect(m, peer, id);
    if peer in m.assignments {
      DropMeans(m.assignments, peer, id);
      assert after.assignments == Drop(m.assignments, peer, id);
    } else if peer in m.unassigned {
      var left := m.unassigned[peer].1 - {id};
      assert forall c :: c in left <==> c != id && Waiting(m.unassigned, c, peer);
      assert forall c :: Waiting(after.unassigned, c, peer) <==> c in left;
    }
  }

  function Drop(assignments: Assigned, peer: PeerId, id: ConnectionId): Assigned
    requires peer in assignments
  {
    var left := assignments[peer] - {id};
    if left == map[] then assignments - {peer} else assignments[peer := left]
  }

  lemma DropMeans(assignments: Assigned, peer: PeerId, id: ConnectionId)
    requires peer in assignments
    ensures var after := Drop(assignments, peer, id);
            && (forall p, c :: AssignedTo(after, c, p) <==> !(p == peer && c == id) && AssignedTo(assignments, c, p))
            && (forall p, c :: AssignedTo(after, c, p) ==> after[p][c] == assignments[p][c])
  {
    var left := assignments[peer] - {id};
    assert forall c :: c in left <==> c != id && c in assignments[peer];
  }

  lemma InboundStep(n: Net, links: Links, peer: AddressablePeer, id: ConnectionId)
    requires Inv(n, links) && id !in links.used
    ensures Inv(n.(mux := Register(n.mux, peer, id)), Links(links.used + {id}, links.open[id := peer.id]))
  {
    hide Orderly, Talking, Register, AssignedTo, Waiting;
    RegisterMeans(n.mux, peer, id);
    RegisterKeeps(n.mux, peer, id);
    var t, after := n.(mux := Register(n.mux, peer, id)), Links(links.used + {id}, links.open[id := peer.id]);
    forall other: ConnectionId ensures Told(t, after, other) {
      assert Told(n, links, other);
    }
  }

  lemma OutboundStep(cfg: Settings, n: Net, links: Links, peer: AddressablePeer, id: ConnectionId, now: nat)
    requires Inv(n, links) && id !in links.used
    requires exists i :: 0 <= i < |peer.addresses| && Dialed(n.mux, cfg.timeout, peer.addresses[i], now)
    ensures CompleteConnect(cfg, n, peer, id, true, now).Some?
    ensures Inv(CompleteConnect(cfg, n, peer, id, true, now).value, Links(links.used + {id}, links.open[id := peer.id]))
  {
    hide Orderly, MatchDial, Dialed, AssignIn, AssignedTo, Waiting, TopicsKnown, Of;
    var (mux, matched) := MatchDial(n.mux, cfg.timeout, peer, id, now);
    MatchedIsKnown(cfg, n, peer, id, now);
    var topic := matched.value;
    var m := n.(mux := mux);
    AssignInMeans(n.mux.assignments, peer.id, id, topic);
    DialNextIsQuiet(cfg, m, peer.addresses, topic, now);
    var t, after := CompleteConnect(cfg, n, peer, id, true, now).value,
        Links(links.used + {id}, links.open[id := peer.id]);
    JoinKeeps(DialNextOf(cfg, m, peer.addresses, topic, now), t);
    TellsFirst(n, t, links, topic, peer, id);
    forall other: ConnectionId ensures Told(t, after, other) {
      assert Told(n, links, other);
      if other != id { OtherConnections(n, t, links, after, id, other); }
    }
  }

  /** A dialed connection begins its conversation, and is told of in no other. */
  lemma TellsFirst(n: Net, t: Net, links: Links, topic: TopicName, peer: AddressablePeer, id: ConnectionId)
    requires Told(n, links, id) && id !in links.used
    requires t.log == n.log + [Delivery(topic, PeerConnected(peer, id))]
    ensures Of(t.log, id) == [Delivery(topic, PeerConnected(peer, id))]
    ensures Talking(Of(t.log, id), topic, peer.id) && Orderly(Of(t.log, id))
    ensures forall other: ConnectionId :: other != id ==> Of(t.log, other) == Of(n.log, other)
  {
    forall other: ConnectionId ensures other != id ==> Of(t.log, other) == Of(n.log, other) {
      OfSnoc(n.log, Delivery(topic, PeerConnected(peer, id)), other);
    }
    OfSnoc(n.log, Delivery(topic, PeerConnected(peer, id)), id);
    TalkingIsOrderly(Of(t.log, id), topic, peer.id);
  }

  lemma TalkingIsOrderly(c: seq<Delivery>, topic: TopicName, peer: PeerId)
    requires Talking(c, topic, peer) || Finished(c, topic, peer)
    ensures Orderly(c)
  {
  }

  /** A completed dial belongs to a topic that was joined. */
  lemma MatchedIsKnown(cfg: Settings, n: Net, peer: AddressablePeer, id: ConnectionId, now: nat)
    requires TopicsKnown(n)
    requires exists i :: 0 <= i < |peer.addresses| && Dialed(n.mux, cfg.timeout, peer.addresses[i], now)
    ensures var (mux, matched) := MatchDial(n.mux, cfg.timeout, peer, id, now);
            && matched.Some? && matched.value in n.topics && TopicsKnown(n.(mux := mux))
            && mux.assignments == AssignIn(n.mux.assignments, peer.id, id, matched.value)
            && mux.unassigned == n.mux.unassigned
  {
    var i :| 0 <= i < |peer.addresses| && Dialed(n.mux, cfg.timeout, peer.addresses[i], now);
    var k := Skipped(n.mux, cfg.timeout, peer.addresses, now);
    assert k <= i;
    var (mux, matched) := MatchDial(n.mux, cfg.timeout, peer, id, now);
    forall p, c | AssignedTo(mux.assignments, c, p) ensures mux.assignments[p][c] in n.topics {
      assert (p == peer.id && c == id) || AssignedTo(n.mux.assignments, c, p);
    }
  }

  /**
   * A dialed connection panics exactly if no address of the peer has a dial under way, for instance one that took too
   * long.
   */
  lemma DialedConnectionPanicsExactly(cfg: Settings, n: Net, links: Links, peer: AddressablePeer, id: ConnectionId,
                                      now: nat)
    requires Inv(n, links)
    ensures CompleteConnect(cfg, n, peer, id, true, now) == None <==>
            forall i :: 0 <= i < |peer.addresses| ==> !Dialed(n.mux, cfg.timeout, peer.addresses[i], now)
  {
    hide Dialed, Tracked, Told;
    if i :| 0 <= i < |peer.addresses| && Dialed(n.mux, cfg.timeout, peer.addresses[i], now) {
      MatchedIsKnown(cfg, n, peer, id, now);
    }
  }

  /** A topic dials a host, a tick at the timeout forgets the dial, and then the connection is established. */
  function LateConnection(cfg: Settings, addr: Multiaddr): seq<NetOp> {
    [Joining("t", 0), NetOp.Dialing(addr, "t", 0), Ticking(["t"], None, cfg.timeout),
     Established(AddressablePeer(1, [addr]), 1, true, cfg.timeout)]
  }

  /** In this run everything but the delay is in order, the run loop was told to dial, and the connection panics. */
  lemma LateConnectionPanics(cfg: Settings, dedupes: bool, addr: Multiaddr)
    requires addr.ip.Some?
    ensures var ops := LateConnection(cfg, addr);
            && WellFormedRun(cfg, dedupes, ops[..3])
            && RunOf(cfg, dedupes, ops[..3]).net.Some?
            && RunOf(cfg, dedupes, ops[..3]).net.value.commands == [Connect(addr)]
            && 1 !in RunOf(cfg, dedupes, ops[..3]).links.used
            && RunOf(cfg, dedupes, ops).net.None?
  {
    var ops := LateConnection(cfg, addr);
    var ip := addr.ip.value;
    var start := Start(dedupes).net.value;
    var joined := start.(topics := start.topics + {"t"});
    assert ops[..1][..0] == [] && ops[..2][..1] == ops[..1] && ops[..3][..2] == ops[..2];
    assert RunOf(cfg, dedupes, ops[..0]) == Start(dedupes);
    assert RunOf(cfg, dedupes, ops[..1]).net == Some(joined);
    var dialing := BeginConnect(cfg, joined, addr, "t", 0);
    DialsAtOnce(cfg, joined, addr, "t");
    assert RunOf(cfg, dedupes, ops[..2]).net == Some(dialing);
    var ticked := TickAll(cfg, dialing, ["t"], None, cfg.timeout);
    assert RunOf(cfg, dedupes, ops[..3]).net == Some(ticked);
    assert ip !in ticked.mux.ongoing;
    assert Enumerates(["t"], {"t"}) && Pending(dialing.mux, None);
    assert WellFormedRun(cfg, dedupes, ops[..0]);
    assert WellFormedRun(cfg, dedupes, ops[..1]);
    assert WellFormedRun(cfg, dedupes, ops[..2]);
    assert !Dialed(ticked.mux, cfg.timeout, addr, cfg.timeout);
    assert Skipped(ticked.mux, cfg.timeout, [addr], cfg.timeout) == 1;
  }

  lemma DialsAtOnce(cfg: Settings, n: Net, addr: Multiaddr, topic: TopicName)
    requires addr.ip.Some? && n.mux.requested == map[] && n.mux.ongoing == map[] && n.commands == []
    ensures var t := BeginConnect(cfg, n, addr, topic, 0);
            && t.commands == [Connect(addr)] && t.mux.requested == map[] && t.topics == n.topics
            && t.mux.ongoing == map[addr.ip.value := Stamped(topic, 0)]
  {
    assert map[topic := addr] - {topic} == map[];
    var m := PutDial(n.mux, addr, topic);
    assert m.requested - {addr.ip.value} == map[];
  }

  lemma CloseKeepsTracked(n: Net, t: Net, links: Links, peer: PeerId, id: ConnectionId)
    requires TopicsKnown(n) && Tracked(n, links) && id in links.open && links.open[id] == peer
    requires t.mux == Disconnect(n.mux, peer, id) && t.topics == n.topics
    ensures TopicsKnown(t) && Tracked(t, links.(open := links.open - {id}))
  {
    hide Disconnect, AssignedTo, Waiting;
    DisconnectMeans(n.mux, peer, id);
  }

  lemma CloseStep(n: Net, links: Links, peer: PeerId, id: ConnectionId)
    requires Inv(n, links) && id in links.open && links.open[id] == peer
    ensures CompleteDisconnect(n, peer, id).Some?
    ensures Inv(CompleteDisconnect(n, peer, id).value, links.(open := links.open - {id}))
  {
    assert AssignedTo(n.mux.assignments, id, peer) <==> Resolve(n.mux, peer, id).Some?;
    var t, after := CompleteDisconnect(n, peer, id).value, links.(open := links.open - {id});
    hide Orderly, Talking, Disconnect, AssignedTo, Waiting;
    CloseKeepsTracked(n, t, links, peer, id);
    DisconnectMeans(n.mux, peer, id);
    hide Tracked, TopicsKnown;
    assert Told(n, links, id);
    forall other: ConnectionId ensures Told(t, after, other) {
      assert Told(n, links, other);
      if Resolve(n.mux, peer, id).Some? {
        var topic := Resolve(n.mux, peer, id).value;
        OfSnoc(n.log, Delivery(topic, PeerDisconnected(peer, id)), other);
        if other == id {
          EndsTalk(Of(n.log, id), topic, peer, id);
        }
      }
      if other != id {
        OtherConnections(n, t, links, after, id, other);
      }
    }
  }

  lemma EndsTalk(c: seq<Delivery>, topic: TopicName, peer: PeerId, id: ConnectionId)
    requires Talking(c, topic, peer) && c[0].event.id == id
    ensures Orderly(c + [Delivery(topic, PeerDisconnected(peer, id))])
  {
    var longer := c + [Delivery(topic, PeerDisconnected(peer, id))];
    assert longer[..|longer| - 1] == c;
    assert Finished(longer, topic, peer);
  }

  lemma ReceiveStep(cfg: Settings, n: Net, links: Links, from: PeerId, id: ConnectionId, msg: Message, now: nat)
    requires Inv(n, links) && id in links.open && links.open[id] == from
    ensures AcceptMessage(cfg, n, from, id, msg, now).Some?
    ensures Inv(AcceptMessage(cfg, n, from, id, msg, now).value, links)
  {
    hide Orderly, Talking, TopicsKnown, Tracked, Told;
    var m := if msg.topic in n.topics then Remember(cfg, n, msg, now) else Command(n, CloseConnection(from, id));
    JoinKeeps(n, m);
    QuietKeeps(n, m, links);
    if msg.topic in n.topics && !Duplicate(cfg, n, msg, now) {
      RouteStep(m, links, from, id, msg);
    }
  }

  lemma RouteStep(n: Net, links: Links, from: PeerId, id: ConnectionId, msg: Message)
    requires Inv(n, links) && id in links.open && links.open[id] == from && msg.topic in n.topics
    ensures Route(n, from, id, msg).Some?
    ensures Inv(Route(n, from, id, msg).value, links)
  {
    hide Orderly, Talking;
    var (mux, first) := Assign(n.mux, from, id, msg.topic);
    if first.Some? {
      assert Waiting(n.mux.unassigned, id, from);
      var m := n.(mux := mux, log := n.log + [Delivery(msg.topic, PeerConnected(first.value, id))]);
      FirstMessage(n, links, from, id, msg.topic);
      TalkOn(m, links, from, id, msg);
    } else {
      assert AssignedTo(n.mux.assignments, id, from);
      TalkOn(n, links, from, id, msg);
    }
  }

  lemma FirstMessage(n: Net, links: Links, from: PeerId, id: ConnectionId, topic: TopicName)
    requires Inv(n, links) && id in links.open && links.open[id] == from && topic in n.topics
    requires Waiting(n.mux.unassigned, id, from)
    ensures var (mux, first) := Assign(n.mux, from, id, topic);
            first.Some? && Inv(n.(mux := mux, log := n.log + [Delivery(topic, PeerConnected(first.value, id))]), links)
  {
    hide Orderly, Assign, AssignIn, AssignedTo, Waiting;
    var (mux, first) := Assign(n.mux, from, id, topic);
    AssignMeans(n.mux, from, id, topic);
    AssignInMeans(n.mux.assignments, from, id, topic);
    WaitingIsThere(n.mux.unassigned, id, from);
    var t := n.(mux := mux, log := n.log + [Delivery(topic, PeerConnected(first.value, id))]);
    assert Told(n, links, id);
    forall other: ConnectionId ensures Told(t, links, other) {
      OfSnoc(n.log, Delivery(topic, PeerConnected(first.value, id)), other);
      assert Told(n, links, other);
      if other == id {
        assert Of(t.log, id) == [Delivery(topic, PeerConnected(first.value, id))];
        TalkingIsOrderly(Of(t.log, id), topic, from);
      } else {
        OtherConnections(n, t, links, links, id, other);
      }
    }
  }

  lemma TalkExtends(c: seq<Delivery>, topic: TopicName, peer: PeerId, d: Delivery)
    requires Talking(c, topic, peer) && IsMessage(d, topic, peer)
    ensures Talking(c + [d], topic, peer) && Orderly(c + [d]) && (c + [d])[0] == c[0]
  {
    assert Talking(c + [d], topic, peer);
  }

  lemma SameMuxTracked(n: Net, t: Net, links: Links)
    requires Tracked(n, links) && t.mux == n.mux
    ensures Tracked(t, links)
  {
  }

  lemma TalkOn(n: Net, links: Links, from: PeerId, id: ConnectionId, msg: Message)
    requires Inv(n, links) && id in links.open && links.open[id] == from && AssignedTo(n.mux.assignments, id, from)
    ensures var topic := n.mux.assignments[from][id];
            Inv(if topic == msg.topic then Deliver(n, topic, MessageReceived(from, msg, id))
                else Command(n, BanPeer(from)), links)
  {
    hide Orderly, Talking, TopicsKnown, Tracked;
    var topic := n.mux.assignments[from][id];
    var d := Delivery(topic, MessageReceived(from, msg, id));
    var t := if topic == msg.topic then Deliver(n, topic, d.event) else Command(n, BanPeer(from));
    JoinKeeps(n, t);
    SameMuxTracked(n, t, links);
    assert Told(n, links, id);
    forall other: ConnectionId ensures Told(t, links, other) {
      OfSnoc(n.log, d, other);
      assert Told(n, links, other);
      if other == id && topic == msg.topic {
        TalkExtends(Of(n.log, id), topic, from, d);
      }
    }
  }

  // ---- The theorem ----

  lemma StepKeepsInv(cfg: Settings, n: Net, links: Links, op: NetOp)
    requires Inv(n, links) && WellFormed(cfg, n, links, op)
    ensures Step(cfg, n, op).Some? && Inv(Step(cfg, n, op).value, Follow(links, op))
  {
    hide Inv, CompleteConnect, CompleteDisconnect, AcceptMessage;
    match op {
      case Established(peer, id, dialer, now) =>
        if dialer {
          OutboundStep(cfg, n, links, peer, id, now);
        } else {
          assert Step(cfg, n, op) == Some(n.(mux := Register(n.mux, peer, id)))
              by { InboundIsRegistered(cfg, n, peer, id, now); }
          InboundStep(n, links, peer, id);
        }
      case Closed(peer, id, _) => CloseStep(n, links, peer, id);
      case Received(from, id, msg, now) => ReceiveStep(cfg, n, links, from, id, msg, now);
      case _ => QuietSteps(cfg, n, links, op);
    }
  }

  lemma InboundIsRegistered(cfg: Settings, n: Net, peer: AddressablePeer, id: ConnectionId, now: nat)
    ensures CompleteConnect(cfg, n, peer, id, false, now) == Some(n.(mux := Register(n.mux, peer, id)))
  {
  }

  /**
   * Over every well-formed run the network object never panics, and what topics are told about any one connection is
   * a prefix of: connected, messages, disconnected, all by one peer and on one topic.
   */
  lemma {:induction false} ConversationsAreOrderly(cfg: Settings, dedupes: bool, ops: seq<NetOp>)
    requires WellFormedRun(cfg, dedupes, ops)
    ensures var w := RunOf(cfg, dedupes, ops);
            w.net.Some? && Inv(w.net.value, w.links) && forall id :: Orderly(Of(w.net.value.log, id))
  {
    hide Orderly, TopicsKnown, Tracked, Step, Follow, WellFormed;
    if ops == [] {
      StartIsInv(dedupes);
    } else {
      ConversationsAreOrderly(cfg, dedupes, ops[..|ops| - 1]);
      var before := RunOf(cfg, dedupes, ops[..|ops| - 1]);
      StepKeepsInv(cfg, before.net.value, before.links, ops[|ops| - 1]);
    }
    var w := RunOf(cfg, dedupes, ops);
    forall id ensures Orderly(Of(w.net.value.log, id)) {
      assert Told(w.net.value, w.links, id);
    }
  }

  lemma StartIsInv(dedupes: bool)
    ensures Inv(Start(dedupes).net.value, Start(dedupes).links)
  {
  }

  // ---- Dials that finish in time ----

  /** Between the two states the run loop was told to dial the host. */
  ghost predicate Dials(n: Net, t: Net, ip: Ip) {
    exists k :: |n.commands| <= k < |t.commands| && t.commands[k].Connect? && t.commands[k].addr.ip == Some(ip)
  }

  ghost predicate Records(t: Net, ip: Ip, at: nat) {
    ip in t.mux.ongoing && t.mux.ongoing[ip].at == at
  }

  lemma {:induction false} DialNextRecords(cfg: Settings, n: Net, addresses: Addresses, topic: TopicName, now: nat,
                                           ip: Ip)
    ensures var t := DialNextOf(cfg, n, addresses, topic, now);
            && (Dials(n, t, ip) ==> Records(t, ip, now))
            && (ip in n.mux.ongoing ==>
                ip in t.mux.ongoing && (t.mux.ongoing[ip] == n.mux.ongoing[ip] || t.mux.ongoing[ip].at == now))
  {
    if addresses != [] {
      if CanDial(n.mux, cfg.timeout, addresses[0], topic, now) {
        TryDialRecords(cfg, n, addresses[0], topic, now, ip);
      } else {
        DialNextRecords(cfg, n, addresses[1..], topic, now, ip);
      }
    }
  }

  lemma TryDialRecords(cfg: Settings, n: Net, addr: Multiaddr, topic: TopicName, now: nat, ip: Ip)
    ensures var t := TryDial(cfg, n, addr, topic, now);
            && (Dials(n, t, ip) ==> Records(t, ip, now))
            && (ip in n.mux.ongoing ==>
                ip in t.mux.ongoing && (t.mux.ongoing[ip] == n.mux.ongoing[ip] || t.mux.ongoing[ip].at == now))
  {
  }

  /** A dialed connection finds the dial to the host. */
  predicate Finishes(cfg: Settings, n: Net, op: NetOp, ip: Ip) {
    op.Established? && op.dialer
    && Finds(n.mux, cfg.timeout, Timed(Matching(op.peer, op.id), op.at), ip)
  }

  /**
   * What one event does to the recorded dials: a told dial is recorded; a recorded one stays until it finishes or
   * expires.
   */
  lemma DialStep(cfg: Settings, n: Net, op: NetOp, ip: Ip)
    requires Step(cfg, n, op).Some? && (op.Commanding? ==> !op.command.Connect?)
    ensures var t := Step(cfg, n, op).value;
            && (Dials(n, t, ip) ==> Records(t, ip, op.at))
            && (ip in n.mux.ongoing ==>
                  || (ip in t.mux.ongoing && (t.mux.ongoing[ip] == n.mux.ongoing[ip] || t.mux.ongoing[ip].at == op.at))
                  || Finishes(cfg, n, op, ip)
                  || Elapsed(n.mux.ongoing[ip].at, op.at) >= cfg.timeout)
  {
    hide Get, TryDial, DialNextOf, Skipped;
    match op {
      case Dialing(addr, topic, now) =>
        TryDialRecords(cfg, n.(mux := PutDial(n.mux, addr, topic)), addr, topic, now, ip);
      case Ticking(order, dial, now) =>
        var m := TickAll(cfg, n, order, None, now);
        if dial.Some? {
          TryDialRecords(cfg, m, dial.value.1, dial.value.0, now, ip);
        }
      case Established(peer, id, dialer, now) =>
        if dialer {
          EstablishedDials(cfg, n, peer, id, now, ip);
        }
      case _ =>
    }
  }

  lemma EstablishedDials(cfg: Settings, n: Net, peer: AddressablePeer, id: ConnectionId, now: nat, ip: Ip)
    requires CompleteConnect(cfg, n, peer, id, true, now).Some?
    ensures var t := CompleteConnect(cfg, n, peer, id, true, now).value;
            && (Dials(n, t, ip) ==> Records(t, ip, now))
            && (ip in n.mux.ongoing ==>
                  || (ip in t.mux.ongoing && (t.mux.ongoing[ip] == n.mux.ongoing[ip] || t.mux.ongoing[ip].at == now))
                  || Finds(n.mux, cfg.timeout, Timed(Matching(peer, id), now), ip)
                  || Elapsed(n.mux.ongoing[ip].at, now) >= cfg.timeout)
  {
    hide Get, DialNextOf, MatchDial;
    var (mux, matched) := MatchDial(n.mux, cfg.timeout, peer, id, now);
    DialNextRecords(cfg, n.(mux := mux), peer.addresses, matched.value, now, ip);
    if ip in n.mux.ongoing {
      MatchTakes(n.mux, cfg.timeout, peer, id, now, ip);
      ExpiredIsOld(n.mux, cfg.timeout, now, ip);
    }
  }

  lemma ExpiredIsOld(m: Mux, timeout: nat, now: nat, ip: Ip)
    requires ip in m.ongoing
    ensures Get(m.ongoing, timeout, ip, now) == None <==> Elapsed(m.ongoing[ip].at, now) > timeout
  {
  }

  /** The state before step k of a run that does not panic. */
  function Before(cfg: Settings, dedupes: bool, ops: seq<NetOp>, k: nat): Option<Net>
    requires k <= |ops|
  {
    RunOf(cfg, dedupes, ops[..k]).net
  }

  /** Step i tells the run loop to dial the host. */
  ghost predicate DialsAt(cfg: Settings, dedupes: bool, ops: seq<NetOp>, i: nat, ip: Ip)
    requires i < |ops|
  {
    var n, t := Before(cfg, dedupes, ops, i), Before(cfg, dedupes, ops, i + 1);
    n.Some? && t.Some? && Dials(n.value, t.value, ip)
  }

  ghost predicate FinishedBetween(cfg: Settings, dedupes: bool, ops: seq<NetOp>, i: nat, j: nat, ip: Ip)
    requires j <= |ops|
  {
    exists k: nat :: i < k < j && FinishesAt(cfg, dedupes, ops, k, ip)
  }

  ghost predicate FinishesAt(cfg: Settings, dedupes: bool, ops: seq<NetOp>, k: nat, ip: Ip)
    requires k < |ops|
  {
    Before(cfg, dedupes, ops, k).Some? && Finishes(cfg, Before(cfg, dedupes, ops, k).value, ops[k], ip)
  }

  predicate MonotoneTimes(ops: seq<NetOp>) {
    forall i, j :: 0 <= i < j < |ops| ==> ops[i].at <= ops[j].at
  }

  predicate NoForeignDials(ops: seq<NetOp>) {
    forall i :: 0 <= i < |ops| && ops[i].Commanding? ==> !ops[i].command.Connect?
  }

  lemma BeforeSteps(cfg: Settings, dedupes: bool, ops: seq<NetOp>, k: nat)
    requires k < |ops| && Before(cfg, dedupes, ops, k + 1).Some?
    ensures Before(cfg, dedupes, ops, k).Some?
    ensures Step(cfg, Before(cfg, dedupes, ops, k).value, ops[k]) == Before(cfg, dedupes, ops, k + 1)
  {
    hide Step;
    assert ops[..k + 1][..k] == ops[..k];
  }

  /** A dial the run loop was told to make is recorded until a connection finishes it or the timeout has passed. */
  lemma {:induction false} ToldDialLasts(cfg: Settings, dedupes: bool, ops: seq<NetOp>, i: nat, j: nat, ip: Ip)
    requires MonotoneTimes(ops) && NoForeignDials(ops) && i < j <= |ops| && DialsAt(cfg, dedupes, ops, i, ip)
    requires Before(cfg, dedupes, ops, j).Some?
    ensures var ongoing := Before(cfg, dedupes, ops, j).value.mux.ongoing;
            || (ip in ongoing && ongoing[ip].at >= ops[i].at)
            || FinishedBetween(cfg, dedupes, ops, i, j, ip)
            || ops[j - 1].at - ops[i].at >= cfg.timeout
  {
    hide Before, Step, Dials, Finishes;
    BeforeSteps(cfg, dedupes, ops, j - 1);
    var n := Before(cfg, dedupes, ops, j - 1).value;
    DialStep(cfg, n, ops[j - 1], ip);
    if j > i + 1 {
      ToldDialLasts(cfg, dedupes, ops, i, j - 1, ip);
      assert ops[i].at <= ops[j - 2].at <= ops[j - 1].at;
      if FinishedBetween(cfg, dedupes, ops, i, j - 1, ip) {
        var k: nat :| i < k < j - 1 && FinishesAt(cfg, dedupes, ops, k, ip);
        assert FinishesAt(cfg, dedupes, ops, k, ip);
      } else if Finishes(cfg, n, ops[j - 1], ip) {
        assert FinishesAt(cfg, dedupes, ops, j - 1, ip);
      }
    }
  }

  /** The connection answers a dial that was made less than a timeout ago and that no other connection has finished. */
  ghost predicate InTime(cfg: Settings, dedupes: bool, ops: seq<NetOp>, j: nat)
    requires j < |ops| && ops[j].Established?
  {
    exists i: nat, a: nat :: i < j && a < |ops[j].peer.addresses| && Answers(cfg, dedupes, ops, i, j, a)
  }

  ghost predicate Answers(cfg: Settings, dedupes: bool, ops: seq<NetOp>, i: nat, j: nat, a: nat)
    requires i < j < |ops| && ops[j].Established? && a < |ops[j].peer.addresses|
  {
    var ip := ops[j].peer.addresses[a].ip;
    && ip.Some? && DialsAt(cfg, dedupes, ops, i, ip.value)
    && ops[j].at - ops[i].at < cfg.timeout && !FinishedBetween(cfg, dedupes, ops, i, j, ip.value)
  }

  /** A dialed connection that is in time finds its dial recorded. */
  lemma InTimeIsDialed(cfg: Settings, dedupes: bool, ops: seq<NetOp>, j: nat)
    requires MonotoneTimes(ops) && NoForeignDials(ops) && j < |ops| && ops[j].Established?
    requires InTime(cfg, dedupes, ops, j)
    requires Before(cfg, dedupes, ops, j).Some?
    ensures exists a :: 0 <= a < |ops[j].peer.addresses|
                        && Dialed(Before(cfg, dedupes, ops, j).value.mux, cfg.timeout, ops[j].peer.addresses[a],
                                  ops[j].at)
  {
    hide Before, DialsAt, FinishedBetween, Get;
    var i: nat, a: nat :| i < j && a < |ops[j].peer.addresses| && Answers(cfg, dedupes, ops, i, j, a);
    var ip := ops[j].peer.addresses[a].ip.value;
    ToldDialLasts(cfg, dedupes, ops, i, j, ip);
    assert ops[j - 1].at <= ops[j].at;
    var m := Before(cfg, dedupes, ops, j).value.mux;
    ExpiredIsOld(m, cfg.timeout, ops[j].at, ip);
    assert Dialed(m, cfg.timeout, ops[j].peer.addresses[a], ops[j].at);
  }

  /** What the environment promises of step j: as `WellFormed`, but of dials only that connections are in time. */
  ghost predicate Promised(cfg: Settings, dedupes: bool, ops: seq<NetOp>, j: nat)
    requires j < |ops|
  {
    var w := RunOf(cfg, dedupes, ops[..j]);
    w.net.Some? ==>
      match ops[j]
      case Established(peer, id, dialer, now) => id !in w.links.used && (dialer ==> InTime(cfg, dedupes, ops, j))
      case _ => WellFormed(cfg, w.net.value, w.links, ops[j])
  }

  lemma {:induction false} PromisesMakeWellFormed(cfg: Settings, dedupes: bool, ops: seq<NetOp>, n: nat)
    requires MonotoneTimes(ops) && NoForeignDials(ops) && n <= |ops|
    requires forall j: nat :: j < |ops| ==> Promised(cfg, dedupes, ops, j)
    ensures WellFormedRun(cfg, dedupes, ops[..n])
  {
    hide RunOf, InTime, Dialed, MonotoneTimes, NoForeignDials;
    if n > 0 {
      PromisesMakeWellFormed(cfg, dedupes, ops, n - 1);
      var j := n - 1;
      assert ops[..n][..j] == ops[..j];
      assert Promised(cfg, dedupes, ops, j);
      var w := RunOf(cfg, dedupes, ops[..j]);
      if w.net.Some? && ops[j].Established? && ops[j].dialer {
        InTimeIsDialed(cfg, dedupes, ops, j);
      }
    }
  }

  /**
   * The same over every run of which the environment promises only fresh identifiers, messages and closings of open
   * connections, and that a dialed connection answers a dial made less than a timeout ago: no panic, orderly
   * conversations.
   */
  lemma PromisedRunsAreOrderly(cfg: Settings, dedupes: bool, ops: seq<NetOp>)
    requires MonotoneTimes(ops) && NoForeignDials(ops)
    requires forall j: nat :: j < |ops| ==> Promised(cfg, dedupes, ops, j)
    ensures var w := RunOf(cfg, dedupes, ops);
            w.net.Some? && forall id :: Orderly(Of(w.net.value.log, id))
  {
    hide RunOf, Promised, WellFormedRun, Orderly, Of, Inv, MonotoneTimes, NoForeignDials;
    PromisesMakeWellFormed(cfg, dedupes, ops, |ops|);
    assert ops[..|ops|] == ops;
    ConversationsAreOrderly(cfg, dedupes, ops);
  }
}
