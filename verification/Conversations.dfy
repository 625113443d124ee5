/** Exactly what topics are told when a connection is established, when a message comes in and when it is closed. */
module Conversations {
  import opened Connections
  import opened Muxer
  import opened Network
  import opened Sequences
  import opened Wire
  import opened Wrappers

  /** What was told about an open connection says whether it is assigned, and to which topic. */
  lemma ToldSoFar(n: Net, links: Links, peer: PeerId, id: ConnectionId)
    requires Inv(n, links) && id in links.open && links.open[id] == peer
    ensures var told := Of(n.log, id);
            if told == [] then Waiting(n.mux.unassigned, id, peer) && !AssignedTo(n.mux.assignments, id, peer)
            else AssignedTo(n.mux.assignments, id, peer) && n.mux.assignments[peer][id] == told[0].topic
                 && told[0].topic in n.topics
  {
    assert Told(n, links, id);
  }

  /**
   * A message that arrives on an open connection: on a topic that was not joined the connection is closed; a duplicate
   * is dropped; the first message of a connection makes its topic learn of the peer and of the message; a later one is
   * told to the topic of the connection, and on any other topic the peer is banned. Nobody else is told anything.
   */
  lemma ReceivedExactly(cfg: Settings, n: Net, links: Links, from: PeerId, id: ConnectionId, msg: Message, now: nat)
    requires Inv(n, links) && id in links.open && links.open[id] == from
    ensures AcceptMessage(cfg, n, from, id, msg, now).Some?
    ensures var t, told := AcceptMessage(cfg, n, from, id, msg, now).value, Of(n.log, id);
            var arrived := Delivery(msg.topic, MessageReceived(from, msg, id));
            if msg.topic !in n.topics then t.log == n.log && t.commands == n.commands + [CloseConnection(from, id)]
            else if Duplicate(cfg, n, msg, now) then t.log == n.log && t.commands == n.commands
            else if told == [] then
              && from in n.mux.unassigned && n.mux.unassigned[from].0.id == from && t.commands == n.commands
              && t.log == n.log + [Delivery(msg.topic, PeerConnected(n.mux.unassigned[from].0, id)), arrived]
            else if told[0].topic == msg.topic then t.log == n.log + [arrived] && t.commands == n.commands
            else t.log == n.log && t.commands == n.commands + [BanPeer(from)]
  {
    ToldSoFar(n, links, from, id);
    if msg.topic in n.topics && !Duplicate(cfg, n, msg, now) {
      var m := Remember(cfg, n, msg, now);
      assert m.mux == n.mux && m.log == n.log && m.commands == n.commands && m.topics == n.topics;
      hide Inv, Of, Remember, Duplicate;
      if Of(n.log, id) == [] {
        AssignMeans(m.mux, from, id, msg.topic);
        AssignInMeans(m.mux.assignments, from, id, msg.topic);
        FirstPeer(n, links, from, id);
      }
    }
  }

  lemma FirstPeer(n: Net, links: Links, peer: PeerId, id: ConnectionId)
    requires Inv(n, links) && Waiting(n.mux.unassigned, id, peer)
    ensures peer in n.mux.unassigned && n.mux.unassigned[peer].0.id == peer
  {
  }

  /**
   * A dialed connection is told at once to one topic, which had been dialing the peer; an inbound one to nobody yet.
   */
  lemma EstablishedExactly(cfg: Settings, n: Net, links: Links, peer: AddressablePeer, id: ConnectionId, dialer: bool,
                           now: nat)
    requires Inv(n, links) && WellFormed(cfg, n, links, Established(peer, id, dialer, now))
    ensures CompleteConnect(cfg, n, peer, id, dialer, now).Some?
    ensures var t := CompleteConnect(cfg, n, peer, id, dialer, now).value;
            if !dialer then t.log == n.log && t.commands == n.commands
            else exists k :: 0 <= k < |peer.addresses| && Dialed(n.mux, cfg.timeout, peer.addresses[k], now)
                   && (forall j :: 0 <= j < k ==> !Dialed(n.mux, cfg.timeout, peer.addresses[j], now))
                   && t.log == n.log + [Delivery(n.mux.ongoing[peer.addresses[k].ip.value].value,
                                                 PeerConnected(peer, id))]
  {
    if dialer {
      MatchedIsKnown(cfg, n, peer, id, now);
      var k := Skipped(n.mux, cfg.timeout, peer.addresses, now);
      var i :| 0 <= i < |peer.addresses| && Dialed(n.mux, cfg.timeout, peer.addresses[i], now);
      assert k <= i;
      assert Dialed(n.mux, cfg.timeout, peer.addresses[k], now);
    }
  }

  /** The topic that knew of a connection is told that it is closed, and if none did, nobody is told. */
  lemma ClosedExactly(n: Net, links: Links, peer: PeerId, id: ConnectionId)
    requires Inv(n, links) && id in links.open && links.open[id] == peer
    ensures CompleteDisconnect(n, peer, id).Some?
    ensures var t, told := CompleteDisconnect(n, peer, id).value, Of(n.log, id);
            && t.commands == n.commands
            && t.log == if told == [] then n.log else n.log + [Delivery(told[0].topic, PeerDisconnected(peer, id))]
  {
    ToldSoFar(n, links, peer, id);
  }

  /** Ticks and new local addresses are told to every topic once, and nothing else is. */
  lemma BroadcastExactly(cfg: Settings, n: Net, order: seq<TopicName>, dial: Option<(TopicName, Multiaddr)>,
                         addr: Multiaddr, now: nat)
    requires Enumerates(order, n.topics)
    ensures var ticked, told := TickAll(cfg, n, order, dial, now), AppendLocalAddress(n, addr, order);
            && ticked.log == n.log + ToAll(order, Tick)
            && told.log == n.log + ToAll(order, LocalAddressDiscovered(addr))
            && addr in told.addresses && told.commands == n.commands
    ensures forall event :: (forall topic :: topic in n.topics <==> Delivery(topic, event) in ToAll(order, event))
                            && (forall i, j :: 0 <= i < j < |order| ==>
                                ToAll(order, event)[i] != ToAll(order, event)[j])
  {
    forall event
      ensures forall topic :: topic in n.topics <==> Delivery(topic, event) in ToAll(order, event)
      ensures forall i, j :: 0 <= i < j < |order| ==> ToAll(order, event)[i] != ToAll(order, event)[j]
    {
      forall topic ensures topic in n.topics <==> Delivery(topic, event) in ToAll(order, event) {
        if topic in n.topics {
          var k :| 0 <= k < |order| && order[k] == topic;
          assert ToAll(order, event)[k] == Delivery(topic, event);
        }
      }
    }
  }

  // ---- Over whole runs ----

  lemma {:induction false} PrefixIsWellFormed(cfg: Settings, dedupes: bool, ops: seq<NetOp>, k: nat)
    requires WellFormedRun(cfg, dedupes, ops) && k <= |ops|
    ensures WellFormedRun(cfg, dedupes, ops[..k])
    decreases |ops|
  {
    if k == |ops| {
      assert ops[..k] == ops;
    } else {
      PrefixIsWellFormed(cfg, dedupes, ops[..|ops| - 1], k);
      assert ops[..|ops| - 1][..k] == ops[..k];
    }
  }

  /** The state in which the k-th event of a well-formed run finds the network object, which is about to handle it. */
  lemma StateAt(cfg: Settings, dedupes: bool, ops: seq<NetOp>, k: nat)
    requires WellFormedRun(cfg, dedupes, ops) && k < |ops|
    ensures var before, after := RunOf(cfg, dedupes, ops[..k]), RunOf(cfg, dedupes, ops[..k + 1]);
            && before.net.Some? && Inv(before.net.value, before.links)
            && WellFormed(cfg, before.net.value, before.links, ops[k])
            && after.net == Step(cfg, before.net.value, ops[k]) && after.links == Follow(before.links, ops[k])
            && after.net.Some? && Inv(after.net.value, after.links)
  {
    PrefixIsWellFormed(cfg, dedupes, ops, k);
    PrefixIsWellFormed(cfg, dedupes, ops, k + 1);
    ConversationsAreOrderly(cfg, dedupes, ops[..k]);
    ConversationsAreOrderly(cfg, dedupes, ops[..k + 1]);
    assert ops[..k + 1][..k] == ops[..k] && ops[..k + 1][k] == ops[k];
    hide Inv, WellFormed, Step, Follow, Orderly;
  }

  predicate SilentAbout(log: seq<Delivery>, longer: seq<Delivery>, id: ConnectionId) {
    log <= longer && forall i :: |log| <= i < |longer| ==> !Concerns(longer[i], id)
  }

  /** An event about one connection tells nothing about any other. */
  lemma SilentAboutOthers(cfg: Settings, n: Net, links: Links, op: NetOp, id: ConnectionId)
    requires Inv(n, links) && WellFormed(cfg, n, links, op) && (op.Established? || op.Closed? || op.Received?)
    requires op.id != id
    ensures Step(cfg, n, op).Some? && SilentAbout(n.log, Step(cfg, n, op).value.log, id)
  {
    hide Inv, Of, CompleteConnect, CompleteDisconnect, AcceptMessage, Duplicate, WellFormed;
    match op {
      case Established(peer, c, dialer, now) => EstablishedExactly(cfg, n, links, peer, c, dialer, now);
      case Closed(peer, c, _) =>
        OpenBefore(cfg, n, links, op);
        ClosedExactly(n, links, peer, c);
      case Received(from, c, msg, now) =>
        OpenBefore(cfg, n, links, op);
        ReceivedExactly(cfg, n, links, from, c, msg, now);
    }
  }

  lemma OpenBefore(cfg: Settings, n: Net, links: Links, op: NetOp)
    requires WellFormed(cfg, n, links, op) && (op.Closed? || op.Received?)
    ensures op.id in links.open && links.open[op.id] == op.from
  {
  }

  /** All other events tell nothing about connections. */
  lemma SilentAboutAll(cfg: Settings, n: Net, op: NetOp, id: ConnectionId)
    requires !op.Established? && !op.Closed? && !op.Received?
    ensures Step(cfg, n, op).Some? && SilentAbout(n.log, Step(cfg, n, op).value.log, id)
  {
    hide CanDial, StartDial, PutDial;
  }

  /** Nothing more is told about a connection that was used and is not open. */
  lemma SilentStep(cfg: Settings, n: Net, links: Links, op: NetOp, id: ConnectionId)
    requires Inv(n, links) && WellFormed(cfg, n, links, op) && id in links.used && id !in links.open
    ensures Step(cfg, n, op).Some? && Of(Step(cfg, n, op).value.log, id) == Of(n.log, id)
    ensures id in Follow(links, op).used && id !in Follow(links, op).open
  {
    hide Inv, Step, Of, Enumerates, Pending, Dialed;
    if op.Established? || op.Closed? || op.Received? {
      SilentAboutOthers(cfg, n, links, op, id);
    } else {
      SilentAboutAll(cfg, n, op, id);
    }
    SilentLog(n.log, Step(cfg, n, op).value.log, id);
  }

  lemma SilentLog(log: seq<Delivery>, longer: seq<Delivery>, id: ConnectionId)
    requires SilentAbout(log, longer, id)
    ensures Of(longer, id) == Of(log, id)
  {
    assert longer == log + longer[|log|..];
    OfUnchanged(log, longer[|log|..], id);
  }

  lemma {:induction false} StaysSilent(cfg: Settings, dedupes: bool, ops: seq<NetOp>, k: nat, id: ConnectionId)
    requires WellFormedRun(cfg, dedupes, ops) && k <= |ops|
    requires var w := RunOf(cfg, dedupes, ops[..k]); w.net.Some? && id in w.links.used && id !in w.links.open
    ensures var w, v := RunOf(cfg, dedupes, ops[..k]), RunOf(cfg, dedupes, ops);
            && v.net.Some? && id in v.links.used && id !in v.links.open
            && Of(v.net.value.log, id) == Of(w.net.value.log, id)
    decreases |ops|
  {
    hide Inv, WellFormed, Step, Follow, Of;
    if k == |ops| {
      assert ops[..k] == ops;
    } else {
      var last := |ops| - 1;
      assert ops[..last][..k] == ops[..k];
      PrefixIsWellFormed(cfg, dedupes, ops, last);
      StaysSilent(cfg, dedupes, ops[..last], k, id);
      StateAt(cfg, dedupes, ops, last);
      assert ops[..last + 1] == ops;
      var before := RunOf(cfg, dedupes, ops[..last]);
      SilentStep(cfg, before.net.value, before.links, ops[last], id);
    }
  }

  /**
   * The end of a conversation, over every well-formed run: once a connection was closed, what topics were told about it
   * is what they had been told before, followed by its end if there was anything, and it stays so.
   */
  lemma ClosedIsFinished(cfg: Settings, dedupes: bool, ops: seq<NetOp>, k: nat)
    requires WellFormedRun(cfg, dedupes, ops) && k < |ops| && ops[k].Closed?
    ensures RunOf(cfg, dedupes, ops[..k]).net.Some? && RunOf(cfg, dedupes, ops).net.Some?
    ensures var id := ops[k].id;
            var before := Of(RunOf(cfg, dedupes, ops[..k]).net.value.log, id);
            var told := Of(RunOf(cfg, dedupes, ops).net.value.log, id);
            if before == [] then told == []
            else && Talking(before, before[0].topic, ops[k].from) && Finished(told, before[0].topic, ops[k].from)
                 && told == before + [Delivery(before[0].topic, PeerDisconnected(ops[k].from, id))]
  {
    var from, id := ops[k].from, ops[k].id;
    StateAt(cfg, dedupes, ops, k);
    var before, after := RunOf(cfg, dedupes, ops[..k]), RunOf(cfg, dedupes, ops[..k + 1]);
    var n, links := before.net.value, before.links;
    assert id in links.open && links.open[id] == from;
    TalkEnds(n, links, from, id);
    hide Inv, RunOf, WellFormedRun, CompleteDisconnect, Of, Finished, Talking, WellFormed;
    StaysSilent(cfg, dedupes, ops, k + 1, id);
  }

  /** Closing an open connection ends what topics were told about it, if they were told anything. */
  lemma TalkEnds(n: Net, links: Links, peer: PeerId, id: ConnectionId)
    requires Inv(n, links) && id in links.open && links.open[id] == peer
    ensures id in links.used && CompleteDisconnect(n, peer, id).Some?
    ensures var before, told := Of(n.log, id), Of(CompleteDisconnect(n, peer, id).value.log, id);
            if before == [] then told == []
            else && Talking(before, before[0].topic, peer) && Finished(told, before[0].topic, peer)
                 && told == before + [Delivery(before[0].topic, PeerDisconnected(peer, id))]
  {
    assert Told(n, links, id);
    ToldSoFar(n, links, peer, id);
    ClosedExactly(n, links, peer, id);
    var told := Of(n.log, id);
    hide Inv, CompleteDisconnect, Of, Finished;
    if told != [] {
      OfSnoc(n.log, Delivery(told[0].topic, PeerDisconnected(peer, id)), id);
      FinishedBy(told, told[0].topic, peer, id);
    }
  }

  lemma FinishedBy(told: seq<Delivery>, topic: TopicName, peer: PeerId, id: ConnectionId)
    requires Talking(told, topic, peer) && told[0].event.id == id
    ensures Finished(told + [Delivery(topic, PeerDisconnected(peer, id))], topic, peer)
  {
    var longer := told + [Delivery(topic, PeerDisconnected(peer, id))];
    assert longer[..|longer| - 1] == told;
  }
}
