/** The topic object: its handlers update the views and the pending peers in place. */
module TopicNode {
  import opened Cache
  import opened Muxer
  import opened Network
  import opened Sequences
  import opened Topic
  import opened Wire
  import opened Wrappers

  class TopicInner {
    const c: Config
    var self: AddressablePeer
    var active: map<PeerId, Link>
    var passive: map<PeerId, Addresses>
    var dials: Entries<Ip, ()>
    var neighbours: Entries<PeerId, ()>
    var joins: Entries<PeerId, ()>
    var replies: Entries<PeerId, Peers>
    var disconnects: Entries<PeerId, ()>
    var lastShuffle: nat
    var sent: seq<TopicCommand>
    var emitted: seq<string>

    ghost function View(): Node
      reads this
    {
      Node(self, active, passive, dials, neighbours, joins, replies, disconnects, lastShuffle, sent, emitted)
    }

    /** A new topic dials its bootstrap addresses. */
    constructor (c: Config, self: AddressablePeer, now: nat)
      ensures this.c == c && View() == Started(c, self, now)
    {
      this.c, this.self := c, self;
      active, passive, dials, neighbours, joins, replies, disconnects :=
          map[], map[], map[], map[], map[], map[], map[];
      lastShuffle, emitted := now, [];
      sent := [];
      new;
      for i := 0 to |c.bootstrap|
        invariant View() == Started(c, self, now).(dials := dials, sent := sent)
        invariant dials == StartDials(c.bootstrap[..i], now)
        invariant sent == seq(i, k requires 0 <= k < i => Dial(c.bootstrap[k]))
      {
        assert c.bootstrap[..i + 1][..i] == c.bootstrap[..i];
        sent := sent + [Dial(c.bootstrap[i])];
        if c.bootstrap[i].ip.Some? {
          dials := dials[c.bootstrap[i].ip.value := Stamped((), now)];
        }
      }
      assert c.bootstrap[..|c.bootstrap|] == c.bootstrap;
    }

    // ---- Commands ----

    method Disconnect(peer: PeerId, id: ConnectionId, now: nat)
      modifies this
      ensures View() == Hangup(c, old(View()), peer, id, now)
    {
      var marked := Get(disconnects, c.timeout, peer, now).Some?;
      disconnects := disconnects[peer := Stamped((), now)];
      if !marked {
        sent := sent + [Close(peer, id)];
      }
    }

    method DialAddress(addr: Multiaddr, now: nat)
      modifies this
      ensures View() == DialAddr(c, old(View()), addr, now)
    {
      if addr.ip.Some? {
        var marked := Get(dials, c.timeout, addr.ip.value, now).Some?;
        dials := dials[addr.ip.value := Stamped((), now)];
        if !marked {
          sent := sent + [Dial(addr)];
        }
      }
    }

    method DialEach(addresses: Addresses, now: nat)
      modifies this
      ensures View() == DialAll(c, old(View()), addresses, now)
    {
      hide DialAddr;
      for i := 0 to |addresses|
        invariant View() == DialAll(c, old(View()), addresses[..i], now)
      {
        assert addresses[..i + 1][..i] == addresses[..i];
        DialAddress(addresses[i], now);
      }
      assert addresses[..|addresses|] == addresses;
    }

    method IsPendingDial(peer: AddressablePeer, now: nat) returns (pending: bool)
      ensures pending == PendingDial(c, View(), peer, now)
    {
      for i := 0 to |peer.addresses|
        invariant forall k :: 0 <= k < i && peer.addresses[k].ip.Some? ==>
                    Get(dials, c.timeout, peer.addresses[k].ip.value, now).None?
      {
        if peer.addresses[i].ip.Some? && Get(dials, c.timeout, peer.addresses[i].ip.value, now).Some? {
          return true;
        }
      }
      return false;
    }

    method BanPeer(peer: PeerId)
      modifies this
      ensures View() == BanPeerFrom(old(View()), peer)
    {
      active, passive := active - {peer}, passive - {peer};
      sent := sent + [Ban(peer)];
    }

    /** Sends one copy to each active peer outside `except`. */
    method SendAll(dice: Dice, except: set<PeerId>, action: Action)
      requires Fair(dice)
      modifies this`sent
      ensures View() == Broadcast(dice, old(View()), except, action)
    {
      var order := dice.order(active.Keys - except);
      assert Enumerates(order, active.Keys - except);
      for i := 0 to |order|
        invariant View() == old(View()).(sent := old(sent) + Copies(order[..i], active, action))
      {
        var peer := order[i];
        assert peer in active.Keys - except;
        sent := sent + [Send(peer, active[peer].id, action)];
        CopiesSnoc(order, active, action, i);
      }
      assert order[..|order|] == order;
    }

    // ---- The views ----

    method AddToPassiveView(dice: Dice, k: nat, peer: AddressablePeer)
      requires Fair(dice)
      modifies this`passive
      ensures View() == AddPassive(c, dice, k, old(View()), peer)
    {
      var known := peer.id in passive;
      passive := passive[peer.id := peer.addresses];
      if !known && |passive| > c.maxPassive {
        var victim := dice.pick(k, passive.Keys);
        passive := passive - {victim};
      }
    }

    method AddToActiveView(peer: AddressablePeer, id: ConnectionId)
      modifies this
      ensures View() == AddActive(old(View()), peer, id)
    {
      if peer.id in active || peer.id == self.id {
        return;
      }
      active := active[peer.id := Link(id, peer.addresses)];
      passive := passive - {peer.id};
    }

    method MoveActiveToPassive(dice: Dice, peer: PeerId)
      requires Fair(dice)
      modifies this
      ensures View() == MoveToPassive(c, dice, old(View()), peer)
    {
      if peer in active {
        var link := active[peer];
        active := active - {peer};
        AddToPassiveView(dice, 0, AddressablePeer(peer, link.addresses));
      }
    }

    method TryNeighbouringWith(peer: AddressablePeer, now: nat)
      modifies this
      ensures View() == TryNeighbour(c, old(View()), peer, now)
    {
      var pending := IsPendingDial(peer, now);
      if peer.id in active || pending {
        return;
      }
      var marked := Get(neighbours, c.timeout, peer.id, now).Some?;
      neighbours := neighbours[peer.id := Stamped((), now)];
      if !marked {
        DialEach(peer.addresses, now);
      }
    }

    // ---- Connections ----

    method HandlePeerConnected(peer: AddressablePeer, id: ConnectionId, now: nat)
      modifies this
      ensures View() == OnConnected(c, old(View()), peer, id, now)
    {
      hide JoinBootstrap, MeetNeighbour, ReplyToShuffle;
      HandleNonPendingConnects(peer, id, now);
      HandlePendingNeighbours(peer, id, now);
      HandlePendingShuffleReplies(peer, id, now);
      dials := dials - Ips(peer.addresses);
    }

    method HandleNonPendingConnects(peer: AddressablePeer, id: ConnectionId, now: nat)
      modifies this
      ensures View() == JoinBootstrap(c, old(View()), peer, id, now)
    {
      var pending := IsPendingDial(peer, now);
      if |active| < c.optimal && pending
         && Get(joins, c.timeout, peer.id, now).None?
         && Get(neighbours, c.timeout, peer.id, now).None?
         && Get(replies, c.timeout, peer.id, now).None?
      {
        sent := sent + [Send(peer.id, id, Join(self))];
        joins := joins[peer.id := Stamped((), now)];
      }
    }

    method HandlePendingNeighbours(peer: AddressablePeer, id: ConnectionId, now: nat)
      modifies this
      ensures View() == MeetNeighbour(c, old(View()), peer, id, now)
    {
      var pending := Get(neighbours, c.timeout, peer.id, now).Some?;
      neighbours := neighbours - {peer.id};
      if pending {
        sent := sent + [Send(peer.id, id, Neighbour(self, active == map[]))];
        AddToActiveView(peer, id);
      }
    }

    method HandlePendingShuffleReplies(peer: AddressablePeer, id: ConnectionId, now: nat)
      modifies this
      ensures View() == ReplyToShuffle(c, old(View()), peer, id, now)
    {
      var pending := Get(replies, c.timeout, peer.id, now);
      replies := replies - {peer.id};
      if pending.Some? {
        sent := sent + [Send(peer.id, id, ShuffleReply(pending.value))];
        if peer.id !in active {
          Disconnect(peer.id, id, now);
        }
      }
    }

    method HandlePeerDisconnected(dice: Dice, peer: PeerId)
      requires Fair(dice)
      modifies this
      ensures View() == OnDisconnected(c, dice, old(View()), peer)
    {
      hide MoveToPassive;
      MoveActiveToPassive(dice, peer);
      replies := replies - {peer};
      disconnects := disconnects - {peer};
    }

    // ---- The tick ----

    method HandleTick(dice: Dice, now: nat)
      requires Fair(dice)
      modifies this
      ensures View() == OnTick(c, dice, old(View()), now)
    {
      hide InitiateShuffle, Stabilize, Elapsed;
      PrunePending(now);
      if Elapsed(lastShuffle, now) > c.shuffleInterval {
        StartShuffle(dice, now);
      }
      if |active| < c.optimal && dials == map[] && neighbours == map[] {
        TryStabilizeActiveView(dice, now);
      }
    }

    method PrunePending(now: nat)
      modifies this
      ensures View() == PruneAll(c, old(View()), now)
    {
      dials := Pruned(dials, c.timeout, now);
      disconnects := Pruned(disconnects, c.timeout, now);
      joins := Pruned(joins, c.timeout, now);
      neighbours := Pruned(neighbours, c.timeout, now);
      replies := Pruned(replies, c.timeout, now);
    }

    method StartShuffle(dice: Dice, now: nat)
      requires Fair(dice)
      modifies this
      ensures View() == InitiateShuffle(c, dice, old(View()), now)
    {
      lastShuffle := now;
      if !dice.toss {
        return;
      }
      var sample := dice.sample(active.Keys + passive.Keys, c.sampleSize);
      if active != map[] {
        assert active.Keys != {};
        var to := dice.pick(0, active.Keys);
        var peers := map p | p in sample :: if p in active then active[p].addresses else passive[p];
        assert peers == map p | p in sample :: KnownAddresses(old(View()), p);
        sent := sent + [Send(to, active[to].id, Shuffle(1, self, peers))];
      }
    }

    method TryStabilizeActiveView(dice: Dice, now: nat)
      requires Fair(dice)
      modifies this
      ensures View() == Stabilize(c, dice, old(View()), now)
    {
      if |active| < c.starved && dials == map[] && neighbours == map[] {
        if passive != map[] {
          assert passive.Keys != {};
          var p := dice.pick(1, passive.Keys);
          TryNeighbouringWith(AddressablePeer(p, passive[p]), now);
        } else if dials == map[] && joins == map[] {
          DialEach(c.bootstrap, now);
        }
      } else if |active| > c.optimal && disconnects == map[] {
        assert active.Keys != {};
        var p := dice.pick(1, active.Keys);
        Disconnect(p, active[p].id, now);
      }
    }

    // ---- Messages ----

    method ConsumeJoin(dice: Dice, sender: PeerId, node: AddressablePeer, id: ConnectionId, now: nat)
      requires Fair(dice)
      modifies this
      ensures View() == OnJoin(c, dice, old(View()), sender, node, id, now)
    {
      hide Fair, Broadcast, Hangup, TryNeighbour, AddPassive, BanPeerFrom;
      if sender != node.id {
        BanPeer(sender);
        return;
      }
      if sender in active {
        return;
      }
      SendAll(dice, {}, ForwardJoin(1, node));
      Disconnect(sender, id, now);
      if |active| < c.optimal {
        TryNeighbouringWith(node, now);
      }
      AddToPassiveView(dice, 0, node);
    }

    method ConsumeForwardJoin(dice: Dice, sender: PeerId, hop: nat, node: AddressablePeer, now: nat)
      requires Fair(dice)
      modifies this
      ensures View() == OnForwardJoin(c, dice, old(View()), sender, hop, node, now)
    {
      hide Fair, Broadcast, TryNeighbour, AddPassive, MakeRoom, Get;
      if sender !in active || sender == node.id || node.id == self.id {
        return;
      }
      AddToPassiveView(dice, 0, node);
      if hop >= c.walkLength {
        if Get(neighbours, c.timeout, node.id, now).None? {
          if |active| >= c.optimal {
            FreeSlot(dice, now);
          }
          TryNeighbouringWith(node, now);
        }
      } else {
        if |active| < c.optimal {
          TryNeighbouringWith(node, now);
        }
        SendAll(dice, {sender}, ForwardJoin(hop + 1, node));
      }
    }

    method FreeSlot(dice: Dice, now: nat)
      requires Fair(dice) && active != map[]
      modifies this
      ensures View() == MakeRoom(c, dice, old(View()), now)
    {
      hide Hangup, AddPassive;
      assert active.Keys != {};
      var victim := dice.pick(1, active.Keys);
      Disconnect(victim, active[victim].id, now);
      AddToPassiveView(dice, 2, AddressablePeer(victim, active[victim].addresses));
    }

    method ConsumeNeighbour(dice: Dice, sender: PeerId, peer: AddressablePeer, highPriority: bool, id: ConnectionId,
                            now: nat)
      requires Fair(dice) && c.optimal > 0
      modifies this
      ensures View() == OnNeighbour(c, dice, old(View()), sender, peer, highPriority, id, now)
    {
      hide Hangup, AddActive, BanPeerFrom;
      if sender in active {
        return;
      }
      if sender != peer.id {
        BanPeer(sender);
        return;
      }
      if |active| >= c.optimal && highPriority {
        assert active.Keys != {};
        var victim := dice.pick(0, active.Keys);
        Disconnect(victim, active[victim].id, now);
      }
      if |active| < c.optimal {
        AddToActiveView(peer, id);
      } else {
        Disconnect(sender, id, now);
      }
    }

    method ConsumeShuffle(dice: Dice, sender: PeerId, hop: nat, origin: AddressablePeer, peers: Peers, now: nat)
      requires Fair(dice)
      modifies this
      ensures View() == OnShuffle(c, dice, old(View()), sender, hop, origin, peers, now)
    {
      hide Fair, Answer, Broadcast, Reply, Reshuffled;
      if sender !in active {
        return;
      }
      var received := dice.sample(peers.Keys, c.sampleSize);
      var reply := BuildReply(received, dice, peers);
      Resample(received, dice, peers);
      AnswerShuffle(origin, reply, now);
      if hop < c.walkLength {
        SendAll(dice, {sender}, Shuffle(hop + 1, origin, peers));
      }
    }

    method BuildReply(received: set<PeerId>, dice: Dice, peers: Peers) returns (reply: Peers)
      requires received == Received(c, dice, peers)
      ensures reply == Reply(c, dice, View(), peers)
    {
      var local := active.Keys + passive.Keys;
      reply := Addressed(local - received, passive, active, peers);
    }

    /** The new passive view is a sample of everything known. */
    method Resample(received: set<PeerId>, dice: Dice, peers: Peers)
      requires Fair(dice) && received == Received(c, dice, peers)
      modifies this`passive
      ensures View() == old(View()).(passive := Reshuffled(c, dice, old(View()), peers))
    {
      hide Addressed;
      var local := active.Keys + passive.Keys;
      var unheard := received - local;
      assert local + unheard == local + received;
      SampleIsKnown(dice, local + received, c.maxPassive);
      SampleIsKnown(dice, peers.Keys, c.sampleSize);
      passive := Addressed(dice.sample(local + unheard, c.maxPassive), passive, active, peers);
    }

    method AnswerShuffle(origin: AddressablePeer, reply: Peers, now: nat)
      modifies this
      ensures View() == Answer(c, old(View()), origin, reply, now)
    {
      if origin.id in active {
        sent := sent + [Send(origin.id, active[origin.id].id, ShuffleReply(reply))];
      } else {
        replies := replies[origin.id := Stamped(reply, now)];
        DialEach(origin.addresses, now);
      }
    }

    method ConsumeShuffleReply(dice: Dice, sender: PeerId, peers: Peers, id: ConnectionId, now: nat)
      requires Fair(dice)
      modifies this
      ensures View() == OnShuffleReply(c, dice, old(View()), sender, peers, id, now)
    {
      var unheard := passive.Keys - peers.Keys;
      var kept := dice.sample(passive.Keys + unheard, c.maxPassive);
      passive := map p | p in kept :: passive[p];
      assert passive == Kept(c, dice, old(View()), peers);
      if sender !in active {
        Disconnect(sender, id, now);
      }
    }

    method ConsumeGossip(dice: Dice, sender: PeerId, data: string, id: ConnectionId, now: nat)
      requires Fair(dice)
      modifies this
      ensures View() == OnGossip(c, dice, old(View()), sender, data, id, now)
    {
      hide Broadcast, Hangup;
      if sender !in active {
        Disconnect(sender, id, now);
        return;
      }
      SendAll(dice, {sender}, Gossip(data));
      emitted := emitted + [data];
    }

    // ---- Dispatch ----

    method InjectEvent(dice: Dice, event: TopicEvent, now: nat)
      requires Fair(dice) && c.optimal > 0
      requires event.MessageReceived? ==> event.msg.topic == c.name
      modifies this
      ensures View() == OnEvent(c, dice, old(View()), event, now)
    {
      hide Fair, OnTick, OnJoin, OnForwardJoin, OnNeighbour, OnShuffle, OnShuffleReply, OnGossip, OnConnected,
          OnDisconnected;
      match event {
        case MessageReceived(from, msg, id) =>
          match msg.action {
            case Join(node) => ConsumeJoin(dice, from, node, id, now);
            case ForwardJoin(hop, node) => ConsumeForwardJoin(dice, from, hop, node, now);
            case Neighbour(peer, highPriority) => ConsumeNeighbour(dice, from, peer, highPriority, id, now);
            case Shuffle(hop, origin, peers) => ConsumeShuffle(dice, from, hop, origin, peers, now);
            case ShuffleReply(peers) => ConsumeShuffleReply(dice, from, peers, id, now);
            case Gossip(data) => ConsumeGossip(dice, from, data, id, now);
          }
        case LocalAddressDiscovered(addr) =>
          if addr !in self.addresses {
            self := AddressablePeer(self.id, self.addresses + [addr]);
          }
        case PeerConnected(peer, id) => HandlePeerConnected(peer, id, now);
        case PeerDisconnected(from, _) => HandlePeerDisconnected(dice, from);
        case Tick => HandleTick(dice, now);
      }
    }

    /** The public operation: hands a message to every active peer. */
    method Gossiping(dice: Dice, data: string) returns (r: Result<(), GossipError>)
      requires Fair(dice)
      modifies this
      ensures match Publish(c, dice, old(View()), data)
        case Err(e) => r == Err(e) && View() == old(View())
        case Ok(n) => r == Ok(()) && View() == n
    {
      if |data| > c.maxTransmit {
        return Err(MessageTooLarge);
      }
      if active == map[] {
        return Err(NoConnectedPeers);
      }
      SendAll(dice, {}, Gossip(data));
      return Ok(());
    }
  }

  function StartDials(bootstrap: Addresses, now: nat): Entries<Ip, ()> {
    if bootstrap == [] then map[]
    else
      var front, addr := StartDials(bootstrap[..|bootstrap| - 1], now), bootstrap[|bootstrap| - 1];
      if addr.ip.None? then front else front[addr.ip.value := Stamped((), now)]
  }

  /** Every bootstrap address is dialed, also one whose host is being dialed already. */
  function Started(c: Config, self: AddressablePeer, now: nat): Node {
    Node(self, map[], map[], StartDials(c.bootstrap, now), map[], map[], map[], map[], now,
         seq(|c.bootstrap|, i requires 0 <= i < |c.bootstrap| => Dial(c.bootstrap[i])), [])
  }

  lemma SampleIsKnown(dice: Dice, s: set<PeerId>, n: nat)
    requires Fair(dice)
    ensures dice.sample(s, n) <= s
  {
  }

  lemma CopiesSnoc(order: seq<PeerId>, active: map<PeerId, Link>, action: Action, i: nat)
    requires i < |order| && forall k :: 0 <= k < |order| ==> order[k] in active
    ensures Copies(order[..i + 1], active, action) == Copies(order[..i], active, action) +
        [Send(order[i], active[order[i]].id, action)]
  {
  }
}
