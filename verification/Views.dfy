/** What a topic keeps of its views, over every run and all random choices. */
module Views {
  import opened Cache
  import opened Muxer
  import opened Network
  import opened Sequences
  import opened Topic
  import opened Wire

  // ---- Fair dice exist ----

  lemma {:induction false} EnumerationExists(peers: set<PeerId>)
    ensures exists order :: Enumerates(order, peers)
  {
    if peers == {} {
      assert Enumerates([], peers);
    } else {
      var p :| p in peers;
      EnumerationExists(peers - {p});
      var order :| Enumerates(order, peers - {p});
      var longer := order + [p];
      forall q | q in peers ensures q in longer {
        assert q != p ==> q in order;
        assert longer[|order|] == p;
      }
      assert Enumerates(longer, peers);
    }
  }

  ghost function SomeOrder(peers: set<PeerId>): (order: seq<PeerId>)
    ensures Enumerates(order, peers)
  {
    EnumerationExists(peers);
    var order :| Enumerates(order, peers);
    order
  }

  ghost function SomeOf(peers: set<PeerId>): (p: PeerId)
    ensures peers != {} ==> p in peers
  {
    if peers == {} then 0
    else
      var p :| p in peers;
      p
  }

  lemma FairDiceExist() returns (dice: Dice)
    ensures Fair(dice)
  {
    dice := Dice((k, s) => SomeOf(s), (s, n) => {}, false, s => SomeOrder(s));
  }

  lemma SampleIsSmall(dice: Dice, s: set<PeerId>, n: nat)
    requires Fair(dice)
    ensures dice.sample(s, n) <= s && |dice.sample(s, n)| <= n
  {
  }

  lemma PickIsMember(dice: Dice, k: nat, s: set<PeerId>)
    requires Fair(dice) && s != {}
    ensures dice.pick(k, s) in s
  {
  }

  // ---- Who enters and who leaves the active view ----

  predicate Admits(c: Config, n: Node, event: TopicEvent, p: PeerId, now: nat) {
    match event
    case MessageReceived(from, msg, _) => msg.action.Neighbour? && from == p && msg.action.peer.id == p && !Full(c, n)
    case PeerConnected(peer, _) => peer.id == p && Get(n.neighbours, c.timeout, p, now).Some?
    case _ => false
  }

  predicate Expels(event: TopicEvent, p: PeerId) {
    match event
    case MessageReceived(from, msg, _) => msg.action.Join? && from == p && msg.action.node.id != p
    case PeerDisconnected(from, _) => from == p
    case _ => false
  }

  lemma BanMeans(n: Node, peer: PeerId)
    ensures var t := BanPeerFrom(n, peer);
            && t.self == n.self && t.active == n.active - {peer} && |t.passive| <= |n.passive|
            && (peer !in n.active ==> t.active == n.active)
  {
    SizeOfRemoval(n.passive, peer);
  }

  lemma AddActiveMeans(n: Node, peer: AddressablePeer, id: ConnectionId)
    ensures var t := AddActive(n, peer, id);
            && t.self == n.self && |t.passive| <= |n.passive|
            && t.active == if peer.id in n.active || peer.id == n.self.id then n.active
                           else n.active[peer.id := Link(id, peer.addresses)]
  {
    SizeOfRemoval(n.passive, peer.id);
  }

  lemma SizeOfUpdate<K, V>(m: map<K, V>, k: K, v: V)
    ensures |m[k := v]| == if k in m then |m| else |m| + 1
  {
    assert m[k := v].Keys == m.Keys + {k};
  }

  lemma SizeOfRemoval<K, V>(m: map<K, V>, k: K)
    ensures |m - {k}| == if k in m then |m| - 1 else |m|
  {
    assert (m - {k}).Keys == m.Keys - {k};
    assert |m| == |m.Keys| && |m - {k}| == |(m - {k}).Keys|;
  }

  lemma JoinLeavesActive(c: Config, dice: Dice, n: Node, sender: PeerId, node: AddressablePeer, id: ConnectionId,
                         now: nat)
    requires Fair(dice)
    ensures var t := OnJoin(c, dice, n, sender, node, id, now);
            t.self == n.self && t.active == if sender != node.id then n.active - {sender} else n.active
  {
    hide Fair, Hangup, Broadcast, TryNeighbour, AddPassive, BanPeerFrom;
    BanMeans(n, sender);
  }

  lemma NeighbourMeans(c: Config, dice: Dice, n: Node, sender: PeerId, peer: AddressablePeer, highPriority: bool,
                       id: ConnectionId,
                        now: nat)
    requires Fair(dice) && c.optimal > 0
    ensures var t := OnNeighbour(c, dice, n, sender, peer, highPriority, id, now);
            && t.self == n.self && |t.passive| <= |n.passive|
            && t.active == if sender in n.active || sender != peer.id || Full(c, n) || sender == n.self.id then n.active
                           else n.active[sender := Link(id, peer.addresses)]
  {
    hide Fair, Hangup, HangupOne, BanPeerFrom, AddActive;
    BanMeans(n, sender);
    AddActiveMeans(n, peer, id);
  }

  lemma MeetMeans(c: Config, n: Node, peer: AddressablePeer, id: ConnectionId, now: nat)
    ensures var t := MeetNeighbour(c, n, peer, id, now);
            && t.self == n.self && |t.passive| <= |n.passive|
            && t.active == if Get(n.neighbours, c.timeout, peer.id, now).None? || peer.id in n.active ||
                 peer.id == n.self.id
                           then n.active else n.active[peer.id := Link(id, peer.addresses)]
  {
    hide AddActive, Get;
    var taken := n.(neighbours := n.neighbours - {peer.id});
    AddActiveMeans(Say(taken, Send(peer.id, id, Neighbour(n.self, n.active == map[]))), peer, id);
  }

  lemma ConnectedMeans(c: Config, n: Node, peer: AddressablePeer, id: ConnectionId, now: nat)
    ensures var t := OnConnected(c, n, peer, id, now);
            && t.self == n.self && |t.passive| <= |n.passive|
            && t.active == if Get(n.neighbours, c.timeout, peer.id, now).None? || peer.id in n.active ||
                 peer.id == n.self.id
                           then n.active else n.active[peer.id := Link(id, peer.addresses)]
  {
    assert JoinBootstrap(c, n, peer, id, now).neighbours == n.neighbours;
    hide Get, JoinBootstrap, ReplyToShuffle, MeetNeighbour, Ips;
    MeetMeans(c, JoinBootstrap(c, n, peer, id, now), peer, id, now);
  }

  lemma DisconnectedActive(c: Config, dice: Dice, n: Node, peer: PeerId)
    ensures var t := OnDisconnected(c, dice, n, peer); t.self == n.self && t.active == n.active - {peer}
  {
    hide AddPassive;
  }

  /**
   * Exactly who is active after an event: a peer enters only by its own NEIGHBOUR while the view is below its optimal
   * size or by a connection to a pending neighbour, and leaves only when its connection closes or by an impersonating
   * JOIN. Making room, a full view or a shuffle remove nobody.
   */
  lemma ActiveExactly(c: Config, dice: Dice, n: Node, event: TopicEvent, now: nat, p: PeerId)
    requires Fair(dice) && c.optimal > 0
    ensures var t := OnEvent(c, dice, n, event, now);
            && t.self.id == n.self.id
            && (p in t.active <==> if p in n.active then !Expels(event, p)
                else p != n.self.id && Admits(c, n, event, p, now))
            && (p in t.active && p in n.active ==> t.active[p] == n.active[p])
  {
    hide Fair, Get, OnTick, OnJoin, OnForwardJoin, OnNeighbour, OnShuffle, OnShuffleReply, OnGossip, OnConnected,
        OnDisconnected;
    match event {
      case MessageReceived(from, msg, id) =>
        match msg.action {
          case Join(node) => JoinLeavesActive(c, dice, n, from, node, id, now);
          case Neighbour(peer, highPriority) => NeighbourMeans(c, dice, n, from, peer, highPriority, id, now);
          case _ =>
        }
      case PeerConnected(peer, id) => ConnectedMeans(c, n, peer, id, now);
      case PeerDisconnected(from, _) => DisconnectedActive(c, dice, n, from);
      case _ =>
    }
  }

  // ---- The passive view ----

  ghost predicate Safe(c: Config, n: Node) {
    |n.passive| <= c.maxPassive && n.self.id !in n.active
  }

  lemma EvictionMakesRoom<K, V>(m: map<K, V>, k: K, v: V, victim: K)
    requires victim in m[k := v].Keys
    ensures |m[k := v]| <= |m| + 1 && |m[k := v] - {victim}| <= |m|
    ensures k in m ==> |m[k := v]| == |m|
  {
    SizeOfUpdate(m, k, v);
    SizeOfRemoval(m[k := v], victim);
  }

  lemma AddPassiveBounded(c: Config, dice: Dice, k: nat, n: Node, peer: AddressablePeer)
    requires Fair(dice) && |n.passive| <= c.maxPassive
    ensures |AddPassive(c, dice, k, n, peer).passive| <= c.maxPassive
  {
    hide Fair;
    var more := n.passive[peer.id := peer.addresses];
    assert peer.id in more.Keys;
    PickIsMember(dice, k, more.Keys);
    EvictionMakesRoom(n.passive, peer.id, peer.addresses, dice.pick(k, more.Keys));
  }

  lemma ForwardJoinBounded(c: Config, dice: Dice, n: Node, sender: PeerId, hop: nat, node: AddressablePeer, now: nat)
    requires Fair(dice) && |n.passive| <= c.maxPassive
    ensures |OnForwardJoin(c, dice, n, sender, hop, node, now).passive| <= c.maxPassive
  {
    hide Fair, Hangup, Broadcast, TryNeighbour, AddPassive, Get;
    AddPassiveBounded(c, dice, 0, n, node);
    if n.active != map[] {
      MakeRoomBounded(c, dice, AddPassive(c, dice, 0, n, node), now);
    }
    hide MakeRoom;
  }

  lemma MakeRoomBounded(c: Config, dice: Dice, n: Node, now: nat)
    requires Fair(dice) && n.active != map[] && |n.passive| <= c.maxPassive
    ensures |MakeRoom(c, dice, n, now).passive| <= c.maxPassive
  {
    hide Hangup, AddPassive;
    var p := dice.pick(1, n.active.Keys);
    AddPassiveBounded(c, dice, 2, Hangup(c, n, p, n.active[p].id, now), AddressablePeer(p, n.active[p].addresses));
  }

  lemma JoinBounded(c: Config, dice: Dice, n: Node, sender: PeerId, node: AddressablePeer, id: ConnectionId, now: nat)
    requires Fair(dice) && |n.passive| <= c.maxPassive
    ensures |OnJoin(c, dice, n, sender, node, id, now).passive| <= c.maxPassive
  {
    hide Fair, Hangup, Broadcast, TryNeighbour, AddPassive, BanPeerFrom;
    BanMeans(n, sender);
    var closed := Hangup(c, Broadcast(dice, n, {}, ForwardJoin(1, node)), sender, id, now);
    AddPassiveBounded(c, dice, 0, if Full(c, closed) then closed else TryNeighbour(c, closed, node, now), node);
  }

  lemma ShuffleBounded(c: Config, dice: Dice, n: Node, sender: PeerId, hop: nat, origin: AddressablePeer, peers: Peers,
                       now: nat)
    requires Fair(dice) && |n.passive| <= c.maxPassive
    ensures |OnShuffle(c, dice, n, sender, hop, origin, peers, now).passive| <= c.maxPassive
  {
    ReshuffledBounded(c, dice, n, peers);
    hide Fair, Answer, Broadcast, Reply, Reshuffled;
  }

  lemma ReshuffledBounded(c: Config, dice: Dice, n: Node, peers: Peers)
    requires Fair(dice)
    ensures |Reshuffled(c, dice, n, peers)| <= c.maxPassive
  {
    var all := Local(n) + Received(c, dice, peers);
    SampleIsSmall(dice, all, c.maxPassive);
    hide Fair, Received;
    var mixed := Reshuffled(c, dice, n, peers);
    assert mixed.Keys == dice.sample(all, c.maxPassive);
    assert |mixed| == |mixed.Keys|;
  }

  lemma KeptBounded(c: Config, dice: Dice, n: Node, peers: Peers)
    requires Fair(dice)
    ensures |Kept(c, dice, n, peers)| <= c.maxPassive
  {
    var all := n.passive.Keys + (n.passive.Keys - peers.Keys);
    SampleIsSmall(dice, all, c.maxPassive);
    hide Fair;
    var kept := Kept(c, dice, n, peers);
    assert kept.Keys == dice.sample(all, c.maxPassive);
    assert |kept| == |kept.Keys|;
  }

  lemma ReplyBounded(c: Config, dice: Dice, n: Node, sender: PeerId, peers: Peers, id: ConnectionId, now: nat)
    requires Fair(dice)
    ensures |OnShuffleReply(c, dice, n, sender, peers, id, now).passive| <= c.maxPassive
  {
    KeptBounded(c, dice, n, peers);
    hide Fair, Hangup, Kept;
  }

  lemma DisconnectedBounded(c: Config, dice: Dice, n: Node, peer: PeerId)
    requires Fair(dice) && |n.passive| <= c.maxPassive
    ensures |OnDisconnected(c, dice, n, peer).passive| <= c.maxPassive
  {
    hide AddPassive, Fair;
    if peer in n.active {
      AddPassiveBounded(c, dice, 0, n.(active := n.active - {peer}), AddressablePeer(peer, n.active[peer].addresses));
    }
  }

  /** Every event keeps the passive view within its limit and the node out of its own active view. */
  lemma EventKeepsSafe(c: Config, dice: Dice, n: Node, event: TopicEvent, now: nat)
    requires Fair(dice) && c.optimal > 0 && Safe(c, n)
    ensures Safe(c, OnEvent(c, dice, n, event, now))
  {
    hide Fair, Get, OnTick, OnJoin, OnForwardJoin, OnNeighbour, OnShuffle, OnShuffleReply, OnGossip, OnConnected,
        OnDisconnected;
    ActiveExactly(c, dice, n, event, now, n.self.id);
    match event {
      case MessageReceived(from, msg, id) =>
        match msg.action {
          case Join(node) => JoinBounded(c, dice, n, from, node, id, now);
          case ForwardJoin(hop, node) => ForwardJoinBounded(c, dice, n, from, hop, node, now);
          case Neighbour(peer, highPriority) => NeighbourMeans(c, dice, n, from, peer, highPriority, id, now);
          case Shuffle(hop, origin, peers) => ShuffleBounded(c, dice, n, from, hop, origin, peers, now);
          case ShuffleReply(peers) => ReplyBounded(c, dice, n, from, peers, id, now);
          case _ =>
        }
      case PeerConnected(peer, id) => ConnectedMeans(c, n, peer, id, now);
      case PeerDisconnected(from, _) => DisconnectedBounded(c, dice, n, from);
      case _ =>
    }
  }

  // ---- Runs ----

  datatype Moment = Moment(event: TopicEvent, dice: Dice, at: nat)

  ghost predicate FairRun(run: seq<Moment>) {
    forall k :: 0 <= k < |run| ==> Fair(run[k].dice)
  }

  function RunOf(c: Config, n: Node, run: seq<Moment>): Node
    requires FairRun(run) && c.optimal > 0
  {
    if run == [] then n
    else
      var last := run[|run| - 1];
      assert forall k :: 0 <= k < |run| - 1 ==> run[..|run| - 1][k] == run[k];
      OnEvent(c, last.dice, RunOf(c, n, run[..|run| - 1]), last.event, last.at)
  }

  /** A topic starts out knowing nobody. */
  predicate Blank(n: Node) {
    n.active == map[] && n.passive == map[]
  }

  /** The k-th event of the run let the peer in, and no later one expelled it. */
  ghost predicate AdmittedAt(c: Config, n: Node, run: seq<Moment>, p: PeerId, k: nat)
    requires FairRun(run) && c.optimal > 0 && k < |run|
  {
    && FairRun(run[..k])
    && Admits(c, RunOf(c, n, run[..k]), run[k].event, p, run[k].at)
    && forall j :: k < j < |run| ==> !Expels(run[j].event, p)
  }

  /**
   * Over every run of a topic and all random choices: the passive view stays within its limit, the node is never in its
   * own active view, and every active peer was let in at some moment and not expelled since.
   */
  lemma {:induction false} RunKeepsViews(c: Config, n: Node, run: seq<Moment>)
    requires FairRun(run) && c.optimal > 0 && Blank(n)
    ensures Safe(c, RunOf(c, n, run)) && RunOf(c, n, run).self.id == n.self.id
    ensures forall p :: p in RunOf(c, n, run).active ==> exists k: nat :: k < |run| && AdmittedAt(c, n, run, p, k)
  {
    hide OnEvent, Admits, Expels;
    if run != [] {
      var front, last := run[..|run| - 1], run[|run| - 1];
      RunKeepsViews(c, n, front);
      var before := RunOf(c, n, front);
      EventKeepsSafe(c, last.dice, before, last.event, last.at);
      ActiveExactly(c, last.dice, before, last.event, last.at, n.self.id);
      forall p | p in RunOf(c, n, run).active ensures exists k: nat :: k < |run| && AdmittedAt(c, n, run, p, k) {
        ActiveExactly(c, last.dice, before, last.event, last.at, p);
        if p in before.active {
          var k: nat :| k < |front| && AdmittedAt(c, n, front, p, k);
          assert front[..k] == run[..k];
          assert forall j :: k < j < |front| ==> front[j] == run[j];
          assert AdmittedAt(c, n, run, p, k);
        } else {
          assert AdmittedAt(c, n, run, p, |front|);
        }
      }
    }
  }

  // ---- Where the code differs from its description ----

  /** A full view admits no NEIGHBOUR, whatever its priority: it only hangs up, on a random peer and on the sender. */
  lemma FullViewAdmitsNobody(c: Config, dice: Dice, n: Node, sender: PeerId, peer: AddressablePeer, highPriority: bool,
                             id: ConnectionId, now: nat)
    requires Fair(dice) && c.optimal > 0 && sender !in n.active && sender == peer.id && sender != n.self.id
    ensures var t := OnNeighbour(c, dice, n, sender, peer, highPriority, id, now);
            && (sender in t.active <==> !Full(c, n))
            && (Full(c, n) ==> t.active == n.active && sender in t.disconnects)
  {
    hide Fair, Hangup, HangupOne, AddActive, BanPeerFrom;
    NeighbourMeans(c, dice, n, sender, peer, highPriority, id, now);
  }

  /** A shuffle reply teaches nothing: the passive view afterwards is a part of what it was. */
  lemma ShuffleReplyTeachesNothing(c: Config, dice: Dice, n: Node, sender: PeerId, peers: Peers, id: ConnectionId,
                                   now: nat)
    requires Fair(dice)
    ensures var t := OnShuffleReply(c, dice, n, sender, peers, id, now);
            forall p :: p in t.passive ==> p in n.passive && t.passive[p] == n.passive[p]
  {
    hide Fair, Hangup;
    var all := n.passive.Keys + (n.passive.Keys - peers.Keys);
    SampleIsSmall(dice, all, c.maxPassive);
    assert forall p :: p in Kept(c, dice, n, peers) ==> p in all;
  }

  /** A view above its optimal size is never trimmed by the tick, which looks for peers only below it. */
  lemma TickHangsUpOnNobody(c: Config, dice: Dice, n: Node, now: nat)
    requires Fair(dice)
    ensures var t := OnTick(c, dice, n, now);
            && n.sent <= t.sent && forall i :: |n.sent| <= i < |t.sent| ==> !t.sent[i].Close?
  {
    hide Fair, PruneAll, InitiateShuffle, Stabilize, Elapsed;
    var pruned := PruneAll(c, n, now);
    assert pruned.sent == n.sent by { PruneIsSilent(c, n, now); }
    ShuffleSendsOne(c, dice, pruned, now);
    var shuffled := if Elapsed(n.lastShuffle, now) > c.shuffleInterval then InitiateShuffle(c, dice, pruned, now)
        else pruned;
    if !Full(c, shuffled) {
      StabilizeDialsOnly(c, dice, shuffled, now);
    }
  }

  lemma PruneIsSilent(c: Config, n: Node, now: nat)
    ensures PruneAll(c, n, now).sent == n.sent
  {
  }

  lemma ShuffleSendsOne(c: Config, dice: Dice, n: Node, now: nat)
    requires Fair(dice)
    ensures var t := InitiateShuffle(c, dice, n, now);
            n.sent <= t.sent && |t.sent| <= |n.sent| + 1 && forall i :: |n.sent| <= i < |t.sent| ==> t.sent[i].Send?
  {
    hide Fair, KnownAddresses;
  }

  lemma StabilizeDialsOnly(c: Config, dice: Dice, n: Node, now: nat)
    requires Fair(dice) && !Full(c, n)
    ensures var t := Stabilize(c, dice, n, now);
            n.sent <= t.sent && forall i :: |n.sent| <= i < |t.sent| ==> t.sent[i].Dial?
  {
    hide Fair, TryNeighbour, DialAll, Hangup;
    DialsOnly(c, n, c.bootstrap, now);
    if n.passive != map[] {
      var p := dice.pick(1, n.passive.Keys);
      PickIsMember(dice, 1, n.passive.Keys);
      NeighbouringDialsOnly(c, n, AddressablePeer(p, n.passive[p]), now);
    }
  }

  lemma {:induction false} DialsOnly(c: Config, n: Node, addresses: Addresses, now: nat)
    ensures var t := DialAll(c, n, addresses, now);
            n.sent <= t.sent && forall i :: |n.sent| <= i < |t.sent| ==> t.sent[i].Dial?
  {
    hide DialAddr, SameViews;
    if addresses != [] {
      DialsOnly(c, n, addresses[..|addresses| - 1], now);
    }
  }

  lemma NeighbouringDialsOnly(c: Config, n: Node, peer: AddressablePeer, now: nat)
    ensures var t := TryNeighbour(c, n, peer, now);
            n.sent <= t.sent && forall i :: |n.sent| <= i < |t.sent| ==> t.sent[i].Dial?
  {
    hide DialAll, PendingDial, Get;
    DialsOnly(c, n.(neighbours := n.neighbours[peer.id := Stamped((), now)]), peer.addresses, now);
  }

  // ---- What a new connection is told ----

  /** The commands between two states of a node. */
  function Since(n: Node, t: Node): seq<TopicCommand> {
    if |n.sent| <= |t.sent| then t.sent[|n.sent|..] else []
  }

  /**
   * A new connection is sent JOIN only if the peer was dialed, is not expected for anything else, and the view is not
   * full; and then it is sent nothing else and is not hung up on.
   */
  lemma JoinIsSentAlone(c: Config, n: Node, peer: AddressablePeer, id: ConnectionId, now: nat)
    ensures var commands := Since(n, OnConnected(c, n, peer, id, now));
            Send(peer.id, id, Join(n.self)) in commands ==>
              commands == [Send(peer.id, id, Join(n.self))] && !Full(c, n) && PendingDial(c, n, peer, now)
              && peer.id in OnConnected(c, n, peer, id, now).joins
  {
    hide Get, PendingDial, Ips, MeetNeighbour, ReplyToShuffle;
    var joined := JoinBootstrap(c, n, peer, id, now);
    MeetSays(c, joined, peer, id, now);
    ReplySays(c, MeetNeighbour(c, joined, peer, id, now), peer, id, now);
  }

  /** A pending neighbour is told so, and nobody else is told anything. */
  lemma MeetSays(c: Config, n: Node, peer: AddressablePeer, id: ConnectionId, now: nat)
    ensures var t := MeetNeighbour(c, n, peer, id, now);
            && n.sent <= t.sent && (forall i :: |n.sent| <= i < |t.sent| ==>
                                    t.sent[i].Send? && t.sent[i].action.Neighbour?)
            && t.replies == n.replies && t.joins == n.joins
            && (Get(n.neighbours, c.timeout, peer.id, now).None? ==> t.sent == n.sent)
  {
    hide Get;
  }

  lemma HangupOnlyCloses(c: Config, n: Node, peer: PeerId, id: ConnectionId, now: nat)
    ensures var t := Hangup(c, n, peer, id, now);
            t.joins == n.joins && n.sent <= t.sent && forall i :: |n.sent| <= i < |t.sent| ==> t.sent[i].Close?
  {
  }

  lemma ReplySays(c: Config, n: Node, peer: AddressablePeer, id: ConnectionId, now: nat)
    ensures var t := ReplyToShuffle(c, n, peer, id, now);
            && n.sent <= t.sent
            && (forall i :: |n.sent| <= i < |t.sent| ==>
                t.sent[i].Close? || (t.sent[i].Send? && t.sent[i].action.ShuffleReply?))
            && t.joins == n.joins
            && (Get(n.replies, c.timeout, peer.id, now).None? ==> t.sent == n.sent)
  {
    hide Get, Hangup;
    var pending := Get(n.replies, c.timeout, peer.id, now);
    if pending.Some? {
      HangupOnlyCloses(c, Say(n.(replies := n.replies - {peer.id}), Send(peer.id, id, ShuffleReply(pending.value))),
                       peer.id, id, now);
    }
  }

  // ---- Rules that the handlers share ----

  /** Within the timeout of one hang-up the same peer is not hung up on again, and each attempt extends the time. */
  lemma HangupOncePerTimeout(c: Config, n: Node, peer: PeerId, first: ConnectionId, second: ConnectionId, at: nat,
                             now: nat)
    requires at <= now
    ensures var t := Hangup(c, n, peer, first, at);
            && Hangup(c, t, peer, second, now).sent ==
                 (if now - at <= c.timeout then t.sent else t.sent + [Close(peer, second)])
            && Hangup(c, t, peer, second, now).disconnects[peer].at == now
  {
    HangupMeans(c, n, peer, first, at);
    HangupMeans(c, Hangup(c, n, peer, first, at), peer, second, now);
    hide Hangup;
  }

  lemma HangupMeans(c: Config, n: Node, peer: PeerId, id: ConnectionId, now: nat)
    ensures var t := Hangup(c, n, peer, id, now);
            && peer in t.disconnects && t.disconnects[peer].at == now
            && (peer in n.disconnects && Elapsed(n.disconnects[peer].at, now) <= c.timeout ==> t.sent == n.sent)
            && (peer in n.disconnects && Elapsed(n.disconnects[peer].at, now) > c.timeout ==>
                  t.sent == n.sent + [Close(peer, id)])
  {
    hide Get;
    GetMeans(n.disconnects, c.timeout, peer, now);
    var marked := n.(disconnects := n.disconnects[peer := Stamped((), now)]);
    var known := Get(n.disconnects, c.timeout, peer, now).Some?;
    assert Hangup(c, n, peer, id, now) == if known then marked else Say(marked, Close(peer, id));
  }

  /** No address is dialed again on its host within the timeout. */
  lemma DialOncePerTimeout(c: Config, n: Node, addr: Multiaddr, other: Multiaddr, at: nat, now: nat)
    requires at <= now && addr.ip.Some? && other.ip == addr.ip
    ensures var t := DialAddr(c, n, addr, at);
            DialAddr(c, t, other, now).sent == if now - at <= c.timeout then t.sent else t.sent + [Dial(other)]
  {
    DialMeans(c, n, addr, at);
    DialMeans(c, DialAddr(c, n, addr, at), other, now);
    hide DialAddr;
  }

  lemma DialMeans(c: Config, n: Node, addr: Multiaddr, now: nat)
    requires addr.ip.Some?
    ensures var host, t := addr.ip.value, DialAddr(c, n, addr, now);
            && host in t.dials && t.dials[host].at == now
            && (host in n.dials && Elapsed(n.dials[host].at, now) <= c.timeout ==> t.sent == n.sent)
            && (host in n.dials && Elapsed(n.dials[host].at, now) > c.timeout ==> t.sent == n.sent + [Dial(addr)])
  {
    hide Get;
    var host := addr.ip.value;
    GetMeans(n.dials, c.timeout, host, now);
    var marked := n.(dials := n.dials[host := Stamped((), now)]);
    var known := Get(n.dials, c.timeout, host, now).Some?;
    assert DialAddr(c, n, addr, now) == if known then marked else Say(marked, Dial(addr));
  }

  lemma GetMeans<K, V>(data: Entries<K, V>, lifespan: nat, key: K, now: nat)
    ensures Get(data, lifespan, key, now).Some? <==> key in data && Elapsed(data[key].at, now) <= lifespan
  {
  }

  /**
   * A tick sends at most one shuffle, only when one is due, and dials only if the view is below its starving size and
   * no dial or neighbour younger than the timeout is pending.
   */
  lemma TickActsOnlyWhenIdle(c: Config, dice: Dice, n: Node, now: nat)
    requires Fair(dice)
    ensures var commands := Since(n, OnTick(c, dice, n, now));
            && (forall i :: 0 <= i < |commands| ==>
                commands[i].Dial? || (i == 0 && commands[i].Send? && commands[i].action.Shuffle?))
            && ((exists i :: 0 <= i < |commands| && commands[i].Send?) ==>
                  Elapsed(n.lastShuffle, now) > c.shuffleInterval && n.active != map[] && dice.toss)
            && ((exists i :: 0 <= i < |commands| && commands[i].Dial?) ==>
                  |n.active| < c.starved && !Full(c, n)
                  && Pruned(n.dials, c.timeout, now) == map[] && Pruned(n.neighbours, c.timeout, now) == map[])
  {
    hide Fair, PruneAll, InitiateShuffle, Stabilize, Elapsed, Pruned;
    var pruned := PruneAll(c, n, now);
    PruneMeans(c, n, now);
    ShuffleMeans(c, dice, pruned, now);
    var shuffled := if Elapsed(n.lastShuffle, now) > c.shuffleInterval then InitiateShuffle(c, dice, pruned, now)
        else pruned;
    if !Full(c, shuffled) {
      StabilizeDialsOnly(c, dice, shuffled, now);
      StabilizeMeans(c, dice, shuffled, now);
    }
  }

  lemma PruneMeans(c: Config, n: Node, now: nat)
    ensures var t := PruneAll(c, n, now);
            && t.sent == n.sent && t.lastShuffle == n.lastShuffle
            && t.dials == Pruned(n.dials, c.timeout, now) && t.neighbours == Pruned(n.neighbours, c.timeout, now)
  {
  }

  lemma ShuffleMeans(c: Config, dice: Dice, n: Node, now: nat)
    requires Fair(dice)
    ensures var t := InitiateShuffle(c, dice, n, now);
            && n.sent <= t.sent && |t.sent| <= |n.sent| + 1 && t.dials == n.dials && t.neighbours == n.neighbours
            && forall i :: |n.sent| <= i < |t.sent| ==>
                 t.sent[i].Send? && t.sent[i].action.Shuffle? && n.active != map[] && dice.toss
  {
    hide Fair, KnownAddresses;
  }

  lemma StabilizeMeans(c: Config, dice: Dice, n: Node, now: nat)
    requires Fair(dice) && !Full(c, n)
    ensures |n.active| >= c.starved || n.dials != map[] || n.neighbours != map[] ==>
        Stabilize(c, dice, n, now).sent == n.sent
  {
    hide Fair, TryNeighbour, DialAll;
  }

  /**
   * A shuffle is answered with exactly the known peers that were not drawn from it, at the addresses known for them.
   */
  lemma ReplyExactly(c: Config, dice: Dice, n: Node, peers: Peers, p: PeerId)
    ensures var reply := Reply(c, dice, n, peers);
            && (p in reply <==> (p in n.active || p in n.passive) && p !in Received(c, dice, peers))
            && (p in reply ==> reply[p] == if p in n.passive then n.passive[p] else n.active[p].addresses)
  {
    hide Received;
  }

  /** After a shuffle the passive view holds only peers that were known or that the shuffle mentioned. */
  lemma ReshuffledIsKnown(c: Config, dice: Dice, n: Node, peers: Peers, p: PeerId)
    requires Fair(dice) && p in Reshuffled(c, dice, n, peers)
    ensures p in n.active || p in n.passive || p in peers
  {
    SampleIsSmall(dice, Local(n) + Received(c, dice, peers), c.maxPassive);
    SampleIsSmall(dice, peers.Keys, c.sampleSize);
    hide Fair;
  }
}
