/** One node of a topic overlay: its views, its pending peers and its handlers. */
module Topic {
  import opened Cache
  import opened Muxer
  import opened Network
  import opened Sequences
  import opened Wire
  import opened Wrappers

  datatype Config = Config(name: TopicName, bootstrap: Addresses, optimal: nat, starved: nat, maxPassive: nat,
                           walkLength: nat, sampleSize: nat, timeout: nat, shuffleInterval: nat, maxTransmit: nat)

  datatype Link = Link(id: ConnectionId, addresses: Addresses)

  datatype TopicCommand =
    | Dial(addr: Multiaddr)
    | Close(peer: PeerId, id: ConnectionId)
    | Send(peer: PeerId, id: ConnectionId, action: Action)
    | Ban(peer: PeerId)

  /** `sent` holds the commands given to the network object, `emitted` the messages given to listeners. */
  datatype Node = Node(self: AddressablePeer, active: map<PeerId, Link>, passive: map<PeerId, Addresses>,
                       dials: Entries<Ip, ()>, neighbours: Entries<PeerId, ()>, joins: Entries<PeerId, ()>,
                       replies: Entries<PeerId, Peers>, disconnects: Entries<PeerId, ()>, lastShuffle: nat,
                       sent: seq<TopicCommand>, emitted: seq<string>)

  /**
   * The random choices of one event: the k-th pick from a set, the sample of a set, and the coin toss; and the order
   * in which a set of peers is iterated.
   */
  datatype Dice = Dice(pick: (nat, set<PeerId>) -> PeerId, sample: (set<PeerId>, nat) -> set<PeerId>, toss: bool,
                       order: set<PeerId> -> seq<PeerId>)

  ghost predicate Fair(dice: Dice) {
    && (forall k, s :: s != {} ==> dice.pick(k, s) in s)
    && (forall s, n :: dice.sample(s, n) <= s && |dice.sample(s, n)| <= n)
    && (forall s :: Enumerates(dice.order(s), s))
  }

  predicate SameViews(n: Node, t: Node) {
    t.self == n.self && t.active == n.active && t.passive == n.passive
  }

  // ---- Commands ----

  function Say(n: Node, command: TopicCommand): (r: Node)
    ensures SameViews(n, r)
  {
    n.(sent := n.sent + [command])
  }

  function Full(c: Config, n: Node): bool {
    |n.active| >= c.optimal
  }

  /** The peer stays in the active view until its connection is reported closed. */
  function Hangup(c: Config, n: Node, peer: PeerId, id: ConnectionId, now: nat): (r: Node)
    ensures SameViews(n, r) && peer in r.disconnects
  {
    var marked := n.(disconnects := n.disconnects[peer := Stamped((), now)]);
    if Get(n.disconnects, c.timeout, peer, now).Some? then marked else Say(marked, Close(peer, id))
  }

  function DialAddr(c: Config, n: Node, addr: Multiaddr, now: nat): (r: Node)
    ensures SameViews(n, r) && (r.sent == n.sent || r.sent == n.sent + [Dial(addr)])
  {
    if addr.ip.None? then n
    else
      var marked := n.(dials := n.dials[addr.ip.value := Stamped((), now)]);
      if Get(n.dials, c.timeout, addr.ip.value, now).Some? then marked else Say(marked, Dial(addr))
  }

  function DialAll(c: Config, n: Node, addresses: Addresses, now: nat): (r: Node)
    ensures SameViews(n, r)
  {
    if addresses == [] then n
    else DialAddr(c, DialAll(c, n, addresses[..|addresses| - 1], now), addresses[|addresses| - 1], now)
  }

  predicate PendingDial(c: Config, n: Node, peer: AddressablePeer, now: nat) {
    exists i :: 0 <= i < |peer.addresses| && peer.addresses[i].ip.Some?
                && Get(n.dials, c.timeout, peer.addresses[i].ip.value, now).Some?
  }

  function BanPeerFrom(n: Node, peer: PeerId): Node {
    Say(n.(active := n.active - {peer}, passive := n.passive - {peer}), Ban(peer))
  }

  function Copies(order: seq<PeerId>, active: map<PeerId, Link>, action: Action): seq<TopicCommand>
    requires forall i :: 0 <= i < |order| ==> order[i] in active
  {
    seq(|order|, i requires 0 <= i < |order| => Send(order[i], active[order[i]].id, action))
  }

  /** One copy to each active peer but those excepted. */
  function Broadcast(dice: Dice, n: Node, except: set<PeerId>, action: Action): (r: Node)
    requires Fair(dice)
    ensures SameViews(n, r)
  {
    var order := dice.order(n.active.Keys - except);
    assert forall i :: 0 <= i < |order| ==> order[i] in n.active.Keys - except by {
      assert Enumerates(order, n.active.Keys - except);
    }
    n.(sent := n.sent + Copies(order, n.active, action))
  }

  // ---- The views ----

  function AddPassive(c: Config, dice: Dice, k: nat, n: Node, peer: AddressablePeer): (r: Node)
    ensures r.self == n.self && r.active == n.active
  {
    var more := n.passive[peer.id := peer.addresses];
    if peer.id !in n.passive && |more| > c.maxPassive then n.(passive := more - {dice.pick(k, more.Keys)})
    else n.(passive := more)
  }

  function AddActive(n: Node, peer: AddressablePeer, id: ConnectionId): Node {
    if peer.id in n.active || peer.id == n.self.id then n
    else n.(active := n.active[peer.id := Link(id, peer.addresses)], passive := n.passive - {peer.id})
  }

  function MoveToPassive(c: Config, dice: Dice, n: Node, peer: PeerId): Node {
    if peer !in n.active then n
    else AddPassive(c, dice, 0, n.(active := n.active - {peer}), AddressablePeer(peer, n.active[peer].addresses))
  }

  function TryNeighbour(c: Config, n: Node, peer: AddressablePeer, now: nat): (r: Node)
    ensures SameViews(n, r)
  {
    if peer.id in n.active || PendingDial(c, n, peer, now) then n
    else
      var marked := n.(neighbours := n.neighbours[peer.id := Stamped((), now)]);
      if Get(n.neighbours, c.timeout, peer.id, now).Some? then marked else DialAll(c, marked, peer.addresses, now)
  }

  // ---- Connections ----

  function JoinBootstrap(c: Config, n: Node, peer: AddressablePeer, id: ConnectionId, now: nat): (r: Node)
    ensures SameViews(n, r)
  {
    if !Full(c, n) && PendingDial(c, n, peer, now)
       && Get(n.joins, c.timeout, peer.id, now).None?
       && Get(n.neighbours, c.timeout, peer.id, now).None?
       && Get(n.replies, c.timeout, peer.id, now).None?
    then Say(n, Send(peer.id, id, Join(n.self))).(joins := n.joins[peer.id := Stamped((), now)])
    else n
  }

  function MeetNeighbour(c: Config, n: Node, peer: AddressablePeer, id: ConnectionId, now: nat): Node {
    var taken := n.(neighbours := n.neighbours - {peer.id});
    if Get(n.neighbours, c.timeout, peer.id, now).None? then taken
    else AddActive(Say(taken, Send(peer.id, id, Neighbour(n.self, n.active == map[]))), peer, id)
  }

  function ReplyToShuffle(c: Config, n: Node, peer: AddressablePeer, id: ConnectionId, now: nat): (r: Node)
    ensures SameViews(n, r)
  {
    var taken := n.(replies := n.replies - {peer.id});
    match Get(n.replies, c.timeout, peer.id, now)
    case None => taken
    case Some(peers) =>
      var told := Say(taken, Send(peer.id, id, ShuffleReply(peers)));
      if peer.id in n.active then told else Hangup(c, told, peer.id, id, now)
  }

  function OnConnected(c: Config, n: Node, peer: AddressablePeer, id: ConnectionId, now: nat): Node {
    var met := ReplyToShuffle(c, MeetNeighbour(c, JoinBootstrap(c, n, peer, id, now), peer, id, now), peer, id, now);
    met.(dials := met.dials - Ips(peer.addresses))
  }

  function OnDisconnected(c: Config, dice: Dice, n: Node, peer: PeerId): Node {
    var moved := MoveToPassive(c, dice, n, peer);
    moved.(replies := moved.replies - {peer}, disconnects := moved.disconnects - {peer})
  }

  // ---- The tick ----

  function PruneAll(c: Config, n: Node, now: nat): (r: Node)
    ensures SameViews(n, r)
  {
    n.(dials := Pruned(n.dials, c.timeout, now), disconnects := Pruned(n.disconnects, c.timeout, now),
       joins := Pruned(n.joins, c.timeout, now), neighbours := Pruned(n.neighbours, c.timeout, now),
       replies := Pruned(n.replies, c.timeout, now))
  }

  function KnownAddresses(n: Node, p: PeerId): Addresses
    requires p in n.active || p in n.passive
  {
    if p in n.active then n.active[p].addresses else n.passive[p]
  }

  function InitiateShuffle(c: Config, dice: Dice, n: Node, now: nat): (r: Node)
    requires Fair(dice)
    ensures SameViews(n, r)
  {
    var m := n.(lastShuffle := now);
    if !dice.toss || n.active == map[] then m
    else
      var sample := dice.sample(n.active.Keys + n.passive.Keys, c.sampleSize);
      var to := dice.pick(0, n.active.Keys);
      Say(m, Send(to, n.active[to].id, Shuffle(1, n.self, map p | p in sample :: KnownAddresses(n, p))))
  }

  function Stabilize(c: Config, dice: Dice, n: Node, now: nat): (r: Node)
    requires Fair(dice)
    ensures SameViews(n, r)
  {
    if |n.active| < c.starved && n.dials == map[] && n.neighbours == map[] then
      if n.passive != map[] then
        var p := dice.pick(1, n.passive.Keys);
        TryNeighbour(c, n, AddressablePeer(p, n.passive[p]), now)
      else if n.joins == map[] then DialAll(c, n, c.bootstrap, now)
      else n
    else if |n.active| > c.optimal && n.disconnects == map[] then
      var p := dice.pick(1, n.active.Keys);
      Hangup(c, n, p, n.active[p].id, now)
    else n
  }

  function OnTick(c: Config, dice: Dice, n: Node, now: nat): (r: Node)
    requires Fair(dice)
    ensures SameViews(n, r)
  {
    var pruned := PruneAll(c, n, now);
    var shuffled := if Elapsed(n.lastShuffle, now) > c.shuffleInterval then InitiateShuffle(c, dice, pruned, now)
        else pruned;
    if !Full(c, shuffled) && shuffled.dials == map[] && shuffled.neighbours == map[]
        then Stabilize(c, dice, shuffled, now)
    else shuffled
  }

  // ---- Messages ----

  function OnJoin(c: Config, dice: Dice, n: Node, sender: PeerId, node: AddressablePeer, id: ConnectionId,
                  now: nat): Node
    requires Fair(dice)
  {
    if sender != node.id then BanPeerFrom(n, sender)
    else if sender in n.active then n
    else
      var closed := Hangup(c, Broadcast(dice, n, {}, ForwardJoin(1, node)), sender, id, now);
      var tried := if Full(c, closed) then closed else TryNeighbour(c, closed, node, now);
      AddPassive(c, dice, 0, tried, node)
  }

  /** The last hop makes room for the joining node: it hangs up on a random peer and remembers it as passive. */
  function MakeRoom(c: Config, dice: Dice, n: Node, now: nat): (r: Node)
    requires Fair(dice) && n.active != map[]
    ensures r.self == n.self && r.active == n.active
  {
    var p := dice.pick(1, n.active.Keys);
    AddPassive(c, dice, 2, Hangup(c, n, p, n.active[p].id, now), AddressablePeer(p, n.active[p].addresses))
  }

  function OnForwardJoin(c: Config, dice: Dice, n: Node, sender: PeerId, hop: nat, node: AddressablePeer,
                         now: nat): (r: Node)
    requires Fair(dice)
    ensures r.self == n.self && r.active == n.active
  {
    if sender !in n.active || sender == node.id || node.id == n.self.id then n
    else
      var known := AddPassive(c, dice, 0, n, node);
      if hop >= c.walkLength then
        if Get(n.neighbours, c.timeout, node.id, now).Some? then known
        else TryNeighbour(c, if Full(c, known) then MakeRoom(c, dice, known, now) else known, node, now)
      else
        var tried := if Full(c, known) then known else TryNeighbour(c, known, node, now);
        Broadcast(dice, tried, {sender}, ForwardJoin(hop + 1, node))
  }

  /** Hanging up does not free a slot: the peer stays in the view. */
  function HangupOne(c: Config, dice: Dice, n: Node, now: nat): (r: Node)
    requires Fair(dice) && n.active != map[]
    ensures SameViews(n, r)
  {
    var p := dice.pick(0, n.active.Keys);
    Hangup(c, n, p, n.active[p].id, now)
  }

  function OnNeighbour(c: Config, dice: Dice, n: Node, sender: PeerId, peer: AddressablePeer, highPriority: bool,
                       id: ConnectionId, now: nat): Node
    requires Fair(dice) && c.optimal > 0
  {
    if sender in n.active then n
    else if sender != peer.id then BanPeerFrom(n, sender)
    else
      var freed := if Full(c, n) && highPriority then HangupOne(c, dice, n, now) else n;
      if Full(c, freed) then Hangup(c, freed, sender, id, now) else AddActive(freed, peer, id)
  }

  /** Peers with their addresses, as known from either view or from the message. */
  function Addressed(keep: set<PeerId>, passive: map<PeerId, Addresses>, active: map<PeerId, Link>, peers: Peers): Peers
    requires keep <= passive.Keys + active.Keys + peers.Keys
  {
    map p | p in keep :: if p in passive then passive[p] else if p in active then active[p].addresses else peers[p]
  }

  function Received(c: Config, dice: Dice, peers: Peers): set<PeerId> {
    dice.sample(peers.Keys, c.sampleSize)
  }

  function Local(n: Node): set<PeerId> {
    n.active.Keys + n.passive.Keys
  }

  /** What the originator of a shuffle did not mention. */
  function Reply(c: Config, dice: Dice, n: Node, peers: Peers): Peers {
    Addressed(Local(n) - Received(c, dice, peers), n.passive, n.active, peers)
  }

  function Reshuffled(c: Config, dice: Dice, n: Node, peers: Peers): map<PeerId, Addresses>
    requires Fair(dice)
  {
    Addressed(dice.sample(Local(n) + Received(c, dice, peers), c.maxPassive), n.passive, n.active, peers)
  }

  /** On the open link to an active originator, otherwise over a connection that is dialed for it. */
  function Answer(c: Config, n: Node, origin: AddressablePeer, reply: Peers, now: nat): (r: Node)
    ensures SameViews(n, r)
  {
    if origin.id in n.active then Say(n, Send(origin.id, n.active[origin.id].id, ShuffleReply(reply)))
    else DialAll(c, n.(replies := n.replies[origin.id := Stamped(reply, now)]), origin.addresses, now)
  }

  function OnShuffle(c: Config, dice: Dice, n: Node, sender: PeerId, hop: nat, origin: AddressablePeer, peers: Peers,
                     now: nat): (r: Node)
    requires Fair(dice)
    ensures r.self == n.self && r.active == n.active
  {
    if sender !in n.active then n
    else
      var reply := Reply(c, dice, n, peers);
      var mixed := n.(passive := Reshuffled(c, dice, n, peers));
      var answered := Answer(c, mixed, origin, reply, now);
      if hop < c.walkLength then Broadcast(dice, answered, {sender}, Shuffle(hop + 1, origin, peers)) else answered
  }

  /**
   * What is kept after a reply: the difference is taken the wrong way round, so it is a sample of the passive view
   * alone.
   */
  function Kept(c: Config, dice: Dice, n: Node, peers: Peers): map<PeerId, Addresses>
    requires Fair(dice)
  {
    var unheard := n.passive.Keys - peers.Keys;
    map p | p in dice.sample(n.passive.Keys + unheard, c.maxPassive) :: n.passive[p]
  }

  function OnShuffleReply(c: Config, dice: Dice, n: Node, sender: PeerId, peers: Peers, id: ConnectionId,
                          now: nat): (r: Node)
    requires Fair(dice)
    ensures r.self == n.self && r.active == n.active
  {
    var mixed := n.(passive := Kept(c, dice, n, peers));
    if sender in n.active then mixed else Hangup(c, mixed, sender, id, now)
  }

  function OnGossip(c: Config, dice: Dice, n: Node, sender: PeerId, data: string, id: ConnectionId, now: nat): (r: Node)
    requires Fair(dice)
    ensures SameViews(n, r)
  {
    if sender !in n.active then Hangup(c, n, sender, id, now)
    else
      var forwarded := Broadcast(dice, n, {sender}, Gossip(data));
      forwarded.(emitted := n.emitted + [data])
  }

  function OnMessage(c: Config, dice: Dice, n: Node, sender: PeerId, action: Action, id: ConnectionId, now: nat): Node
    requires Fair(dice) && c.optimal > 0
  {
    match action
    case Join(node) => OnJoin(c, dice, n, sender, node, id, now)
    case ForwardJoin(hop, node) => OnForwardJoin(c, dice, n, sender, hop, node, now)
    case Neighbour(peer, highPriority) => OnNeighbour(c, dice, n, sender, peer, highPriority, id, now)
    case Shuffle(hop, origin, peers) => OnShuffle(c, dice, n, sender, hop, origin, peers, now)
    case ShuffleReply(peers) => OnShuffleReply(c, dice, n, sender, peers, id, now)
    case Gossip(data) => OnGossip(c, dice, n, sender, data, id, now)
  }

  function OnEvent(c: Config, dice: Dice, n: Node, event: TopicEvent, now: nat): Node
    requires Fair(dice) && c.optimal > 0
  {
    match event
    case MessageReceived(from, msg, id) => OnMessage(c, dice, n, from, msg.action, id, now)
    case LocalAddressDiscovered(addr) =>
      n.(self := AddressablePeer(n.self.id, if addr in n.self.addresses then n.self.addresses
                                 else n.self.addresses + [addr]))
    case PeerConnected(peer, id) => OnConnected(c, n, peer, id, now)
    case PeerDisconnected(from, _) => OnDisconnected(c, dice, n, from)
    case Tick => OnTick(c, dice, n, now)
  }

  datatype GossipError = MessageTooLarge | NoConnectedPeers

  function Publish(c: Config, dice: Dice, n: Node, data: string): Result<Node, GossipError>
    requires Fair(dice)
  {
    if |data| > c.maxTransmit then Err(MessageTooLarge)
    else if n.active == map[] then Err(NoConnectedPeers)
    else Ok(Broadcast(dice, n, {}, Gossip(data)))
  }
}
