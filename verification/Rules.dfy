/** What one overlay node does on every event, rule by rule: what it sends, whom it dials, and what it remembers. */
module Rules {
  import opened Cache
  import opened Muxer
  import opened Network
  import opened Sequences
  import opened Topic
  import opened Views
  import opened Wire
  import opened Wrappers

  // ---- Dialing ----

  /** The i-th address has a host, and no earlier one has the same. */
  predicate FirstOfHost(addresses: Addresses, i: nat) {
    i < |addresses| && addresses[i].ip.Some? && forall j :: 0 <= j < i ==> addresses[j].ip != addresses[i].ip
  }

  /** The address is dialed: it is the first of its host, which was not dialed recently. */
  predicate Dialable(dials: Entries<Ip, ()>, timeout: nat, addresses: Addresses, now: nat, a: Multiaddr) {
    exists i :: 0 <= i < |addresses| && addresses[i] == a && FirstOfHost(addresses, i)
                && !Recent(dials, timeout, a.ip.value, now)
  }

  predicate HasHost(addresses: Addresses, ip: Ip) {
    exists i :: 0 <= i < |addresses| && addresses[i].ip == Some(ip)
  }

  /** Every host of the addresses is noted as dialed now, whether it is dialed again or not. */
  ghost predicate Noted(before: Entries<Ip, ()>, after: Entries<Ip, ()>, addresses: Addresses, now: nat) {
    && (forall ip :: ip in after <==> ip in before || HasHost(addresses, ip))
    && (forall ip :: ip in after ==> after[ip] == if HasHost(addresses, ip) then Stamped((), now) else before[ip])
  }

  /** The commands between the two states are dials of exactly these addresses. */
  ghost predicate Dialed(c: Config, n: Node, t: Node, addresses: Addresses, now: nat) {
    && n.sent <= t.sent && (forall i :: |n.sent| <= i < |t.sent| ==> t.sent[i].Dial?)
    && (forall a :: Dial(a) in Since(n, t) <==> Dialable(n.dials, c.timeout, addresses, now, a))
    && Noted(n.dials, t.dials, addresses, now)
  }

  lemma DialOne(c: Config, n: Node, addr: Multiaddr, now: nat)
    ensures var t := DialAddr(c, n, addr, now);
            && t == n.(dials := t.dials, sent := t.sent)
            && t.dials == (if addr.ip.Some? then n.dials[addr.ip.value := Stamped((), now)] else n.dials)
            && t.sent == n.sent + (if addr.ip.Some? && !Recent(n.dials, c.timeout, addr.ip.value, now)
                                   then [Dial(addr)] else [])
  {
    if addr.ip.Some? {
      GetIsRecent(n.dials, c.timeout, addr.ip.value, now);
      hide Get;
    }
  }

  lemma HostsSnoc(addresses: Addresses, ip: Ip)
    requires addresses != []
    ensures var front, last := addresses[..|addresses| - 1], addresses[|addresses| - 1];
            HasHost(addresses, ip) <==> HasHost(front, ip) || last.ip == Some(ip)
  {
    var front, last := addresses[..|addresses| - 1], addresses[|addresses| - 1];
    if i :| 0 <= i < |addresses| && addresses[i].ip == Some(ip) {
      assert i < |front| ==> front[i].ip == Some(ip);
    }
    if i :| 0 <= i < |front| && front[i].ip == Some(ip) {
      assert addresses[i].ip == Some(ip);
    }
    if last.ip == Some(ip) {
      assert addresses[|addresses| - 1].ip == Some(ip);
    }
  }

  lemma DialableSnoc(dials: Entries<Ip, ()>, timeout: nat, addresses: Addresses, now: nat, a: Multiaddr)
    requires addresses != []
    ensures var front, last := addresses[..|addresses| - 1], addresses[|addresses| - 1];
            Dialable(dials, timeout, addresses, now, a) <==>
            || Dialable(dials, timeout, front, now, a)
            || (&& a == last && last.ip.Some? && !HasHost(front, last.ip.value)
                && !Recent(dials, timeout, last.ip.value, now))
  {
    hide Recent;
    var front, last := addresses[..|addresses| - 1], addresses[|addresses| - 1];
    if i :| 0 <= i < |addresses| && addresses[i] == a && FirstOfHost(addresses, i)
            && !Recent(dials, timeout, a.ip.value, now) {
      if i < |front| {
        assert front[i] == a && FirstOfHost(front, i);
      }
    }
    if i :| 0 <= i < |front| && front[i] == a && FirstOfHost(front, i) && !Recent(dials, timeout, a.ip.value, now) {
      assert addresses[i] == a && FirstOfHost(addresses, i);
    }
    if a == last && last.ip.Some? && !HasHost(front, last.ip.value) {
      assert forall j :: 0 <= j < |front| ==> front[j].ip != last.ip;
      assert FirstOfHost(addresses, |addresses| - 1);
    }
  }

  /** Dialing a list of addresses dials each host once, unless it was dialed recently, and notes all hosts. */
  lemma {:induction false} DialAllExactly(c: Config, n: Node, addresses: Addresses, now: nat)
    ensures var t := DialAll(c, n, addresses, now);
            t == n.(dials := t.dials, sent := t.sent) && Dialed(c, n, t, addresses, now)
  {
    if addresses == [] {
      assert Since(n, n) == [];
    } else {
      var front, last := addresses[..|addresses| - 1], addresses[|addresses| - 1];
      DialAllExactly(c, n, front, now);
      var m := DialAll(c, n, front, now);
      DialOne(c, m, last, now);
      DialedSnoc(c, n, m, DialAddr(c, m, last, now), addresses, now);
    }
  }

  lemma DialedSnoc(c: Config, n: Node, m: Node, t: Node, addresses: Addresses, now: nat)
    requires addresses != [] && Dialed(c, n, m, addresses[..|addresses| - 1], now)
    requires var last := addresses[|addresses| - 1];
             && t.dials == (if last.ip.Some? then m.dials[last.ip.value := Stamped((), now)] else m.dials)
             && t.sent == m.sent + (if last.ip.Some? && !Recent(m.dials, c.timeout, last.ip.value, now)
                                    then [Dial(last)] else [])
    ensures Dialed(c, n, t, addresses, now)
  {
    var front, last := addresses[..|addresses| - 1], addresses[|addresses| - 1];
    assert Since(n, t) == Since(n, m) + t.sent[|m.sent|..];
    forall ip: Ip ensures HasHost(addresses, ip) <==> HasHost(front, ip) || last.ip == Some(ip) {
      HostsSnoc(addresses, ip);
    }
    forall a ensures Dial(a) in Since(n, t) <==> Dialable(n.dials, c.timeout, addresses, now, a) {
      DialableSnoc(n.dials, c.timeout, addresses, now, a);
    }
    hide HasHost, Dialable;
  }

  /** A dial to one of the peer's hosts is under way. */
  predicate UnderWay(dials: Entries<Ip, ()>, timeout: nat, addresses: Addresses, now: nat) {
    exists i :: 0 <= i < |addresses| && addresses[i].ip.Some? && Recent(dials, timeout, addresses[i].ip.value, now)
  }

  lemma UnderWayIs(c: Config, n: Node, peer: AddressablePeer, now: nat)
    ensures PendingDial(c, n, peer, now) <==> UnderWay(n.dials, c.timeout, peer.addresses, now)
  {
    hide Get;
    forall i | 0 <= i < |peer.addresses| && peer.addresses[i].ip.Some?
      ensures Get(n.dials, c.timeout, peer.addresses[i].ip.value, now).Some? <==>
              Recent(n.dials, c.timeout, peer.addresses[i].ip.value, now)
    {
      GetIsRecent(n.dials, c.timeout, peer.addresses[i].ip.value, now);
    }
    hide Recent;
  }

  /** The peer is tried as a neighbour, unless it is one or is being dialed. */
  predicate CanBeTried(c: Config, n: Node, peer: AddressablePeer, now: nat) {
    peer.id !in n.active && !UnderWay(n.dials, c.timeout, peer.addresses, now)
  }

  /**
   * The peer is noted as a neighbour to be, if it can be tried, and its hosts are dialed, if it was not noted recently;
   * nothing else happens.
   */
  ghost predicate Tried(c: Config, n: Node, t: Node, peer: AddressablePeer, now: nat) {
    && t == n.(neighbours := t.neighbours, dials := t.dials, sent := t.sent)
    && t.neighbours == (if CanBeTried(c, n, peer, now) then n.neighbours[peer.id := Stamped((), now)] else n.neighbours)
    && if CanBeTried(c, n, peer, now) && !Recent(n.neighbours, c.timeout, peer.id, now)
       then Dialed(c, n, t, peer.addresses, now) else t.sent == n.sent && t.dials == n.dials
  }

  lemma TriedExactly(c: Config, n: Node, peer: AddressablePeer, now: nat)
    ensures Tried(c, n, TryNeighbour(c, n, peer, now), peer, now)
  {
    UnderWayIs(c, n, peer, now);
    GetIsRecent(n.neighbours, c.timeout, peer.id, now);
    var marked := n.(neighbours := n.neighbours[peer.id := Stamped((), now)]);
    DialAllExactly(c, marked, peer.addresses, now);
    hide Get, Recent, PendingDial, UnderWay, DialAll, Noted, Dialable;
    assert Dialed(c, n, DialAll(c, marked, peer.addresses, now), peer.addresses, now);
  }

  // ---- Hanging up, remembering ----

  /** The connection is closed, unless that was asked for recently; the attempt is noted; nothing else happens. */
  ghost predicate HungUp(c: Config, n: Node, t: Node, peer: PeerId, id: ConnectionId, now: nat) {
    t == n.(disconnects := n.disconnects[peer := Stamped((), now)],
            sent := n.sent + if Recent(n.disconnects, c.timeout, peer, now) then [] else [Close(peer, id)])
  }

  lemma HungUpExactly(c: Config, n: Node, peer: PeerId, id: ConnectionId, now: nat)
    ensures HungUp(c, n, Hangup(c, n, peer, id, now), peer, id, now)
  {
    GetIsRecent(n.disconnects, c.timeout, peer, now);
    hide Get, Recent;
    assert n.sent + [] == n.sent;
  }

  /**
   * The peer is in the passive view with its addresses, and everybody else who was is, too; only if that is one more
   * than the limit, one of them all is gone.
   */
  ghost predicate Remembered(c: Config, before: map<PeerId, Addresses>, after: map<PeerId, Addresses>,
                             peer: AddressablePeer) {
    var all := before[peer.id := peer.addresses];
    if peer.id in before || |before| < c.maxPassive then after == all
    else exists gone :: gone in all && after == all - {gone}
  }

  lemma RememberedExactly(c: Config, dice: Dice, k: nat, n: Node, peer: AddressablePeer)
    requires Fair(dice)
    ensures var t := AddPassive(c, dice, k, n, peer);
            t == n.(passive := t.passive) && Remembered(c, n.passive, t.passive, peer)
  {
    hide Fair, Remembered;
    var all := n.passive[peer.id := peer.addresses];
    SizeOfUpdate(n.passive, peer.id, peer.addresses);
    assert peer.id in all.Keys;
    PickIsMember(dice, k, all.Keys);
    RememberedIf(c, n.passive, AddPassive(c, dice, k, n, peer).passive, peer, dice.pick(k, all.Keys));
  }

  lemma RememberedIf(c: Config, before: map<PeerId, Addresses>, after: map<PeerId, Addresses>, peer: AddressablePeer,
                     gone: PeerId)
    requires var all := before[peer.id := peer.addresses];
             gone in all && after == if peer.id in before || |before| < c.maxPassive then all else all - {gone}
    ensures Remembered(c, before, after, peer)
  {
  }

  // ---- The tick ----

  /** Addresses that are known: those of an active peer, otherwise those of a passive one. */
  predicate KnownAt(n: Node, p: PeerId, addresses: Addresses) {
    if p in n.active then addresses == n.active[p].addresses else p in n.passive && addresses == n.passive[p]
  }

  /** No more peers than the sample size, all known, with their addresses. */
  ghost predicate SampleOfKnown(c: Config, n: Node, peers: Peers) {
    |peers| <= c.sampleSize && forall p :: p in peers ==> KnownAt(n, p, peers[p])
  }

  /** What a tick sends: a first hop of a shuffle to one active peer, if one is due, tossed for, and can be sent. */
  ghost predicate Shuffled(c: Config, dice: Dice, n: Node, due: bool, commands: seq<TopicCommand>) {
    if due && dice.toss && n.active != map[] then
      exists to, peers :: to in n.active && SampleOfKnown(c, n, peers)
                          && commands == [Send(to, n.active[to].id, Shuffle(1, n.self, peers))]
    else commands == []
  }

  lemma ShuffledExactly(c: Config, dice: Dice, n: Node, now: nat) returns (commands: seq<TopicCommand>)
    requires Fair(dice)
    ensures Shuffled(c, dice, n, true, commands)
    ensures InitiateShuffle(c, dice, n, now) == n.(lastShuffle := now, sent := n.sent + commands)
  {
    if !dice.toss || n.active == map[] {
      commands := [];
      assert n.sent + commands == n.sent;
    } else {
      var all := n.active.Keys + n.passive.Keys;
      SampleIsSmall(dice, all, c.sampleSize);
      PickIsMember(dice, 0, n.active.Keys);
      hide Fair;
      var sample, to := dice.sample(all, c.sampleSize), dice.pick(0, n.active.Keys);
      var peers: Peers := map p | p in sample :: KnownAddresses(n, p);
      assert peers.Keys == sample;
      assert |peers| == |peers.Keys|;
      commands := [Send(to, n.active[to].id, Shuffle(1, n.self, peers))];
    }
  }

  /** Nothing is pending and the view is starving. */
  predicate Starving(c: Config, n: Node) {
    |n.active| < c.starved && |n.active| < c.optimal && n.dials == map[] && n.neighbours == map[]
  }

  /**
   * What a starving node does: it tries a passive peer; if it knows none and awaits no join, it dials the bootstrap.
   */
  ghost predicate SeeksPeers(c: Config, n: Node, t: Node, chosen: PeerId, now: nat) {
    if Starving(c, n) then
      if n.passive != map[] then
        chosen in n.passive && Tried(c, n, t, AddressablePeer(chosen, n.passive[chosen]), now)
      else if n.joins == map[] then
        t == n.(dials := t.dials, sent := t.sent) && Dialed(c, n, t, c.bootstrap, now)
      else t == n
    else t == n
  }

  lemma SeeksExactly(c: Config, dice: Dice, n: Node, now: nat) returns (t: Node, chosen: PeerId)
    requires Fair(dice)
    ensures t == if |n.active| < c.optimal && n.dials == map[] && n.neighbours == map[]
                 then Stabilize(c, dice, n, now) else n
    ensures SeeksPeers(c, n, t, chosen, now)
  {
    chosen := dice.pick(1, n.passive.Keys);
    if n.passive != map[] {
      PickIsMember(dice, 1, n.passive.Keys);
      TriedExactly(c, n, AddressablePeer(chosen, n.passive[chosen]), now);
    }
    DialAllExactly(c, n, c.bootstrap, now);
    hide Fair, Tried, Dialed, TryNeighbour, DialAll, Hangup;
    t := if |n.active| < c.optimal && n.dials == map[] && n.neighbours == map[] then Stabilize(c, dice, n, now) else n;
  }

  /** The node after a tick has dropped all pending entries that are too old; nothing else is different. */
  ghost predicate Forgot(c: Config, n: Node, m: Node, now: nat) {
    && m == n.(dials := m.dials, disconnects := m.disconnects, joins := m.joins, neighbours := m.neighbours,
               replies := m.replies)
    && Outlives(n.dials, m.dials, c.timeout, now) && Outlives(n.disconnects, m.disconnects, c.timeout, now)
    && Outlives(n.joins, m.joins, c.timeout, now) && Outlives(n.neighbours, m.neighbours, c.timeout, now)
    && Outlives(n.replies, m.replies, c.timeout, now)
  }

  lemma ForgotExactly(c: Config, n: Node, now: nat)
    ensures Forgot(c, n, PruneAll(c, n, now), now)
  {
    PrunedOutlives(n.dials, c.timeout, now);
    PrunedOutlives(n.disconnects, c.timeout, now);
    PrunedOutlives(n.joins, c.timeout, now);
    PrunedOutlives(n.neighbours, c.timeout, now);
    PrunedOutlives(n.replies, c.timeout, now);
    hide Outlives, Pruned;
  }

  /**
   * A tick, step by step: it forgets what is pending for too long; shuffles if that is due, which it notes; and, if the
   * view is starving and nothing is pending any more, seeks peers.
   */
  lemma TickExactly(c: Config, dice: Dice, n: Node, now: nat)
    returns (m: Node, shuffle: seq<TopicCommand>, chosen: PeerId)
    requires Fair(dice) && c.optimal > 0
    ensures var t := OnEvent(c, dice, n, Tick, now);
            var due := now > n.lastShuffle && now - n.lastShuffle > c.shuffleInterval;
            && Forgot(c, n, m, now) && Shuffled(c, dice, n, due, shuffle)
            && SeeksPeers(c, m.(lastShuffle := if due then now else n.lastShuffle, sent := n.sent + shuffle), t, chosen,
                          now)
  {
    ForgotExactly(c, n, now);
    m := PruneAll(c, n, now);
    var due := now > n.lastShuffle && now - n.lastShuffle > c.shuffleInterval;
    hide PruneAll, InitiateShuffle, Stabilize, SeeksPeers, Fair, Outlives, SampleOfKnown;
    var middle := m;
    shuffle := [];
    if due {
      shuffle := ShuffledExactly(c, dice, m, now);
      middle := InitiateShuffle(c, dice, m, now);
      SameSample(c, dice, n, m, shuffle);
    }
    assert middle == m.(lastShuffle := if due then now else n.lastShuffle, sent := n.sent + shuffle);
    var t;
    t, chosen := SeeksExactly(c, dice, middle, now);
  }

  lemma SameSample(c: Config, dice: Dice, n: Node, m: Node, commands: seq<TopicCommand>)
    requires SameViews(n, m) && Shuffled(c, dice, m, true, commands)
    ensures Shuffled(c, dice, n, true, commands)
  {
    if dice.toss && n.active != map[] {
      var to, peers :| to in m.active && SampleOfKnown(c, m, peers)
                       && commands == [Send(to, m.active[to].id, Shuffle(1, m.self, peers))];
      assert SampleOfKnown(c, n, peers);
    }
  }

  /** The view is starving and nothing that is pending is young enough to wait for. */
  ghost predicate Idle(c: Config, n: Node, now: nat) {
    && |n.active| < c.starved && |n.active| < c.optimal
    && (forall ip :: !Young(n.dials, c.timeout, ip, now)) && (forall p :: !Young(n.neighbours, c.timeout, p, now))
  }

  predicate FirstIn(addresses: Addresses, a: Multiaddr) {
    exists i :: 0 <= i < |addresses| && addresses[i] == a && FirstOfHost(addresses, i)
  }

  /**
   * Whom a tick dials: an idle node one passive peer, or, knowing none and awaiting no join, the bootstrap addresses.
   */
  ghost predicate TickDials(c: Config, n: Node, now: nat, chosen: PeerId, a: Multiaddr) {
    Idle(c, n, now) &&
    if n.passive != map[] then chosen !in n.active && chosen in n.passive && FirstIn(n.passive[chosen], a)
    else (forall p :: !Young(n.joins, c.timeout, p, now)) && FirstIn(c.bootstrap, a)
  }

  /**
   * A tick dials exactly when the node is idle: every host of one passive peer, which becomes a neighbour to be, or of
   * the bootstrap addresses. And it sends exactly when a shuffle is due: its first hop, by the node itself, to one
   * active peer.
   */
  lemma TickActsExactly(c: Config, dice: Dice, n: Node, now: nat) returns (chosen: PeerId)
    requires Fair(dice) && c.optimal > 0
    ensures var t := OnEvent(c, dice, n, Tick, now);
            var due := now > n.lastShuffle && now - n.lastShuffle > c.shuffleInterval;
            && n.sent <= t.sent && (forall a :: Dial(a) in Since(n, t) <==> TickDials(c, n, now, chosen, a))
            && (Idle(c, n, now) && n.passive != map[] ==>
                  chosen in n.passive && (chosen in n.active || chosen in t.neighbours))
            && exists shuffle: seq<TopicCommand>, dials: seq<TopicCommand> ::
                 Since(n, t) == shuffle + dials && Shuffled(c, dice, n, due, shuffle)
                                        && forall i :: 0 <= i < |dials| ==> dials[i].Dial?
  {
    hide OnEvent, Shuffled, Fair, SeeksPeers, Forgot, Idle, Starving, Young, FirstIn, Since;
    var m, shuffle;
    m, shuffle, chosen := TickExactly(c, dice, n, now);
    var due := now > n.lastShuffle && now - n.lastShuffle > c.shuffleInterval;
    var middle := m.(lastShuffle := if due then now else n.lastShuffle, sent := n.sent + shuffle);
    var t := OnEvent(c, dice, n, Tick, now);
    IdleIsStarving(c, n, m, middle, now);
    SeekingDials(c, middle, t, chosen, now);
    SinceSplits(n, middle, t, shuffle);
    ShuffleIsNoDial(c, dice, n, due, shuffle);
    assert exists dials: seq<TopicCommand> ::
        Since(n, t) == shuffle + dials && forall i :: 0 <= i < |dials| ==> dials[i].Dial? by {
      assert Since(n, t) == shuffle + Since(middle, t);
    }
  }

  lemma SinceSplits(n: Node, m: Node, t: Node, commands: seq<TopicCommand>)
    requires m.sent == n.sent + commands && m.sent <= t.sent
    ensures n.sent <= t.sent && Since(n, t) == commands + Since(m, t)
  {
  }

  lemma ShuffleIsNoDial(c: Config, dice: Dice, n: Node, due: bool, commands: seq<TopicCommand>)
    requires Shuffled(c, dice, n, due, commands)
    ensures forall a :: Dial(a) !in commands
  {
  }

  lemma IdleIsStarving(c: Config, n: Node, m: Node, middle: Node, now: nat)
    requires Forgot(c, n, m, now) && middle == m.(lastShuffle := middle.lastShuffle, sent := middle.sent)
    ensures Idle(c, n, now) <==> Starving(c, middle)
    ensures (forall p :: !Young(n.joins, c.timeout, p, now)) <==> middle.joins == map[]
    ensures middle.active == n.active && middle.passive == n.passive
  {
    EmptyOutlives(n.dials, m.dials, c.timeout, now);
    EmptyOutlives(n.neighbours, m.neighbours, c.timeout, now);
    EmptyOutlives(n.joins, m.joins, c.timeout, now);
    hide Young, Outlives;
  }

  lemma SeekingDials(c: Config, n: Node, t: Node, chosen: PeerId, now: nat)
    requires SeeksPeers(c, n, t, chosen, now)
    ensures n.sent <= t.sent && forall i :: 0 <= i < |Since(n, t)| ==> Since(n, t)[i].Dial?
    ensures forall a :: Dial(a) in Since(n, t) <==>
              Starving(c, n) && if n.passive != map[] then
                                  chosen !in n.active && chosen in n.passive && FirstIn(n.passive[chosen], a)
                                else n.joins == map[] && FirstIn(c.bootstrap, a)
    ensures Starving(c, n) && n.passive != map[] ==>
              chosen in n.passive && (chosen in n.active || chosen in t.neighbours)
  {
    if Starving(c, n) {
      hide Noted;
      forall addresses: Addresses, a: Multiaddr
          ensures Dialable(n.dials, c.timeout, addresses, now, a) <==> FirstIn(addresses, a) {
        hide FirstOfHost;
      }
      hide Dialable, FirstIn;
    }
  }

  // ---- Connections ----

  predicate AsksToJoin(c: Config, n: Node, peer: AddressablePeer, now: nat) {
    && |n.active| < c.optimal && UnderWay(n.dials, c.timeout, peer.addresses, now)
    && !Recent(n.joins, c.timeout, peer.id, now) && !Recent(n.neighbours, c.timeout, peer.id, now)
    && !Recent(n.replies, c.timeout, peer.id, now)
  }

  /** The peer was to become a neighbour, and can. */
  predicate Becomes(c: Config, n: Node, peer: AddressablePeer, now: nat) {
    Recent(n.neighbours, c.timeout, peer.id, now) && peer.id !in n.active && peer.id != n.self.id
  }

  /** A new connection is sent JOIN, NEIGHBOUR and SHUFFLEREPLY, each if it is due, and is closed after a mere reply. */
  function ConnectedCommands(c: Config, n: Node, peer: AddressablePeer, id: ConnectionId, now: nat): seq<TopicCommand> {
    var due := Recent(n.replies, c.timeout, peer.id, now);
    (if AsksToJoin(c, n, peer, now) then [Send(peer.id, id, Join(n.self))] else []) +
    (if Recent(n.neighbours, c.timeout, peer.id, now)
     then [Send(peer.id, id, Neighbour(n.self, n.active == map[]))] else []) +
    (if due then [Send(peer.id, id, ShuffleReply(n.replies[peer.id].value))] else []) +
    (if due && peer.id !in n.active && !Becomes(c, n, peer, now) && !Recent(n.disconnects, c.timeout, peer.id, now)
     then [Close(peer.id, id)] else [])
  }

  lemma ConnectedExactly(c: Config, dice: Dice, n: Node, peer: AddressablePeer, id: ConnectionId, now: nat)
    requires Fair(dice) && c.optimal > 0
    ensures var t := OnEvent(c, dice, n, PeerConnected(peer, id), now);
            && t.sent == n.sent + ConnectedCommands(c, n, peer, id, now)
            && t.joins == (if AsksToJoin(c, n, peer, now) then n.joins[peer.id := Stamped((), now)] else n.joins)
            && t.neighbours == n.neighbours - {peer.id} && t.replies == n.replies - {peer.id}
            && t.dials == n.dials - Ips(peer.addresses)
            && t.disconnects == (if Recent(n.replies, c.timeout, peer.id, now) && peer.id !in n.active
                                    && !Becomes(c, n, peer, now)
                                 then n.disconnects[peer.id := Stamped((), now)] else n.disconnects)
            && t.active == (if Becomes(c, n, peer, now) then n.active[peer.id := Link(id, peer.addresses)]
                            else n.active)
            && t.passive == (if Becomes(c, n, peer, now) then n.passive - {peer.id} else n.passive)
            && t.self == n.self && t.lastShuffle == n.lastShuffle && t.emitted == n.emitted
  {
    JoinStep(c, n, peer, id, now);
    var joined := JoinBootstrap(c, n, peer, id, now);
    MeetStep(c, joined, peer, id, now);
    var met := MeetNeighbour(c, joined, peer, id, now);
    ReplyStep(c, met, peer, id, now);
    hide JoinBootstrap, MeetNeighbour, ReplyToShuffle, Recent, AsksToJoin, Ips;
  }

  lemma JoinStep(c: Config, n: Node, peer: AddressablePeer, id: ConnectionId, now: nat)
    ensures JoinBootstrap(c, n, peer, id, now) ==
            n.(joins := if AsksToJoin(c, n, peer, now) then n.joins[peer.id := Stamped((), now)] else n.joins,
               sent := n.sent + if AsksToJoin(c, n, peer, now) then [Send(peer.id, id, Join(n.self))] else [])
  {
    UnderWayIs(c, n, peer, now);
    GetIsRecent(n.joins, c.timeout, peer.id, now);
    GetIsRecent(n.neighbours, c.timeout, peer.id, now);
    GetIsRecent(n.replies, c.timeout, peer.id, now);
    hide Get, Recent, UnderWay, PendingDial;
    assert n.sent + [] == n.sent;
  }

  lemma MeetStep(c: Config, n: Node, peer: AddressablePeer, id: ConnectionId, now: nat)
    ensures MeetNeighbour(c, n, peer, id, now) ==
            n.(neighbours := n.neighbours - {peer.id},
               active := if Becomes(c, n, peer, now) then n.active[peer.id := Link(id, peer.addresses)] else n.active,
               passive := if Becomes(c, n, peer, now) then n.passive - {peer.id} else n.passive,
               sent := n.sent + if Recent(n.neighbours, c.timeout, peer.id, now)
                                then [Send(peer.id, id, Neighbour(n.self, n.active == map[]))] else [])
  {
    GetIsRecent(n.neighbours, c.timeout, peer.id, now);
    hide Get, Recent;
    assert n.sent + [] == n.sent;
  }

  lemma ReplyStep(c: Config, n: Node, peer: AddressablePeer, id: ConnectionId, now: nat)
    ensures var due := Recent(n.replies, c.timeout, peer.id, now);
            ReplyToShuffle(c, n, peer, id, now) ==
            n.(replies := n.replies - {peer.id},
               disconnects := if due && peer.id !in n.active then n.disconnects[peer.id := Stamped((), now)]
                              else n.disconnects,
               sent := n.sent + (if due then [Send(peer.id, id, ShuffleReply(n.replies[peer.id].value))] else [])
                       + (if due && peer.id !in n.active && !Recent(n.disconnects, c.timeout, peer.id, now)
                          then [Close(peer.id, id)] else []))
  {
    GetIsRecent(n.replies, c.timeout, peer.id, now);
    var due := Recent(n.replies, c.timeout, peer.id, now);
    var taken := n.(replies := n.replies - {peer.id});
    if due {
      var told := Say(taken, Send(peer.id, id, ShuffleReply(n.replies[peer.id].value)));
      HungUpExactly(c, told, peer.id, id, now);
      hide Get, Recent, Hangup;
    }
    hide Get, Recent, Hangup;
  }

  /** A peer that was active is remembered as passive; nothing is pending for it any more; nothing is sent. */
  lemma DisconnectedExactly(c: Config, dice: Dice, n: Node, peer: PeerId, id: ConnectionId, now: nat)
    requires Fair(dice) && c.optimal > 0
    ensures var t := OnEvent(c, dice, n, PeerDisconnected(peer, id), now);
            && t == n.(active := n.active - {peer}, passive := t.passive, replies := n.replies - {peer},
                       disconnects := n.disconnects - {peer})
            && if peer in n.active
               then Remembered(c, n.passive, t.passive, AddressablePeer(peer, n.active[peer].addresses))
               else t.passive == n.passive
  {
    if peer in n.active {
      RememberedExactly(c, dice, 0, n.(active := n.active - {peer}), AddressablePeer(peer, n.active[peer].addresses));
    } else {
      assert n.active - {peer} == n.active;
    }
    hide Fair, AddPassive, Remembered;
  }

  // ---- Messages ----

  /** One copy to each of these active peers. */
  ghost predicate Copied(n: Node, to: set<PeerId>, action: Action, commands: seq<TopicCommand>) {
    && |commands| == |to|
    && forall p :: p in to ==> p in n.active && Send(p, n.active[p].id, action) in commands
  }

  lemma CopiedExactly(dice: Dice, n: Node, except: set<PeerId>, action: Action) returns (commands: seq<TopicCommand>)
    requires Fair(dice)
    ensures Broadcast(dice, n, except, action) == n.(sent := n.sent + commands)
    ensures Copied(n, n.active.Keys - except, action, commands)
  {
    var to := n.active.Keys - except;
    var order := dice.order(to);
    assert Enumerates(order, to);
    hide Fair;
    commands := Copies(order, n.active, action);
    SizeOfOrder(order, to);
    forall p | p in to ensures Send(p, n.active[p].id, action) in commands {
      var k :| 0 <= k < |order| && order[k] == p;
      assert commands[k] == Send(p, n.active[p].id, action);
    }
  }

  lemma {:induction false} SizeOfOrder<T>(order: seq<T>, items: set<T>)
    requires Enumerates(order, items)
    ensures |order| == |items|
  {
    if order == [] {
      assert items == {};
    } else {
      var front, last := order[..|order| - 1], order[|order| - 1];
      forall x ensures x in front <==> x in items - {last} {
        if x in front {
          var k :| 0 <= k < |front| && front[k] == x;
          assert order[k] in items;
        }
        if x in items - {last} {
          var k :| 0 <= k < |order| && order[k] == x;
          assert front[k] == x;
        }
      }
      SizeOfOrder(front, items - {last});
    }
  }

  ghost predicate Banned(n: Node, t: Node, peer: PeerId) {
    t == n.(active := n.active - {peer}, passive := n.passive - {peer}, sent := n.sent + [Ban(peer)])
  }

  /**
   * An honest JOIN of a peer that is not active: every active peer gets a first hop, the connection is closed, the peer
   * is tried as a neighbour if the view is not full, and remembered. Others are banned, or ignored.
   */
  lemma JoinExactly(c: Config, dice: Dice, n: Node, topic: TopicName, sender: PeerId, node: AddressablePeer,
                    id: ConnectionId, now: nat)
    returns (commands: seq<TopicCommand>, closed: Node, tried: Node)
    requires Fair(dice) && c.optimal > 0
    ensures var t := OnEvent(c, dice, n, MessageReceived(sender, Message(topic, Join(node)), id), now);
            if sender != node.id then Banned(n, t, sender)
            else if sender in n.active then t == n
            else && Copied(n, n.active.Keys, ForwardJoin(1, node), commands)
                 && HungUp(c, n.(sent := n.sent + commands), closed, sender, id, now)
                 && (if |n.active| < c.optimal then Tried(c, closed, tried, node, now) else tried == closed)
                 && t == tried.(passive := t.passive) && Remembered(c, n.passive, t.passive, node)
  {
    commands := CopiedExactly(dice, n, {}, ForwardJoin(1, node));
    assert n.active.Keys - {} == n.active.Keys;
    var told := n.(sent := n.sent + commands);
    HungUpExactly(c, told, sender, id, now);
    closed := Hangup(c, told, sender, id, now);
    TriedExactly(c, closed, node, now);
    tried := if Full(c, closed) then closed else TryNeighbour(c, closed, node, now);
    RememberedExactly(c, dice, 0, tried, node);
    hide Fair, Tried, Remembered, Copied, AddPassive, TryNeighbour, Broadcast, Recent, Hangup;
  }

  /**
   * A FORWARDJOIN from an active peer about a third one: the joining node is remembered; before the last hop it is
   * tried as a neighbour if the view is not full, and the join goes on to everybody else; at the last hop, unless it is
   * noted as a neighbour to be, it is tried, and if the view is full some active peer is hung up on and remembered
   * first.
   */
  lemma ForwardJoinExactly(c: Config, dice: Dice, n: Node, topic: TopicName, sender: PeerId, hop: nat,
                           node: AddressablePeer, id: ConnectionId, now: nat)
    returns (commands: seq<TopicCommand>, known: Node, freed: Node, tried: Node, victim: PeerId)
    requires Fair(dice) && c.optimal > 0
    ensures var t := OnEvent(c, dice, n, MessageReceived(sender, Message(topic, ForwardJoin(hop, node)), id), now);
            if sender !in n.active || sender == node.id || node.id == n.self.id then t == n
            else && known == n.(passive := known.passive) && Remembered(c, n.passive, known.passive, node)
                 && if hop < c.walkLength then
                      && (if |n.active| < c.optimal then Tried(c, known, tried, node, now) else tried == known)
                      && Copied(n, n.active.Keys - {sender}, ForwardJoin(hop + 1, node), commands)
                      && t == tried.(sent := tried.sent + commands)
                    else if Recent(n.neighbours, c.timeout, node.id, now) then t == known
                    else if |n.active| < c.optimal then Tried(c, known, t, node, now)
                    else && victim in n.active && HungUp(c, known, freed, victim, n.active[victim].id, now)
                         && tried == freed.(passive := tried.passive)
                         && Remembered(c, freed.passive, tried.passive,
                                       AddressablePeer(victim, n.active[victim].addresses))
                         && Tried(c, tried, t, node, now)
  {
    RememberedExactly(c, dice, 0, n, node);
    known := AddPassive(c, dice, 0, n, node);
    freed, tried, commands, victim := known, known, [], dice.pick(1, n.active.Keys);
    GetIsRecent(n.neighbours, c.timeout, node.id, now);
    TriedExactly(c, known, node, now);
    if sender in n.active && sender != node.id && node.id != n.self.id {
      if hop < c.walkLength {
        tried := if Full(c, known) then known else TryNeighbour(c, known, node, now);
        commands := CopiedExactly(dice, tried, {sender}, ForwardJoin(hop + 1, node));
        hide Fair, Tried, Remembered, AddPassive, TryNeighbour, Broadcast, Recent, Get, Copied;
        CopiedAlike(tried, n, n.active.Keys - {sender}, ForwardJoin(hop + 1, node), commands);
      } else {
        PickIsMember(dice, 1, n.active.Keys);
        HungUpExactly(c, known, victim, n.active[victim].id, now);
        freed := Hangup(c, known, victim, n.active[victim].id, now);
        var peer := AddressablePeer(victim, n.active[victim].addresses);
        RememberedExactly(c, dice, 2, freed, peer);
        tried := AddPassive(c, dice, 2, freed, peer);
        assert tried == MakeRoom(c, dice, known, now);
        TriedExactly(c, tried, node, now);
        hide Fair, Tried, Remembered, AddPassive, TryNeighbour, MakeRoom, Recent, Get, Hangup;
      }
    }
  }

  lemma CopiedAlike(n: Node, m: Node, to: set<PeerId>, action: Action, commands: seq<TopicCommand>)
    requires m.active == n.active && Copied(n, to, action, commands)
    ensures Copied(m, to, action, commands)
  {
  }

  /**
   * A NEIGHBOUR from a peer that is not active: an impersonator is banned; into a view that is not full the sender is
   * admitted; from a full one it is hung up on, and at high priority so is some active peer before it.
   */
  lemma NeighbourExactly(c: Config, dice: Dice, n: Node, topic: TopicName, sender: PeerId, peer: AddressablePeer,
                         highPriority: bool, id: ConnectionId, now: nat)
    returns (freed: Node, victim: PeerId)
    requires Fair(dice) && c.optimal > 0
    ensures var t := OnEvent(c, dice, n, MessageReceived(sender, Message(topic, Neighbour(peer, highPriority)), id),
                             now);
            if sender in n.active then t == n
            else if sender != peer.id then Banned(n, t, sender)
            else if |n.active| < c.optimal then
              if sender == n.self.id then t == n
              else t == n.(active := n.active[sender := Link(id, peer.addresses)], passive := n.passive - {sender})
            else && (if highPriority then victim in n.active && HungUp(c, n, freed, victim, n.active[victim].id, now)
                     else freed == n)
                 && HungUp(c, freed, t, sender, id, now)
  {
    freed, victim := n, dice.pick(0, n.active.Keys);
    if Full(c, n) {
      assert n.active != map[];
      PickIsMember(dice, 0, n.active.Keys);
      if highPriority {
        HungUpExactly(c, n, victim, n.active[victim].id, now);
        freed := HangupOne(c, dice, n, now);
      }
    }
    HungUpExactly(c, freed, sender, id, now);
    hide Fair, Hangup, HangupOne, Recent;
  }

  /** The addresses at which a peer is known, or else was heard of. */
  predicate KnownOrHeard(n: Node, peers: Peers, p: PeerId, addresses: Addresses) {
    if p in n.passive then addresses == n.passive[p]
    else if p in n.active then addresses == n.active[p].addresses
    else p in peers && addresses == peers[p]
  }

  /** The reply to a shuffle: everybody known but those heard of. */
  ghost predicate Answers(n: Node, peers: Peers, heard: set<PeerId>, reply: Peers) {
    && reply.Keys == (n.active.Keys + n.passive.Keys) - heard
    && forall p :: p in reply ==> KnownOrHeard(n, peers, p, reply[p])
  }

  /** The passive view after a shuffle: at most as many as it may hold of those known and those heard of. */
  ghost predicate Mixed(c: Config, n: Node, peers: Peers, heard: set<PeerId>, passive: map<PeerId, Addresses>) {
    && |passive| <= c.maxPassive
    && forall p :: p in passive ==>
         (p in n.active || p in n.passive || p in heard) && KnownOrHeard(n, peers, p, passive[p])
  }

  /** An active originator is answered at once; another one is dialed, and the reply is kept for the connection. */
  ghost predicate Answered(c: Config, n: Node, t: Node, origin: AddressablePeer, reply: Peers, now: nat) {
    if origin.id in n.active then
      t == n.(sent := n.sent + [Send(origin.id, n.active[origin.id].id, ShuffleReply(reply))])
    else
      && t == n.(replies := n.replies[origin.id := Stamped(reply, now)], dials := t.dials, sent := t.sent)
      && Dialed(c, n, t, origin.addresses, now)
  }

  lemma AnsweredExactly(c: Config, n: Node, origin: AddressablePeer, reply: Peers, now: nat)
    ensures Answered(c, n, Answer(c, n, origin, reply, now), origin, reply, now)
  {
    var kept := n.(replies := n.replies[origin.id := Stamped(reply, now)]);
    DialAllExactly(c, kept, origin.addresses, now);
    assert Dialed(c, kept, DialAll(c, kept, origin.addresses, now), origin.addresses, now);
    hide DialAll, Dialable, Noted;
  }

  /**
   * A SHUFFLE from an active peer: of some of the peers it mentions the node takes notice; it answers the originator
   * with everybody else it knows, mixes its passive view, and before the last hop passes the shuffle on to everybody
   * else.
   */
  lemma ShuffleExactly(c: Config, dice: Dice, n: Node, topic: TopicName, sender: PeerId, hop: nat,
                       origin: AddressablePeer, peers: Peers, id: ConnectionId, now: nat)
    returns (heard: set<PeerId>, reply: Peers, mixed: Node, answered: Node, commands: seq<TopicCommand>)
    requires Fair(dice) && c.optimal > 0
    ensures var t := OnEvent(c, dice, n, MessageReceived(sender, Message(topic, Shuffle(hop, origin, peers)), id), now);
            if sender !in n.active then t == n
            else && heard <= peers.Keys && |heard| <= c.sampleSize && Answers(n, peers, heard, reply)
                 && mixed == n.(passive := mixed.passive) && Mixed(c, n, peers, heard, mixed.passive)
                 && Answered(c, mixed, answered, origin, reply, now)
                 && (if hop < c.walkLength then Copied(n, n.active.Keys - {sender}, Shuffle(hop + 1, origin, peers),
                                                       commands)
                     else commands == [])
                 && t == answered.(sent := answered.sent + commands)
  {
    assert OnEvent(c, dice, n, MessageReceived(sender, Message(topic, Shuffle(hop, origin, peers)), id), now) ==
           OnShuffle(c, dice, n, sender, hop, origin, peers, now);
    hide OnEvent;
    heard := Received(c, dice, peers);
    SampleIsSmall(dice, peers.Keys, c.sampleSize);
    reply := Reply(c, dice, n, peers);
    AnswersExactly(c, dice, n, peers);
    MixedExactly(c, dice, n, peers);
    mixed := n.(passive := Reshuffled(c, dice, n, peers));
    AnsweredExactly(c, mixed, origin, reply, now);
    answered := Answer(c, mixed, origin, reply, now);
    commands := [];
    hide Fair, Received, Reply, Reshuffled, Answer, Answered, Broadcast, Mixed, Answers, Copied;
    if hop < c.walkLength {
      commands := CopiedExactly(dice, answered, {sender}, Shuffle(hop + 1, origin, peers));
      CopiedAlike(answered, n, n.active.Keys - {sender}, Shuffle(hop + 1, origin, peers), commands);
    } else {
      assert answered.sent + [] == answered.sent;
    }
  }

  lemma AnswersExactly(c: Config, dice: Dice, n: Node, peers: Peers)
    ensures Answers(n, peers, Received(c, dice, peers), Reply(c, dice, n, peers))
  {
    hide Received;
  }

  lemma MixedExactly(c: Config, dice: Dice, n: Node, peers: Peers)
    requires Fair(dice)
    ensures Mixed(c, n, peers, Received(c, dice, peers), Reshuffled(c, dice, n, peers))
  {
    hide Fair, Addressed, KnownOrHeard, Mixed;
    ReshuffledBounded(c, dice, n, peers);
    var heard, keep := Received(c, dice, peers), dice.sample(Local(n) + Received(c, dice, peers), c.maxPassive);
    SampleIsSmall(dice, Local(n) + heard, c.maxPassive);
    SampleIsSmall(dice, peers.Keys, c.sampleSize);
    AddressedMeans(n, keep, peers);
    MixedIf(c, n, peers, heard, Reshuffled(c, dice, n, peers));
  }

  lemma MixedIf(c: Config, n: Node, peers: Peers, heard: set<PeerId>, passive: map<PeerId, Addresses>)
    requires |passive| <= c.maxPassive && passive.Keys <= n.active.Keys + n.passive.Keys + heard
    requires forall p :: p in passive ==> KnownOrHeard(n, peers, p, passive[p])
    ensures Mixed(c, n, peers, heard, passive)
  {
    hide KnownOrHeard;
  }

  lemma AddressedMeans(n: Node, keep: set<PeerId>, peers: Peers)
    requires keep <= n.passive.Keys + n.active.Keys + peers.Keys
    ensures var m := Addressed(keep, n.passive, n.active, peers);
            m.Keys == keep && forall p :: p in m ==> KnownOrHeard(n, peers, p, m[p])
  {
  }

  /**
   * A SHUFFLEREPLY leaves some of the passive view, with its addresses, and a sender that is not active is hung up on.
   */
  lemma ShuffleReplyExactly(c: Config, dice: Dice, n: Node, topic: TopicName, sender: PeerId, peers: Peers,
                            id: ConnectionId, now: nat)
    returns (mixed: Node)
    requires Fair(dice) && c.optimal > 0
    ensures var t := OnEvent(c, dice, n, MessageReceived(sender, Message(topic, ShuffleReply(peers)), id), now);
            && mixed == n.(passive := mixed.passive) && |mixed.passive| <= c.maxPassive
            && (forall p :: p in mixed.passive ==> p in n.passive && mixed.passive[p] == n.passive[p])
            && if sender in n.active then t == mixed else HungUp(c, mixed, t, sender, id, now)
  {
    KeptBounded(c, dice, n, peers);
    SampleIsSmall(dice, n.passive.Keys + (n.passive.Keys - peers.Keys), c.maxPassive);
    mixed := n.(passive := Kept(c, dice, n, peers));
    HungUpExactly(c, mixed, sender, id, now);
    hide Fair, Hangup, Recent;
  }

  /** GOSSIP from an active peer goes to all others and once to the listeners; another sender is hung up on. */
  lemma GossipExactly(c: Config, dice: Dice, n: Node, topic: TopicName, sender: PeerId, data: string, id: ConnectionId,
                      now: nat)
    returns (commands: seq<TopicCommand>)
    requires Fair(dice) && c.optimal > 0
    ensures var t := OnEvent(c, dice, n, MessageReceived(sender, Message(topic, Gossip(data)), id), now);
            if sender !in n.active then HungUp(c, n, t, sender, id, now)
            else && Copied(n, n.active.Keys - {sender}, Gossip(data), commands)
                 && t == n.(sent := n.sent + commands, emitted := n.emitted + [data])
  {
    HungUpExactly(c, n, sender, id, now);
    commands := CopiedExactly(dice, n, {sender}, Gossip(data));
    hide Fair, Hangup, Broadcast, Copied, Recent;
  }

  /** A message of its own goes to all active peers, unless it is too long or there is nobody. */
  lemma PublishedExactly(c: Config, dice: Dice, n: Node, data: string) returns (commands: seq<TopicCommand>)
    requires Fair(dice)
    ensures var r := Publish(c, dice, n, data);
            if |data| > c.maxTransmit then r == Err(MessageTooLarge)
            else if n.active == map[] then r == Err(NoConnectedPeers)
            else r == Ok(n.(sent := n.sent + commands)) && Copied(n, n.active.Keys, Gossip(data), commands)
  {
    commands := CopiedExactly(dice, n, {}, Gossip(data));
    assert n.active.Keys - {} == n.active.Keys;
    hide Fair, Broadcast, Copied;
  }

  /** A local address that is new is from then on part of what the node says of itself; nothing else changes. */
  lemma AddressExactly(c: Config, dice: Dice, n: Node, addr: Multiaddr, now: nat)
    requires Fair(dice) && c.optimal > 0
    ensures var t := OnEvent(c, dice, n, LocalAddressDiscovered(addr), now);
            && t == n.(self := t.self) && t.self.id == n.self.id
            && t.self.addresses == if addr in n.self.addresses then n.self.addresses else n.self.addresses + [addr]
  {
  }
}
