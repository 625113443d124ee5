/** Which addresses the network object dials, and what it keeps of connections and dials, event by event. */
module Dialing {
  import opened Cache
  import opened Connections
  import opened Muxer
  import opened Network
  import opened Wire
  import opened Wrappers

  // ---- Connections that wait ----

  /** An inbound connection waits under its peer, whose first addresses are kept; nothing else changes. */
  lemma RegisteredExactly(m: Mux, from: AddressablePeer, id: ConnectionId)
    ensures var t := Register(m, from, id);
            && t == m.(unassigned := t.unassigned)
            && (forall p, c :: Waiting(t.unassigned, c, p) <==>
                (p == from.id && c == id) || Waiting(m.unassigned, c, p))
            && (forall p :: p in t.unassigned <==> p == from.id || p in m.unassigned)
            && forall p :: p in t.unassigned ==>
                 t.unassigned[p].0 == if p in m.unassigned then m.unassigned[p].0 else from
  {
  }

  /**
   * Closing drops an assigned connection; a waiting one it drops only if its peer has none assigned. A peer without
   * connections is forgotten.
   */
  lemma DroppedExactly(m: Mux, peer: PeerId, id: ConnectionId)
    ensures var t := Disconnect(m, peer, id);
            && t == m.(assignments := t.assignments, unassigned := t.unassigned)
            && (forall p, c :: AssignedTo(t.assignments, c, p) <==>
                                 AssignedTo(m.assignments, c, p) && !(p == peer && c == id))
            && (forall p, c :: AssignedTo(t.assignments, c, p) ==> t.assignments[p][c] == m.assignments[p][c])
            && (forall p, c :: Waiting(t.unassigned, c, p) <==>
                                 Waiting(m.unassigned, c, p) && !(p == peer && c == id && peer !in m.assignments))
            && (forall p :: p in t.unassigned ==> p in m.unassigned && t.unassigned[p].0 == m.unassigned[p].0)
  {
    DisconnectMeans(m, peer, id);
    hide AssignedTo, Waiting;
    if peer in m.assignments {
      assert Disconnect(m, peer, id).unassigned == m.unassigned;
    } else {
      NotWaitingAfter(m, peer, id);
    }
  }

  lemma NotWaitingAfter(m: Mux, peer: PeerId, id: ConnectionId)
    requires peer !in m.assignments
    ensures !Waiting(Disconnect(m, peer, id).unassigned, id, peer)
  {
  }

  /**
   * The first message of a waiting connection assigns it to the topic and yields its peer; otherwise nothing happens.
   */
  lemma AssignedExactly(m: Mux, peer: PeerId, id: ConnectionId, topic: TopicName)
    ensures var (t, first) := Assign(m, peer, id, topic);
            if !Waiting(m.unassigned, id, peer) then t == m && first == None
            else && first == Some(m.unassigned[peer].0)
                 && t == m.(assignments := t.assignments, unassigned := t.unassigned)
                 && (forall p, c :: AssignedTo(t.assignments, c, p) <==>
                                      (p == peer && c == id) || AssignedTo(m.assignments, c, p))
                 && (forall p, c :: AssignedTo(t.assignments, c, p) ==>
                       t.assignments[p][c] == if p == peer && c == id then topic else m.assignments[p][c])
                 && (forall p, c :: Waiting(t.unassigned, c, p) <==>
                                      Waiting(m.unassigned, c, p) && !(p == peer && c == id))
                 && (forall p :: p in t.unassigned ==> p in m.unassigned && t.unassigned[p].0 == m.unassigned[p].0)
  {
    if Waiting(m.unassigned, id, peer) {
      AssignMeans(m, peer, id, topic);
      AssignInMeans(m.assignments, peer, id, topic);
      hide AssignedTo, Waiting;
    }
  }

  // ---- Dials ----

  /** The topic waits to dial its address of the host. */
  predicate Requests(m: Mux, ip: Ip, topic: TopicName) {
    ip in m.requested && topic in m.requested[ip]
  }

  /** The requests are as before but for one of this host and topic. */
  ghost predicate OtherRequestsStay(m: Mux, t: Mux, host: Ip, name: TopicName) {
    forall ip, topic :: !(ip == host && topic == name) ==>
      && (Requests(t, ip, topic) <==> Requests(m, ip, topic))
      && (Requests(t, ip, topic) ==> t.requested[ip][topic] == m.requested[ip][topic])
  }

  /** A dial is told to the run loop, recorded, and no longer requested. */
  ghost predicate DialTold(n: Net, t: Net, addr: Multiaddr, ip: Ip, topic: TopicName, now: nat) {
    && t == n.(mux := t.mux, commands := n.commands + [Connect(addr)])
    && t.mux == n.mux.(requested := t.mux.requested, ongoing := n.mux.ongoing[ip := Stamped(topic, now)])
    && !Requests(t.mux, ip, topic) && OtherRequestsStay(n.mux, t.mux, ip, topic)
  }

  /** An address with a host is dialed if its topic requested that and no dial to the host is recent. */
  lemma TriedExactly(cfg: Settings, n: Net, addr: Multiaddr, topic: TopicName, now: nat)
    ensures var t := TryDial(cfg, n, addr, topic, now);
            if addr.ip.Some? && Requests(n.mux, addr.ip.value, topic)
               && !Recent(n.mux.ongoing, cfg.timeout, addr.ip.value, now)
            then DialTold(n, t, addr, addr.ip.value, topic, now) else t == n
  {
    if addr.ip.Some? {
      GetIsRecent(n.mux.ongoing, cfg.timeout, addr.ip.value, now);
      hide Get, Recent;
      if CanDial(n.mux, cfg.timeout, addr, topic, now) {
        StartedExactly(n.mux, cfg.timeout, addr, topic, now);
      }
    }
  }

  lemma StartedExactly(m: Mux, timeout: nat, addr: Multiaddr, topic: TopicName, now: nat)
    requires CanDial(m, timeout, addr, topic, now)
    ensures var t, ip := StartDial(m, timeout, addr, topic, now), addr.ip.value;
            && t == m.(requested := t.requested, ongoing := m.ongoing[ip := Stamped(topic, now)])
            && !Requests(t, ip, topic) && OtherRequestsStay(m, t, ip, topic)
  {
    var t, host := StartDial(m, timeout, addr, topic, now), addr.ip.value;
    var left := m.requested[host] - {topic};
    hide Get;
    forall ip, name | !(ip == host && name == topic)
      ensures Requests(t, ip, name) <==> Requests(m, ip, name)
      ensures Requests(t, ip, name) ==> t.requested[ip][name] == m.requested[ip][name]
    {
      if ip == host {
        assert name in left <==> name in m.requested[host];
      }
    }
  }

  /** A new request of a topic is dialed at once, unless a dial to the host is recent; then it waits. */
  lemma BegunExactly(cfg: Settings, n: Net, addr: Multiaddr, topic: TopicName, now: nat)
    ensures var t := BeginConnect(cfg, n, addr, topic, now);
            if addr.ip.None? then t == n
            else var ip := addr.ip.value;
                 if !Recent(n.mux.ongoing, cfg.timeout, ip, now) then DialTold(n, t, addr, ip, topic, now)
                 else && t == n.(mux := n.mux.(requested := t.mux.requested))
                      && Requests(t.mux, ip, topic) && t.mux.requested[ip][topic] == addr
                      && OtherRequestsStay(n.mux, t.mux, ip, topic)
  {
    if addr.ip.Some? {
      var m := n.(mux := PutDial(n.mux, addr, topic));
      TriedExactly(cfg, m, addr, topic, now);
      hide Recent, TryDial;
    }
  }

  /** A tick tells every topic, forgets old dials and arrivals, and dials one request, if its host is free by then. */
  lemma TickedExactly(cfg: Settings, n: Net, order: seq<TopicName>, dial: Option<(TopicName, Multiaddr)>, now: nat)
    returns (m: Net)
    requires Pending(n.mux, dial)
    ensures var t := TickAll(cfg, n, order, dial, now);
            && m == n.(log := m.log, mux := n.mux.(ongoing := m.mux.ongoing), history := m.history)
            && m.log == n.log + ToAll(order, Tick) && Outlives(n.mux.ongoing, m.mux.ongoing, cfg.timeout, now)
            && (m.history.Some? <==> n.history.Some?)
            && (n.history.Some? ==> Outlives(n.history.value, m.history.value, cfg.dedupe, now))
            && (n.mux.requested != map[] ==> dial.Some?)
            && match dial
               case Some((topic, addr)) =>
                 if addr.ip.Some? && Requests(m.mux, addr.ip.value, topic)
                    && !Recent(m.mux.ongoing, cfg.timeout, addr.ip.value, now)
                 then DialTold(m, t, addr, addr.ip.value, topic, now) else t == m
               case None => t == m
  {
    m := TickAll(cfg, n, order, None, now);
    PrunedOutlives(n.mux.ongoing, cfg.timeout, now);
    if n.history.Some? {
      PrunedOutlives(n.history.value, cfg.dedupe, now);
    }
    if dial.Some? {
      TriedExactly(cfg, m, dial.value.1, dial.value.0, now);
    }
    hide Outlives, Recent, TryDial, DialTold, Pruned;
  }

  /** The i-th address is one that the topic waits to dial and whose host is free. */
  predicate Free(cfg: Settings, n: Net, addresses: Addresses, i: nat, topic: TopicName, now: nat)
    requires i < |addresses|
  {
    && addresses[i].ip.Some? && Requests(n.mux, addresses[i].ip.value, topic)
    && !Recent(n.mux.ongoing, cfg.timeout, addresses[i].ip.value, now)
  }

  /** Of several addresses the first free one is dialed. */
  lemma {:induction false} NextExactly(cfg: Settings, n: Net, addresses: Addresses, topic: TopicName, now: nat)
    returns (i: nat)
    ensures var t := DialNextOf(cfg, n, addresses, topic, now);
            && i <= |addresses| && (forall j :: 0 <= j < i ==> !Free(cfg, n, addresses, j, topic, now))
            && if i == |addresses| then t == n
               else && Free(cfg, n, addresses, i, topic, now)
                    && DialTold(n, t, addresses[i], addresses[i].ip.value, topic, now)
  {
    i := 0;
    if addresses != [] {
      if addresses[0].ip.Some? {
        GetIsRecent(n.mux.ongoing, cfg.timeout, addresses[0].ip.value, now);
      }
      TriedExactly(cfg, n, addresses[0], topic, now);
      hide Recent, Get, DialTold, TryDial;
      if !CanDial(n.mux, cfg.timeout, addresses[0], topic, now) {
        i := NextExactly(cfg, n, addresses[1..], topic, now);
        i := i + 1;
        forall j | 0 <= j < i ensures !Free(cfg, n, addresses, j, topic, now) {
          if j > 0 {
            assert addresses[1..][j - 1] == addresses[j];
            assert !Free(cfg, n, addresses[1..], j - 1, topic, now);
          }
        }
      }
    }
  }

  /** The first address whose host is being dialed decides: the connection belongs to the topic of that dial. */
  ghost predicate FirstDialed(cfg: Settings, n: Net, addresses: Addresses, k: nat, now: nat) {
    && k < |addresses| && addresses[k].ip.Some? && Recent(n.mux.ongoing, cfg.timeout, addresses[k].ip.value, now)
    && forall j :: 0 <= j < k && addresses[j].ip.Some? ==>
         !Recent(n.mux.ongoing, cfg.timeout, addresses[j].ip.value, now)
  }

  /** The connection is assigned, and the dials to its hosts up to the one it answers are over. */
  ghost predicate Matched(n: Net, m: Net, peer: AddressablePeer, id: ConnectionId, k: nat, topic: TopicName) {
    && m == n.(mux := n.mux.(ongoing := m.mux.ongoing, assignments := m.mux.assignments))
    && (forall ip :: ip in m.mux.ongoing <==>
          ip in n.mux.ongoing
          && forall j :: 0 <= j <= k && j < |peer.addresses| ==> peer.addresses[j].ip != Some(ip))
    && (forall ip :: ip in m.mux.ongoing ==> m.mux.ongoing[ip] == n.mux.ongoing[ip])
    && (forall p, c :: AssignedTo(m.mux.assignments, c, p) <==>
                         (p == peer.id && c == id) || AssignedTo(n.mux.assignments, c, p))
    && (forall p, c :: AssignedTo(m.mux.assignments, c, p) ==>
          m.mux.assignments[p][c] == if p == peer.id && c == id then topic else n.mux.assignments[p][c])
  }

  lemma MatchedExactly(cfg: Settings, n: Net, peer: AddressablePeer, id: ConnectionId, now: nat) returns (k: nat)
    requires exists i :: 0 <= i < |peer.addresses| && Muxer.Dialed(n.mux, cfg.timeout, peer.addresses[i], now)
    ensures FirstDialed(cfg, n, peer.addresses, k, now)
    ensures var (mux, matched), topic := MatchDial(n.mux, cfg.timeout, peer, id, now),
                n.mux.ongoing[peer.addresses[k].ip.value].value;
            matched == Some(topic) && Matched(n, n.(mux := mux), peer, id, k, topic)
  {
    k := Skipped(n.mux, cfg.timeout, peer.addresses, now);
    forall j | 0 <= j < |peer.addresses| && peer.addresses[j].ip.Some?
      ensures Muxer.Dialed(n.mux, cfg.timeout, peer.addresses[j], now) <==>
              Recent(n.mux.ongoing, cfg.timeout, peer.addresses[j].ip.value, now)
    {
      GetIsRecent(n.mux.ongoing, cfg.timeout, peer.addresses[j].ip.value, now);
    }
    var ip := peer.addresses[k].ip.value;
    GetIsRecent(n.mux.ongoing, cfg.timeout, ip, now);
    AssignInMeans(n.mux.assignments, peer.id, id, n.mux.ongoing[ip].value);
    hide Get, Recent, AssignIn, AssignedTo;
    HostsUpto(peer.addresses, k);
  }

  lemma HostsUpto(addresses: Addresses, k: nat)
    requires k < |addresses|
    ensures forall ip :: ip in Ips(addresses[..k + 1]) <==>
                           !(forall j :: 0 <= j <= k && j < |addresses| ==> addresses[j].ip != Some(ip))
  {
    forall ip ensures ip in Ips(addresses[..k + 1]) <==>
                        !(forall j :: 0 <= j <= k && j < |addresses| ==> addresses[j].ip != Some(ip)) {
      if j :| 0 <= j <= k && j < |addresses| && addresses[j].ip == Some(ip) {
        assert addresses[..k + 1][j].ip == Some(ip);
      }
    }
  }

  /**
   * A dialed connection ends the dial it answers, belongs to its topic, which is told, and lets the topic dial the
   * first of the peer's addresses that it still waits for and whose host is free.
   */
  lemma AnsweredExactly(cfg: Settings, n: Net, links: Links, peer: AddressablePeer, id: ConnectionId, now: nat)
    returns (k: nat, m: Net, i: nat, next: Net)
    requires Inv(n, links) && WellFormed(cfg, n, links, Established(peer, id, true, now))
    ensures FirstDialed(cfg, n, peer.addresses, k, now)
    ensures var topic := n.mux.ongoing[peer.addresses[k].ip.value].value;
            && Matched(n, m, peer, id, k, topic) && i <= |peer.addresses|
            && (forall j :: 0 <= j < i ==> !Free(cfg, m, peer.addresses, j, topic, now))
            && (if i == |peer.addresses| then next == m
                else && Free(cfg, m, peer.addresses, i, topic, now)
                     && DialTold(m, next, peer.addresses[i], peer.addresses[i].ip.value, topic, now))
            && CompleteConnect(cfg, n, peer, id, true, now) ==
               Some(next.(log := n.log + [Delivery(topic, PeerConnected(peer, id))]))
  {
    k := MatchedExactly(cfg, n, peer, id, now);
    MatchedIsKnown(cfg, n, peer, id, now);
    hide Inv, FirstDialed, Matched, MatchDial, DialNextOf, Free, DialTold, WellFormed;
    var (mux, matched) := MatchDial(n.mux, cfg.timeout, peer, id, now);
    m := n.(mux := mux);
    i := NextExactly(cfg, m, peer.addresses, matched.value, now);
    next := DialNextOf(cfg, m, peer.addresses, matched.value, now);
  }

  // ---- Requests over a run ----

  /** Every requested address stands at its own host. */
  ghost predicate Queued(m: Mux) {
    forall ip: Ip :: ip in m.requested ==>
      m.requested[ip] != map[] && forall topic :: topic in m.requested[ip] ==> m.requested[ip][topic].ip == Some(ip)
  }

  lemma TryKeepsQueued(cfg: Settings, n: Net, addr: Multiaddr, topic: TopicName, now: nat)
    requires Queued(n.mux)
    ensures Queued(TryDial(cfg, n, addr, topic, now).mux)
  {
  }

  lemma {:induction false} NextKeepsQueued(cfg: Settings, n: Net, addresses: Addresses, topic: TopicName, now: nat)
    requires Queued(n.mux)
    ensures Queued(DialNextOf(cfg, n, addresses, topic, now).mux)
  {
    hide Queued;
    if addresses != [] {
      TryKeepsQueued(cfg, n, addresses[0], topic, now);
      NextKeepsQueued(cfg, n, addresses[1..], topic, now);
    }
  }

  lemma RequestKeepsQueued(m: Mux, addr: Multiaddr, topic: TopicName)
    requires Queued(m)
    ensures Queued(PutDial(m, addr, topic))
  {
    if addr.ip.Some? {
      assert topic in PutDial(m, addr, topic).requested[addr.ip.value];
    }
  }

  lemma StepKeepsQueued(cfg: Settings, n: Net, op: NetOp)
    requires Queued(n.mux) && Step(cfg, n, op).Some?
    ensures Queued(Step(cfg, n, op).value.mux)
  {
    match op
    case Dialing(addr, topic, now) =>
      RequestKeepsQueued(n.mux, addr, topic);
      TryKeepsQueued(cfg, n.(mux := PutDial(n.mux, addr, topic)), addr, topic, now);
    case Established(peer, id, dialer, now) =>
      if dialer {
        var (mux, matched) := MatchDial(n.mux, cfg.timeout, peer, id, now);
        assert mux.requested == n.mux.requested;
        NextKeepsQueued(cfg, n.(mux := mux), peer.addresses, matched.value, now);
      }
    case Ticking(order, dial, now) =>
      if dial.Some? {
        TryKeepsQueued(cfg, TickAll(cfg, n, order, None, now), dial.value.1, dial.value.0, now);
      }
    case _ =>
  }

  lemma {:induction false} RunKeepsQueued(cfg: Settings, dedupes: bool, ops: seq<NetOp>)
    requires RunOf(cfg, dedupes, ops).net.Some?
    ensures Queued(RunOf(cfg, dedupes, ops).net.value.mux)
  {
    if ops != [] {
      RunKeepsQueued(cfg, dedupes, ops[..|ops| - 1]);
      StepKeepsQueued(cfg, RunOf(cfg, dedupes, ops[..|ops| - 1]).net.value, ops[|ops| - 1]);
      hide Queued, Step;
    }
  }

  /** Over every run: a tick dials a request, if there is any, unless a dial to its host is under way. */
  lemma TickDialsRequest(cfg: Settings, dedupes: bool, ops: seq<NetOp>, order: seq<TopicName>,
                         dial: Option<(TopicName, Multiaddr)>, now: nat)
    returns (m: Net)
    requires RunOf(cfg, dedupes, ops).net.Some? && Pending(RunOf(cfg, dedupes, ops).net.value.mux, dial)
    ensures var n := RunOf(cfg, dedupes, ops).net.value;
            && m.mux.requested == n.mux.requested && m.commands == n.commands
            && Outlives(n.mux.ongoing, m.mux.ongoing, cfg.timeout, now)
    ensures var n := RunOf(cfg, dedupes, ops).net.value;
            var t := TickAll(cfg, n, order, dial, now);
            if forall ip, topic :: !Requests(n.mux, ip, topic) then t == m
            else exists ip, topic :: (Requests(n.mux, ip, topic)
                   && if Recent(m.mux.ongoing, cfg.timeout, ip, now) then t == m
                      else DialTold(m, t, n.mux.requested[ip][topic], ip, topic, now))
  {
    RunKeepsQueued(cfg, dedupes, ops);
    var n := RunOf(cfg, dedupes, ops).net.value;
    m := TickedExactly(cfg, n, order, dial, now);
    hide Outlives, Recent, DialTold, TickAll, RunOf;
    match dial
    case None =>
    case Some((topic, addr)) =>
      assert Requests(n.mux, addr.ip.value, topic) && n.mux.requested[addr.ip.value][topic] == addr;
  }
}
