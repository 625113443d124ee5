/** The connection multiplexer: which connection belongs to which topic, and which dials are under way. */
module Muxer {
  import opened Cache
  import opened Wire
  import opened Wrappers

  type Assigned = map<PeerId, map<ConnectionId, TopicName>>
  type Unassigned = map<PeerId, (AddressablePeer, set<ConnectionId>)>
  type Requested = map<Ip, map<TopicName, Multiaddr>>

  datatype Mux = Mux(assignments: Assigned, unassigned: Unassigned, requested: Requested,
                     ongoing: Entries<Ip, TopicName>)

  // ---- What each operation does ----

  function AssignIn(assignments: Assigned, peer: PeerId, id: ConnectionId, topic: TopicName): Assigned {
    assignments[peer := (if peer in assignments then assignments[peer] else map[])[id := topic]]
  }

  function Register(m: Mux, from: AddressablePeer, id: ConnectionId): Mux {
    m.(unassigned := m.unassigned[from.id :=
      if from.id in m.unassigned then (m.unassigned[from.id].0, m.unassigned[from.id].1 + {id}) else (from, {id})])
  }

  /** Only one of the two maps is looked at: a peer with an assigned connection keeps its unassigned entries. */
  function Disconnect(m: Mux, peer: PeerId, id: ConnectionId): Mux {
    if peer in m.assignments then
      var left := m.assignments[peer] - {id};
      m.(assignments := if left == map[] then m.assignments - {peer} else m.assignments[peer := left])
    else if peer in m.unassigned then
      var left := m.unassigned[peer].1 - {id};
      m.(unassigned := if left == {} then m.unassigned - {peer} else m.unassigned[peer := (m.unassigned[peer].0, left)])
    else m
  }

  function PutDial(m: Mux, addr: Multiaddr, topic: TopicName): Mux {
    match addr.ip
    case None => m
    case Some(ip) =>
      m.(requested := m.requested[ip := (if ip in m.requested then m.requested[ip] else map[])[topic := addr]])
  }

  /** The dial may start: it was requested, and no dial to the same host is under way. */
  predicate CanDial(m: Mux, timeout: nat, addr: Multiaddr, topic: TopicName, now: nat) {
    && addr.ip.Some?
    && Get(m.ongoing, timeout, addr.ip.value, now) == None
    && addr.ip.value in m.requested && topic in m.requested[addr.ip.value]
  }

  function StartDial(m: Mux, timeout: nat, addr: Multiaddr, topic: TopicName, now: nat): Mux {
    if !CanDial(m, timeout, addr, topic, now) then m
    else
      var ip := addr.ip.value;
      var left := m.requested[ip] - {topic};
      m.(requested := if left == map[] then m.requested - {ip} else m.requested[ip := left],
         ongoing := m.ongoing[ip := Stamped(topic, now)])
  }

  predicate Dialed(m: Mux, timeout: nat, addr: Multiaddr, now: nat) {
    addr.ip.Some? && Get(m.ongoing, timeout, addr.ip.value, now).Some?
  }

  /** The number of addresses before the first one that is being dialed. */
  function Skipped(m: Mux, timeout: nat, addresses: Addresses, now: nat): (n: nat)
    ensures n <= |addresses|
    ensures forall i :: 0 <= i < n ==> !Dialed(m, timeout, addresses[i], now)
    ensures n < |addresses| ==> Dialed(m, timeout, addresses[n], now)
  {
    if addresses == [] || Dialed(m, timeout, addresses[0], now) then 0
    else 1 + Skipped(m, timeout, addresses[1..], now)
  }

  function Ips(addresses: Addresses): set<Ip> {
    set i | 0 <= i < |addresses| && addresses[i].ip.Some? :: addresses[i].ip.value
  }

  /** Looking for the dial removes every entry it passes, expired ones too. */
  function MatchDial(m: Mux, timeout: nat, peer: AddressablePeer, id: ConnectionId, now: nat)
      : (Mux, Option<TopicName>) {
    var n := Skipped(m, timeout, peer.addresses, now);
    if n == |peer.addresses| then (m.(ongoing := m.ongoing - Ips(peer.addresses)), None)
    else
      var topic := Get(m.ongoing, timeout, peer.addresses[n].ip.value, now).value;
      (m.(ongoing := m.ongoing - Ips(peer.addresses[..n + 1]),
          assignments := AssignIn(m.assignments, peer.id, id, topic)), Some(topic))
  }

  function Assign(m: Mux, peer: PeerId, id: ConnectionId, topic: TopicName): (Mux, Option<AddressablePeer>) {
    if peer !in m.unassigned || id !in m.unassigned[peer].1 then (m, None)
    else
      var left := m.unassigned[peer].1 - {id};
      (m.(assignments := AssignIn(m.assignments, peer, id, topic),
          unassigned := if left == {} then m.unassigned - {peer}
              else m.unassigned[peer := (m.unassigned[peer].0, left)]),
       Some(m.unassigned[peer].0))
  }

  function Resolve(m: Mux, peer: PeerId, id: ConnectionId): Option<TopicName> {
    if peer in m.assignments && id in m.assignments[peer] then Some(m.assignments[peer][id]) else None
  }

  /** A requested dial, or none if none is requested. */
  predicate Pending(m: Mux, dial: Option<(TopicName, Multiaddr)>) {
    match dial
    case None => m.requested == map[]
    case Some((topic, addr)) =>
      exists ip :: ip in m.requested && topic in m.requested[ip] && m.requested[ip][topic] == addr
  }

  // ---- The multiplexer ----

  class Multiplexer {
    const timeout: nat
    var assignments: Assigned
    var unassigned: Unassigned
    var requested: Requested
    var ongoing: Entries<Ip, TopicName>

    ghost function View(): Mux
      reads this
    {
      Mux(assignments, unassigned, requested, ongoing)
    }

    constructor (timeout: nat)
      ensures this.timeout == timeout && View() == Mux(map[], map[], map[], map[])
    {
      this.timeout := timeout;
      assignments, unassigned, requested, ongoing := map[], map[], map[], map[];
    }

    method RegisterConnection(from: AddressablePeer, id: ConnectionId)
      modifies this
      ensures View() == Register(old(View()), from, id)
    {
      if from.id in unassigned {
        var (peer, conns) := unassigned[from.id];
        unassigned := unassigned[from.id := (peer, conns + {id})];
      } else {
        unassigned := unassigned[from.id := (from, {id})];
      }
    }

    method DropConnection(peer: PeerId, id: ConnectionId)
      modifies this
      ensures View() == Disconnect(old(View()), peer, id)
    {
      if peer in assignments {
        var conns := assignments[peer] - {id};
        assignments := assignments[peer := conns];
        if conns == map[] {
          assignments := assignments - {peer};
        }
        assert conns == map[] ==> assignments == old(assignments) - {peer};
      } else if peer in unassigned {
        var conns := unassigned[peer].1 - {id};
        unassigned := unassigned[peer := (unassigned[peer].0, conns)];
        if conns == {} {
          unassigned := unassigned - {peer};
        }
        assert conns == {} ==> unassigned == old(unassigned) - {peer};
      }
    }

    method RequestDial(addr: Multiaddr, topic: TopicName)
      modifies this
      ensures View() == PutDial(old(View()), addr, topic)
    {
      if addr.ip.Some? {
        var ip := addr.ip.value;
        if ip in requested {
          requested := requested[ip := requested[ip][topic := addr]];
        } else {
          requested := requested[ip := map[topic := addr]];
        }
      }
    }

    /** Some requested dial, if there is one. */
    method PollDial() returns (dial: Option<(TopicName, Multiaddr)>)
      requires forall ip :: ip in requested ==> requested[ip] != map[]
      ensures Pending(View(), dial)
    {
      if requested == map[] {
        return None;
      }
      assert requested.Keys != {};
      var ip :| ip in requested.Keys;
      assert requested[ip].Keys != {};
      var topic :| topic in requested[ip].Keys;
      return Some((topic, requested[ip][topic]));
    }

    method NextDial(addr: Multiaddr, topic: TopicName, now: nat) returns (started: bool)
      modifies this
      ensures started == CanDial(old(View()), timeout, addr, topic, now)
      ensures View() == StartDial(old(View()), timeout, addr, topic, now)
    {
      started := false;
      if addr.ip.Some? {
        var ip := addr.ip.value;
        if Get(ongoing, timeout, ip, now) == None {
          if ip in requested && topic in requested[ip] {
            var left := requested[ip] - {topic};
            requested := if left == map[] then requested - {ip} else requested[ip := left];
            ongoing := ongoing[ip := Stamped(topic, now)];
            started := true;
          }
        }
      }
    }

    method TakeDial(peer: AddressablePeer, id: ConnectionId, now: nat) returns (topic: Option<TopicName>)
      modifies this
      ensures (View(), topic) == MatchDial(old(View()), timeout, peer, id, now)
    {
      ghost var m := View();
      for i := 0 to |peer.addresses|
        invariant i <= Skipped(m, timeout, peer.addresses, now)
        invariant View() == m.(ongoing := m.ongoing - Ips(peer.addresses[..i]))
      {
        var addr := peer.addresses[i];
        IpsSnoc(peer.addresses, i);
        if addr.ip.Some? {
          var ip := addr.ip.value;
          var found := Get(ongoing, timeout, ip, now);
          ongoing := ongoing - {ip};
          assert ongoing == m.ongoing - Ips(peer.addresses[..i + 1]);
          if found.Some? {
            assert Dialed(m, timeout, addr, now);
            assert Skipped(m, timeout, peer.addresses, now) == i;
            assignments := AssignIn(assignments, peer.id, id, found.value);
            return found;
          }
          assert !Dialed(m, timeout, addr, now) by { PassedOver(m, timeout, peer.addresses, i, now); }
        }
      }
      assert peer.addresses[..|peer.addresses|] == peer.addresses;
      return None;
    }

    method AssignConnection(peer: PeerId, id: ConnectionId, topic: TopicName) returns (first: Option<AddressablePeer>)
      modifies this
      ensures (View(), first) == Assign(old(View()), peer, id, topic)
    {
      if peer in unassigned && id in unassigned[peer].1 {
        var (addrpeer, conns) := unassigned[peer];
        assignments := AssignIn(assignments, peer, id, topic);
        var left := conns - {id};
        unassigned := if left == {} then unassigned - {peer} else unassigned[peer := (addrpeer, left)];
        return Some(addrpeer);
      }
      return None;
    }

    method PruneExpired(now: nat)
      modifies this
      ensures View() == old(View()).(ongoing := Pruned(old(ongoing), timeout, now))
    {
      ongoing := map k | k in ongoing && Elapsed(ongoing[k].at, now) < timeout :: ongoing[k];
    }
  }

  lemma IpsSnoc(addresses: Addresses, i: nat)
    requires i < |addresses|
    ensures Ips(addresses[..i + 1]) ==
            if addresses[i].ip.Some? then Ips(addresses[..i]) + {addresses[i].ip.value} else Ips(addresses[..i])
  {
    var front, more := addresses[..i], addresses[..i + 1];
    assert forall k :: 0 <= k < i ==> front[k] == more[k];
    assert more[i] == addresses[i];
    forall ip | ip in Ips(front) ensures ip in Ips(more) {
      var k :| 0 <= k < |front| && front[k].ip.Some? && front[k].ip.value == ip;
      assert more[k].ip.Some? && more[k].ip.value == ip;
    }
  }

  /** A host that was passed over is not dialed again later in the list, so a repeated host makes no difference. */
  lemma PassedOver(m: Mux, timeout: nat, addresses: Addresses, i: nat, now: nat)
    requires i < |addresses| && i <= Skipped(m, timeout, addresses, now)
    requires addresses[i].ip.Some? && Get(m.ongoing - Ips(addresses[..i]), timeout, addresses[i].ip.value, now) == None
    ensures !Dialed(m, timeout, addresses[i], now)
  {
    var ip := addresses[i].ip.value;
    if ip in Ips(addresses[..i]) {
      var k :| 0 <= k < i && addresses[..i][k].ip.Some? && addresses[..i][k].ip.value == ip;
      assert !Dialed(m, timeout, addresses[k], now);
    }
  }

  // ---- Runs ----

  datatype MuxOp =
    | Registering(from: AddressablePeer, id: ConnectionId)
    | Dropping(peer: PeerId, id: ConnectionId)
    | Requesting(addr: Multiaddr, topic: TopicName)
    | Dialing(addr: Multiaddr, topic: TopicName)
    | Matching(from: AddressablePeer, id: ConnectionId)
    | Assigning(peer: PeerId, id: ConnectionId, topic: TopicName)
    | Pruning

  datatype Timed = Timed(op: MuxOp, at: nat)

  function Perform(m: Mux, timeout: nat, step: Timed): Mux {
    match step.op
    case Registering(from, id) => Register(m, from, id)
    case Dropping(peer, id) => Disconnect(m, peer, id)
    case Requesting(addr, topic) => PutDial(m, addr, topic)
    case Dialing(addr, topic) => StartDial(m, timeout, addr, topic, step.at)
    case Matching(from, id) => MatchDial(m, timeout, from, id, step.at).0
    case Assigning(peer, id, topic) => Assign(m, peer, id, topic).0
    case Pruning => m.(ongoing := Pruned(m.ongoing, timeout, step.at))
  }

  function MuxAfter(m: Mux, timeout: nat, run: seq<Timed>, n: nat): Mux
    requires n <= |run|
  {
    if n == 0 then m else Perform(MuxAfter(m, timeout, run, n - 1), timeout, run[n - 1])
  }

  /** Pruning forgets the dials that were begun a timeout ago or longer, and no others. */
  lemma PruningForgets(m: Mux, timeout: nat, run: seq<Timed>, n: nat)
    requires n < |run| && run[n].op.Pruning?
    ensures var before, after := MuxAfter(m, timeout, run, n), MuxAfter(m, timeout, run, n + 1);
            after == before.(ongoing := after.ongoing)
            && Outlives(before.ongoing, after.ongoing, timeout, run[n].at)
  {
    PrunedOutlives(MuxAfter(m, timeout, run, n).ongoing, timeout, run[n].at);
  }

  predicate InOrder(run: seq<Timed>) {
    forall i, j :: 0 <= i < j < |run| ==> run[i].at <= run[j].at
  }

  /** Step i starts a dial to the host. */
  predicate Starts(m: Mux, timeout: nat, run: seq<Timed>, i: nat, ip: Ip)
    requires i < |run|
  {
    run[i].op.Dialing? && run[i].op.addr.ip == Some(ip)
    && CanDial(MuxAfter(m, timeout, run, i), timeout, run[i].op.addr, run[i].op.topic, run[i].at)
  }

  /** The step finds the dial to the host under way and gives its connection to the topic that dialed. */
  predicate Finds(m: Mux, timeout: nat, step: Timed, ip: Ip) {
    step.op.Matching?
    && var n := Skipped(m, timeout, step.op.from.addresses, step.at);
       n < |step.op.from.addresses| && step.op.from.addresses[n].ip == Some(ip)
  }

  predicate Completes(m: Mux, timeout: nat, run: seq<Timed>, i: nat, ip: Ip)
    requires i < |run|
  {
    Finds(MuxAfter(m, timeout, run, i), timeout, run[i], ip)
  }

  ghost predicate CompletedBetween(m: Mux, timeout: nat, run: seq<Timed>, i: nat, j: nat, ip: Ip)
    requires j <= |run|
  {
    exists k: nat :: i < k < j && Completes(m, timeout, run, k, ip)
  }

  ghost predicate StillDialing(m: Mux, timeout: nat, run: seq<Timed>, i: nat, k: nat, ip: Ip)
    requires i < |run| && k <= |run|
  {
    var ongoing := MuxAfter(m, timeout, run, k).ongoing;
    ip in ongoing && ongoing[ip].at >= run[i].at
  }

  lemma StartIsRecorded(m: Mux, timeout: nat, step: Timed)
    requires step.op.Dialing? && CanDial(m, timeout, step.op.addr, step.op.topic, step.at)
    ensures Perform(m, timeout, step).ongoing == m.ongoing[step.op.addr.ip.value := Stamped(step.op.topic, step.at)]
  {
  }

  lemma StepKeepsDial(m: Mux, timeout: nat, step: Timed, ip: Ip)
    requires ip in m.ongoing
    ensures var after := Perform(m, timeout, step).ongoing;
            || (ip in after && (after[ip] == m.ongoing[ip] || after[ip].at == step.at))
            || Finds(m, timeout, step, ip)
            || Elapsed(m.ongoing[ip].at, step.at) >= timeout
  {
    if step.op.Matching? {
      MatchTakes(m, timeout, step.op.from, step.op.id, step.at, ip);
    }
  }

  /** A started dial stays under way until it is completed or has lasted for the timeout. */
  lemma {:induction false} DialLasts(m: Mux, timeout: nat, run: seq<Timed>, i: nat, k: nat, ip: Ip)
    requires InOrder(run) && i < k <= |run| && Starts(m, timeout, run, i, ip)
    ensures || StillDialing(m, timeout, run, i, k, ip)
            || CompletedBetween(m, timeout, run, i, k, ip)
            || run[k - 1].at - run[i].at >= timeout
  {
    hide Perform, Finds, CanDial;
    if k == i + 1 {
      assert MuxAfter(m, timeout, run, k) == Perform(MuxAfter(m, timeout, run, i), timeout, run[i]);
      StartIsRecorded(MuxAfter(m, timeout, run, i), timeout, run[i]);
    } else {
      DialLasts(m, timeout, run, i, k - 1, ip);
      assert run[i].at <= run[k - 2].at <= run[k - 1].at;
      if CompletedBetween(m, timeout, run, i, k - 1, ip) {
        var c: nat :| i < c < k - 1 && Completes(m, timeout, run, c, ip);
        assert Completes(m, timeout, run, c, ip);
      } else if StillDialing(m, timeout, run, i, k - 1, ip) {
        StepKeepsDial(MuxAfter(m, timeout, run, k - 1), timeout, run[k - 1], ip);
        assert Finds(MuxAfter(m, timeout, run, k - 1), timeout, run[k - 1], ip) ==>
            Completes(m, timeout, run, k - 1, ip);
      }
    }
  }

  /** A match takes away the dial it completes, and besides it only dials that have expired. */
  lemma MatchTakes(m: Mux, timeout: nat, peer: AddressablePeer, id: ConnectionId, now: nat, ip: Ip)
    requires ip in m.ongoing
    ensures var n, after := Skipped(m, timeout, peer.addresses, now), MatchDial(m, timeout, peer, id, now).0.ongoing;
            if ip in after then after[ip] == m.ongoing[ip]
            else (n < |peer.addresses| && peer.addresses[n].ip == Some(ip)) || Get(m.ongoing, timeout, ip, now) == None
  {
    var n := Skipped(m, timeout, peer.addresses, now);
    var passed := if n == |peer.addresses| then peer.addresses else peer.addresses[..n + 1];
    if ip in Ips(passed) {
      var k :| 0 <= k < |passed| && passed[k].ip.Some? && passed[k].ip.value == ip;
      assert passed[k] == peer.addresses[k];
      assert k < n ==> !Dialed(m, timeout, peer.addresses[k], now);
    }
  }

  /** Two dials to one host are separated by the completion of a dial to it, or by at least the timeout. */
  lemma DialsAreSpaced(m: Mux, timeout: nat, run: seq<Timed>, i: nat, j: nat, ip: Ip)
    requires InOrder(run) && i < j < |run|
    requires Starts(m, timeout, run, i, ip) && Starts(m, timeout, run, j, ip)
    ensures CompletedBetween(m, timeout, run, i, j, ip) || run[j].at - run[i].at >= timeout
  {
    DialLasts(m, timeout, run, i, j, ip);
    assert run[i].at <= run[j - 1].at <= run[j].at;
  }
}
