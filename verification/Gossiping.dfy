/** One message gossiped over a whole network of nodes with fixed, symmetric active views. */
module Gossiping {
  import opened Cache
  import C = Connections
  import opened Flood
  import opened Muxer
  import opened Network
  import opened Sequences
  import opened Sums
  import opened Topic
  import opened Wire
  import opened Wrappers

  /** A node: its network object and its topic. */
  datatype Station = Station(net: Net, topic: Node)

  type Stations = map<PeerId, Station>

  datatype World = World(stations: Stations, flight: seq<Copy>)

  /** The settings all nodes share, the gossiped data, who publishes it and when. */
  datatype Setting = Setting(cfg: Settings, c: Config, data: string, origin: PeerId, start: nat)

  function Packet(s: Setting): Message {
    Message(s.c.name, Gossip(s.data))
  }

  function GossipOnly(): Action -> bool {
    (action: Action) => action.Gossip?
  }

  function View(st: Station): set<PeerId> {
    st.topic.active.Keys
  }

  // ---- The network before the message ----

  /** Every active peer is connected over a connection that belongs to the topic. */
  ghost predicate Wired(s: Setting, p: PeerId, st: Station) {
    && st.topic.self.id == p && s.c.name in st.net.topics && st.net.history.Some?
    && forall q :: q in View(st) ==>
         && Resolve(st.net.mux, q, st.topic.active[q].id) == Some(s.c.name)
         && !C.Waiting(st.net.mux.unassigned, st.topic.active[q].id, q)
  }

  ghost predicate Symmetric(stations: Stations) {
    forall p, q :: p in stations && q in View(stations[p]) ==> q != p && q in stations && p in View(stations[q])
  }

  predicate Heard(s: Setting, st: Station) {
    st.net.history.Some? && s.cfg.digest(Packet(s)) in st.net.history.value
  }

  ghost predicate Ready(s: Setting, stations: Stations) {
    && s.c.optimal > 0 && s.origin in stations && Symmetric(stations)
    && forall p :: p in stations ==> Wired(s, p, stations[p]) && !Heard(s, stations[p])
  }

  // ---- Steps ----

  /** A copy arrives: the network object filters it and hands it to the topic; `None` would be a panic. */
  function Receive(s: Setting, dice: Dice, st: Station, from: PeerId, at: nat): Option<Station>
    requires Fair(dice) && s.c.optimal > 0 && from in View(st)
  {
    match AcceptMessage(s.cfg, st.net, from, st.topic.active[from].id, Packet(s), at)
    case None => None
    case Some(net) =>
      if |net.log| <= |st.net.log| then Some(Station(net, st.topic))
      else Some(Station(net, OnEvent(s.c, dice, st.topic, net.log[|net.log| - 1].event, at)))
  }

  datatype Step = Arrive(index: nat, dice: Dice, at: nat) | Forget(node: PeerId, at: nat)

  /** All steps happen within one dedupe interval of the publication. */
  ghost predicate Legal(s: Setting, w: World, step: Step) {
    && s.start <= step.at < s.start + s.cfg.dedupe
    && match step
       case Arrive(i, dice, _) => i < |w.flight| && Fair(dice)
       case Forget(p, _) => p in w.stations
  }

  function PruneStation(s: Setting, st: Station, at: nat): Station {
    if st.net.history.None? then st
    else st.(net := st.net.(history := Some(Pruned(st.net.history.value, s.cfg.dedupe, at))))
  }

  function After(s: Setting, w: World, step: Step): World
    requires Legal(s, w, step) && s.c.optimal > 0
  {
    match step
    case Forget(p, at) => w.(stations := w.stations[p := PruneStation(s, w.stations[p], at)])
    case Arrive(i, dice, at) =>
      var copy := w.flight[i];
      if copy.to !in w.stations || copy.from !in View(w.stations[copy.to]) then w
      else
        match Receive(s, dice, w.stations[copy.to], copy.from, at)
        case None => w
        case Some(t) => World(w.stations[copy.to := t],
                              Without(w.flight, i) + New(copy.to, w.stations[copy.to].topic, t.topic))
  }

  /** The copies a topic sent in between. */
  function New(p: PeerId, n: Node, t: Node): seq<Copy> {
    if |n.sent| <= |t.sent| then CopiesIn(p, t.sent[|n.sent|..], GossipOnly()) else []
  }

  /** The originator publishes; it does not put its own message into its history. */
  function Begin(s: Setting, stations: Stations, dice: Dice): World
    requires s.origin in stations && Fair(dice)
  {
    var st := stations[s.origin];
    match Publish(s.c, dice, st.topic, s.data)
    case Err(_) => World(stations, [])
    case Ok(t) => World(stations[s.origin := st.(topic := t)], New(s.origin, st.topic, t))
  }

  // ---- What one arrival does ----

  lemma BroadcastIsNew(c: Config, dice: Dice, n: Node, except: set<PeerId>, data: string)
    requires Fair(dice)
    ensures var t, others := Broadcast(dice, n, except, Gossip(data)), n.active.Keys - except;
            && Enumerates(dice.order(others), others)
            && New(n.self.id, n, t) == CopiesTo(n.self.id, dice.order(others), Gossip(data))
            && New(n.self.id, n, n) == [] && t.emitted == n.emitted
  {
    var others := n.active.Keys - except;
    var order := dice.order(others);
    assert Enumerates(order, others);
    hide Fair;
    var t := Broadcast(dice, n, except, Gossip(data));
    assert t.sent == n.sent + Copies(order, n.active, Gossip(data));
    assert t.sent[|n.sent|..] == [] + Copies(order, n.active, Gossip(data));
    BroadcastCopies(n.self.id, [], order, n.active, Gossip(data), GossipOnly());
    assert n.sent[|n.sent|..] == [];
  }

  /** A first arrival is delivered once and goes on to every active peer but the sender; a later one is dropped. */
  lemma ReceiveMeans(s: Setting, dice: Dice, st: Station, p: PeerId, from: PeerId, at: nat)
    requires Fair(dice) && s.c.optimal > 0 && Wired(s, p, st) && from in View(st)
    ensures var r := Receive(s, dice, st, from, at);
            && r.Some? && Wired(s, p, r.value) && r.value.topic.active == st.topic.active
            && r.value.net.history.value == st.net.history.value[s.cfg.digest(Packet(s)) := Stamped((), at)]
            && var others := View(st) - {from};
               if Duplicate(s.cfg, st.net, Packet(s), at)
               then r.value.topic == st.topic && New(p, st.topic, r.value.topic) == []
               else && r.value.topic.emitted == st.topic.emitted + [s.data]
                    && Enumerates(dice.order(others), others)
                    && New(p, st.topic, r.value.topic) == CopiesTo(p, dice.order(others), Gossip(s.data))
  {
    hide Fair, Broadcast, CopiesIn, Get, Enumerates;
    var id := st.topic.active[from].id;
    var m := Remember(s.cfg, st.net, Packet(s), at);
    assert m.mux == st.net.mux && m.log == st.net.log && m.topics == st.net.topics;
    assert Assign(m.mux, from, id, s.c.name) == (m.mux, None);
    BroadcastIsNew(s.c, dice, st.topic, {from}, s.data);
    if !Duplicate(s.cfg, st.net, Packet(s), at) {
      var event := MessageReceived(from, Packet(s), id);
      var net := Deliver(m, s.c.name, event);
      assert Route(m, from, id, Packet(s)) == Some(net);
      assert net.log[|net.log| - 1].event == event;
      assert OnEvent(s.c, dice, st.topic, event, at) == OnGossip(s.c, dice, st.topic, from, s.data, id, at);
    }
  }

  // ---- The invariant ----

  function PacketTo(s: Setting, from: PeerId, to: PeerId): Copy {
    Copy(from, to, Gossip(s.data))
  }

  /** The node has sent the message on: it published it or has heard it. */
  predicate Spread(s: Setting, stations: Stations, p: PeerId)
    requires p in stations
  {
    p == s.origin || Heard(s, stations[p])
  }

  /** Views and connections stay, and what was heard was heard within the interval. */
  ghost predicate Steady(s: Setting, init: Stations, stations: Stations) {
    && stations.Keys == init.Keys
    && forall p :: p in stations ==>
         && View(stations[p]) == View(init[p]) && Wired(s, p, stations[p])
         && (Heard(s, stations[p]) ==>
               s.start <= stations[p].net.history.value[s.cfg.digest(Packet(s))].at < s.start + s.cfg.dedupe)
  }

  /** Who heard the message has delivered it exactly once; the others have not. */
  ghost predicate DeliveredOnce(s: Setting, init: Stations, stations: Stations) {
    stations.Keys == init.Keys &&
    forall p :: p in stations ==>
      stations[p].topic.emitted == init[p].topic.emitted + if Heard(s, stations[p]) then [s.data] else []
  }

  /** Every copy in flight goes along a link, from a node that has spread the message. */
  ghost predicate OnLinks(s: Setting, w: World) {
    forall x :: x in w.flight ==>
      x.from in w.stations && x.to in View(w.stations[x.from]) && x == PacketTo(s, x.from, x.to) &&
          Spread(s, w.stations, x.from)
  }

  /** Across every link of a node that has spread it, the message has arrived or is on its way. */
  ghost predicate Covered(s: Setting, w: World) {
    forall p, q :: p in w.stations && q in View(w.stations[p]) && q in w.stations && Spread(s, w.stations, p) ==>
      Spread(s, w.stations, q) || PacketTo(s, p, q) in w.flight
  }

  ghost predicate Reached(init: Stations, from: PeerId, to: PeerId, steps: nat)
    decreases steps
  {
    if steps == 0 then from == to
    else exists p :: Reached(init, from, p, steps - 1) && p in init && to in View(init[p])
  }

  ghost predicate Reachable(init: Stations, from: PeerId, to: PeerId) {
    exists steps: nat :: Reached(init, from, to, steps)
  }

  ghost predicate OnlyReachable(s: Setting, init: Stations, stations: Stations) {
    forall p :: p in stations && Spread(s, stations, p) ==> Reachable(init, s.origin, p)
  }

  ghost predicate Spreading(s: Setting, init: Stations, w: World) {
    Steady(s, init, w.stations) && OnLinks(s, w) && Covered(s, w) && OnlyReachable(s, init, w.stations)
  }

  ghost predicate Inv(s: Setting, init: Stations, w: World) {
    Spreading(s, init, w) && DeliveredOnce(s, init, w.stations)
  }

  // ---- Steps keep it ----

  lemma PruneKeepsHearing(s: Setting, init: Stations, stations: Stations, p: PeerId, at: nat)
    requires Steady(s, init, stations) && p in stations && s.start <= at < s.start + s.cfg.dedupe
    ensures var t := PruneStation(s, stations[p], at);
            && Steady(s, init, stations[p := t]) && t.topic == stations[p].topic
            && (Heard(s, t) <==> Heard(s, stations[p]))
  {
    assert Wired(s, p, stations[p]);
    var t := PruneStation(s, stations[p], at);
    assert t.topic == stations[p].topic && t.net.mux == stations[p].net.mux && t.net.topics == stations[p].net.topics;
    assert Wired(s, p, t);
    hide Steady, Wired;
    SteadyUpdate(s, init, stations, p, t);
  }

  lemma ForgetKeepsInv(s: Setting, init: Stations, w: World, p: PeerId, at: nat)
    requires Spreading(s, init, w) && p in w.stations && s.start <= at < s.start + s.cfg.dedupe
    ensures var stations := w.stations[p := PruneStation(s, w.stations[p], at)];
            && Spreading(s, init, w.(stations := stations))
            && (DeliveredOnce(s, init, w.stations) ==> DeliveredOnce(s, init, stations))
  {
    PruneKeepsHearing(s, init, w.stations, p, at);
    hide Reachable, Steady, PruneStation, Wired, Heard, OnLinks, Covered, OnlyReachable;
    SameHearing(s, init, w, w.stations[p := PruneStation(s, w.stations[p], at)]);
  }

  /** Only hearing, views and wiring matter. */
  lemma SameHearing(s: Setting, init: Stations, w: World, stations: Stations)
    requires Spreading(s, init, w) && Steady(s, init, stations)
    requires forall p :: p in stations ==> (Heard(s, stations[p]) <==> Heard(s, w.stations[p]))
    ensures Spreading(s, init, w.(stations := stations))
  {
    hide Reachable, Heard, Wired;
  }

  lemma WithoutMembers(copies: seq<Copy>, i: nat, x: Copy)
    requires i < |copies|
    ensures x in Without(copies, i) ==> x in copies
    ensures x in copies ==> x == copies[i] || x in Without(copies, i)
  {
    if x in copies && x != copies[i] {
      var k :| 0 <= k < |copies| && copies[k] == x;
      assert k < i ==> Without(copies, i)[k] == x;
      assert k > i ==> Without(copies, i)[k - 1] == x;
    }
  }

  lemma CopiesToMembers(s: Setting, p: PeerId, order: seq<PeerId>, others: set<PeerId>, x: Copy)
    requires Enumerates(order, others)
    ensures x in CopiesTo(p, order, Gossip(s.data)) <==> x.to in others && x == PacketTo(s, p, x.to)
  {
    var copies := CopiesTo(p, order, Gossip(s.data));
    if x.to in others && x == PacketTo(s, p, x.to) {
      var k :| 0 <= k < |order| && order[k] == x.to;
      assert copies[k] == x;
    }
  }

  lemma ReachedFurther(init: Stations, from: PeerId, p: PeerId, q: PeerId)
    requires Reachable(init, from, p) && p in init && q in View(init[p])
    ensures Reachable(init, from, q)
  {
    var steps: nat :| Reached(init, from, p, steps);
    assert Reached(init, from, q, steps + 1);
  }

  /** Within the interval a message is a duplicate exactly if it was heard. */
  lemma DuplicateIsHeard(s: Setting, init: Stations, stations: Stations, p: PeerId, at: nat)
    requires Steady(s, init, stations) && p in stations && s.start <= at < s.start + s.cfg.dedupe
    ensures Duplicate(s.cfg, stations[p].net, Packet(s), at) <==> Heard(s, stations[p])
  {
    assert Wired(s, p, stations[p]);
  }

  /**
   * What a receiver sends on: nothing if it had heard the message, otherwise a copy to each active peer but the sender.
   */
  ghost predicate Sends(s: Setting, st: Station, p: PeerId, from: PeerId, copies: seq<Copy>) {
    if Heard(s, st) then copies == []
    else exists order :: Enumerates(order, View(st) - {from}) && copies == CopiesTo(p, order, Gossip(s.data))
  }

  /** The effect of an arrival on the flight and on who has heard. */
  ghost predicate Arrived(s: Setting, w: World, v: World, i: nat, sent: seq<Copy>)
    requires i < |w.flight|
  {
    var copy := w.flight[i];
    && copy.to in w.stations && copy.from in View(w.stations[copy.to])
    && v.stations.Keys == w.stations.Keys
    && (forall p :: p in w.stations && p != copy.to ==> v.stations[p] == w.stations[p])
    && View(v.stations[copy.to]) == View(w.stations[copy.to])
    && Heard(s, v.stations[copy.to])
    && Sends(s, w.stations[copy.to], copy.to, copy.from, sent) && v.flight == Without(w.flight, i) + sent
  }

  /** One station is replaced: its views, wiring and hearing are what they should be. */
  lemma SteadyUpdate(s: Setting, init: Stations, stations: Stations, p: PeerId, t: Station)
    requires Steady(s, init, stations) && p in stations && View(t) == View(stations[p]) && Wired(s, p, t)
    requires Heard(s, t) ==> s.start <= t.net.history.value[s.cfg.digest(Packet(s))].at < s.start + s.cfg.dedupe
    ensures Steady(s, init, stations[p := t])
  {
    hide Wired, Heard;
    assert stations[p := t].Keys == stations.Keys;
  }

  lemma DeliveredUpdate(s: Setting, init: Stations, stations: Stations, p: PeerId, t: Station)
    requires DeliveredOnce(s, init, stations) && p in stations && Heard(s, t)
    requires t.topic.emitted == stations[p].topic.emitted + if Heard(s, stations[p]) then [] else [s.data]
    ensures DeliveredOnce(s, init, stations[p := t])
  {
    hide Heard;
    assert stations[p := t].Keys == stations.Keys;
  }

  lemma ReceiveWithinInterval(s: Setting, init: Stations, stations: Stations, p: PeerId, from: PeerId, dice: Dice,
                              at: nat)
    requires Steady(s, init, stations) && p in stations && from in View(stations[p])
    requires Fair(dice) && s.c.optimal > 0 && s.start <= at < s.start + s.cfg.dedupe
    ensures Receive(s, dice, stations[p], from, at).Some?
    ensures var st, t := stations[p], Receive(s, dice, stations[p], from, at).value;
            && Steady(s, init, stations[p := t]) && Heard(s, t) && View(t) == View(st)
            && t.topic.emitted == st.topic.emitted + (if Heard(s, st) then [] else [s.data])
            && Sends(s, st, p, from, New(p, st.topic, t.topic))
  {
    var st := stations[p];
    assert Wired(s, p, st);
    ReceiveMeans(s, dice, st, p, from, at);
    DuplicateIsHeard(s, init, stations, p, at);
    hide Receive, Duplicate, Wired, Fair, Enumerates, CopiesTo, Steady, New;
    var t := Receive(s, dice, st, from, at).value;
    SteadyUpdate(s, init, stations, p, t);
    if !Heard(s, st) {
      assert Enumerates(dice.order(View(st) - {from}), View(st) - {from});
    }
  }

  lemma AfterArrival(s: Setting, w: World, i: nat, dice: Dice, at: nat)
    requires Legal(s, w, Arrive(i, dice, at)) && s.c.optimal > 0
    requires w.flight[i].to in w.stations && w.flight[i].from in View(w.stations[w.flight[i].to])
    requires Receive(s, dice, w.stations[w.flight[i].to], w.flight[i].from, at).Some?
    ensures var copy := w.flight[i];
            var t := Receive(s, dice, w.stations[copy.to], copy.from, at).value;
            After(s, w, Arrive(i, dice, at)) ==
            World(w.stations[copy.to := t], Without(w.flight, i) + New(copy.to, w.stations[copy.to].topic, t.topic))
  {
    hide Receive, Without, New, Fair, View;
  }

  lemma ArriveSteps(s: Setting, init: Stations, w: World, i: nat, dice: Dice, at: nat) returns (sent: seq<Copy>)
    requires Spreading(s, init, w) && Ready(s, init) && Legal(s, w, Arrive(i, dice, at))
    ensures var v, to := After(s, w, Arrive(i, dice, at)), w.flight[i].to;
            && Arrived(s, w, v, i, sent) && Steady(s, init, v.stations)
            && v.stations == w.stations[to := v.stations[to]]
            && v.stations[to].topic.emitted ==
               w.stations[to].topic.emitted + (if Heard(s, w.stations[to]) then [] else [s.data])
  {
    hide Receive, Spreading, Steady, New, Ready, Heard, After, View, Without, Sends, Fair;
    var copy := w.flight[i];
    CopyIsOnLink(s, init, w, i);
    var st := w.stations[copy.to];
    ReceiveWithinInterval(s, init, w.stations, copy.to, copy.from, dice, at);
    var t := Receive(s, dice, st, copy.from, at).value;
    sent := New(copy.to, st.topic, t.topic);
    AfterArrival(s, w, i, dice, at);
  }

  lemma CopyIsOnLink(s: Setting, init: Stations, w: World, i: nat)
    requires Spreading(s, init, w) && Ready(s, init) && i < |w.flight|
    ensures var copy := w.flight[i];
            copy.to in w.stations && copy.from in View(w.stations[copy.to])
    ensures s.c.optimal > 0 && Steady(s, init, w.stations)
  {
    hide Wired, Heard, Covered, OnlyReachable, Spread;
    var copy := w.flight[i];
    assert copy in w.flight;
    assert copy.to in View(init[copy.from]) && copy.from in View(init[copy.to]);
  }

  lemma ArrivalKeepsOnLinks(s: Setting, w: World, v: World, i: nat, sent: seq<Copy>)
    requires i < |w.flight| && Arrived(s, w, v, i, sent) && OnLinks(s, w)
    ensures OnLinks(s, v)
  {
    hide Heard;
    var copy := w.flight[i];
    forall x | x in v.flight
      ensures x.from in v.stations && x.to in View(v.stations[x.from]) && x == PacketTo(s, x.from, x.to)
      ensures Spread(s, v.stations, x.from)
    {
      WithoutMembers(w.flight, i, x);
      if !Heard(s, w.stations[copy.to]) {
        var order :| Enumerates(order, View(w.stations[copy.to]) - {copy.from}) &&
            sent == CopiesTo(copy.to, order, Gossip(s.data));
        CopiesToMembers(s, copy.to, order, View(w.stations[copy.to]) - {copy.from}, x);
      }
    }
  }

  lemma ArrivalKeepsCovered(s: Setting, w: World, v: World, i: nat, sent: seq<Copy>)
    requires i < |w.flight| && Arrived(s, w, v, i, sent) && OnLinks(s, w) && Covered(s, w)
    ensures Covered(s, v)
  {
    hide Heard, CopiesTo, Without;
    var copy := w.flight[i];
    assert copy in w.flight;
    forall p, q | p in v.stations && q in View(v.stations[p]) && q in v.stations && Spread(s, v.stations, p)
      ensures Spread(s, v.stations, q) || PacketTo(s, p, q) in v.flight
    {
      WithoutMembers(w.flight, i, PacketTo(s, p, q));
      if !Heard(s, w.stations[copy.to]) {
        var order :| Enumerates(order, View(w.stations[copy.to]) - {copy.from}) &&
            sent == CopiesTo(copy.to, order, Gossip(s.data));
        CopiesToMembers(s, copy.to, order, View(w.stations[copy.to]) - {copy.from}, PacketTo(s, p, q));
      }
    }
  }

  lemma ArriveKeepsInv(s: Setting, init: Stations, w: World, i: nat, dice: Dice, at: nat)
    requires Spreading(s, init, w) && Ready(s, init) && Legal(s, w, Arrive(i, dice, at))
    ensures var v := After(s, w, Arrive(i, dice, at));
            && Spreading(s, init, v) && Measure(s, init, v) < Measure(s, init, w)
            && (DeliveredOnce(s, init, w.stations) ==> DeliveredOnce(s, init, v.stations))
  {
    assert s.c.optimal > 0;
    hide After, Arrived, Steady, DeliveredOnce, Heard, Ready, Reachable, Fair, Measure;
    var v := After(s, w, Arrive(i, dice, at));
    var sent := ArriveSteps(s, init, w, i, dice, at);
    ArrivalKeepsOnLinks(s, w, v, i, sent);
    ArrivalKeepsCovered(s, w, v, i, sent);
    ArrivalIsReachable(s, init, w, v, i, sent);
    ArrivalLowersMeasure(s, init, w, v, i, sent);
    if DeliveredOnce(s, init, w.stations) {
      ReceiverHasHeard(s, w, v, i, sent);
      DeliveredUpdate(s, init, w.stations, w.flight[i].to, v.stations[w.flight[i].to]);
    }
  }

  lemma ReceiverHasHeard(s: Setting, w: World, v: World, i: nat, sent: seq<Copy>)
    requires i < |w.flight| && Arrived(s, w, v, i, sent)
    ensures w.flight[i].to in w.stations && w.flight[i].to in v.stations && Heard(s, v.stations[w.flight[i].to])
  {
    hide Heard, Sends;
  }

  lemma ArrivalIsReachable(s: Setting, init: Stations, w: World, v: World, i: nat, sent: seq<Copy>)
    requires i < |w.flight| && Arrived(s, w, v, i, sent) && OnLinks(s, w) && OnlyReachable(s, init, w.stations)
    requires Steady(s, init, w.stations)
    ensures OnlyReachable(s, init, v.stations)
  {
    hide Heard, Reachable, Wired;
    var copy := w.flight[i];
    assert copy in w.flight;
    ReachedFurther(init, s.origin, copy.from, copy.to);
  }

  // ---- The start ----

  /** Publishing sends one copy to each active peer and leaves everything else as it was. */
  lemma BeginMeans(s: Setting, init: Stations, dice: Dice)
    requires Ready(s, init) && Fair(dice) && |s.data| <= s.c.maxTransmit
    ensures var w, view := Begin(s, init, dice), View(init[s.origin]);
            && w.stations.Keys == init.Keys
            && (forall p :: p in init ==> && View(w.stations[p]) == View(init[p]) && Wired(s, p, w.stations[p])
                                          && !Heard(s, w.stations[p])
                                          && w.stations[p].topic.emitted == init[p].topic.emitted)
            && Enumerates(dice.order(view), view) && w.flight == CopiesTo(s.origin, dice.order(view), Gossip(s.data))
  {
    hide Fair, Enumerates, CopiesTo, New, Broadcast, Resolve;
    var st := init[s.origin];
    assert View(st) - {} == View(st);
    BroadcastIsNew(s.c, dice, st.topic, {}, s.data);
    WiredAgain(s, st, st.(topic := Broadcast(dice, st.topic, {}, Gossip(s.data))));
    hide Wired;
    if View(st) == {} {
      NobodyToSendTo(s.origin, dice.order({}), s.data);
    }
  }

  lemma WiredAgain(s: Setting, st: Station, t: Station)
    requires t.net == st.net && SameViews(st.topic, t.topic)
    ensures Wired(s, st.topic.self.id, st) ==> Wired(s, st.topic.self.id, t)
  {
  }

  lemma NobodyToSendTo(from: PeerId, order: seq<PeerId>, data: string)
    requires Enumerates(order, {})
    ensures CopiesTo(from, order, Gossip(data)) == []
  {
    EnumerationSize(order, {});
  }

  lemma BeginIsInv(s: Setting, init: Stations, dice: Dice)
    requires Ready(s, init) && Fair(dice) && |s.data| <= s.c.maxTransmit
    ensures Inv(s, init, Begin(s, init, dice))
    ensures |Begin(s, init, dice).flight| == |View(init[s.origin])|
    ensures Left(s, Begin(s, init, dice).stations) == init.Keys
  {
    assert s.origin in init;
    hide Fair, Enumerates, CopiesTo, Begin, Reachable, Heard, Wired, Ready, OnLinks, Covered, Steady, DeliveredOnce,
        OnlyReachable, Left;
    var view := View(init[s.origin]);
    BeginMeans(s, init, dice);
    EnumerationSize(dice.order(view), view);
    SizeOfCopies(s.origin, dice.order(view), s.data);
    ReachableFromItself(init, s.origin);
    var w := Begin(s, init, dice);
    forall x ensures x in w.flight <==> x.to in view && x == PacketTo(s, s.origin, x.to) {
      CopiesToMembers(s, s.origin, dice.order(view), view, x);
    }
    BeginLinks(s, w, view);
    NobodyHeardYet(s, init, w);
  }

  lemma NobodyHeardYet(s: Setting, init: Stations, w: World)
    requires w.stations.Keys == init.Keys && Reachable(init, s.origin, s.origin)
    requires forall p :: p in init ==> && View(w.stations[p]) == View(init[p]) && Wired(s, p, w.stations[p])
                                       && !Heard(s, w.stations[p])
                                       && w.stations[p].topic.emitted == init[p].topic.emitted
    ensures Steady(s, init, w.stations) && DeliveredOnce(s, init, w.stations) && OnlyReachable(s, init, w.stations)
    ensures Left(s, w.stations) == init.Keys
  {
    hide Heard, Wired, Reachable;
  }

  lemma BeginLinks(s: Setting, w: World, view: set<PeerId>)
    requires s.origin in w.stations && View(w.stations[s.origin]) == view
    requires forall p :: p in w.stations ==> !Heard(s, w.stations[p])
    requires forall x :: x in w.flight <==> x.to in view && x == PacketTo(s, s.origin, x.to)
    ensures OnLinks(s, w) && Covered(s, w)
  {
    hide Heard;
  }

  lemma SizeOfCopies(from: PeerId, order: seq<PeerId>, data: string)
    ensures |CopiesTo(from, order, Gossip(data))| == |order|
  {
  }

  lemma ReachableFromItself(init: Stations, p: PeerId)
    ensures Reachable(init, p, p)
  {
    assert Reached(init, p, p, 0);
  }

  // ---- Termination ----

  function Left(s: Setting, stations: Stations): set<PeerId> {
    set p | p in stations && !Heard(s, stations[p])
  }

  function Degrees(init: Stations): PeerId -> int {
    p => if p in init then |View(init[p])| else 0
  }

  /** Copies in flight, and those that nodes may still send. */
  ghost function Measure(s: Setting, init: Stations, w: World): int {
    |w.flight| + SumOn(Left(s, w.stations), Degrees(init))
  }

  lemma ArrivalLowersMeasure(s: Setting, init: Stations, w: World, v: World, i: nat, sent: seq<Copy>)
    requires i < |w.flight| && Arrived(s, w, v, i, sent) && Steady(s, init, w.stations)
    ensures Measure(s, init, v) < Measure(s, init, w)
  {
    hide Heard, Wired;
    var copy := w.flight[i];
    var st := w.stations[copy.to];
    assert |v.flight| == |w.flight| - 1 + |sent|;
    if Heard(s, st) {
      assert Left(s, v.stations) == Left(s, w.stations);
    } else {
      assert Left(s, v.stations) == Left(s, w.stations) - {copy.to};
      SumRemove(Left(s, w.stations), Degrees(init), copy.to);
      var order :| Enumerates(order, View(st) - {copy.from}) && sent == CopiesTo(copy.to, order, Gossip(s.data));
      EnumerationSize(order, View(st) - {copy.from});
    }
  }

  // ---- Runs ----

  /** The world after a legal run; `None` once a step is not legal. */
  ghost function RunOf(s: Setting, w: World, run: seq<Step>): Option<World> {
    if run == [] then Some(w)
    else
      match RunOf(s, w, run[..|run| - 1])
      case None => None
      case Some(v) => if s.c.optimal > 0 && Legal(s, v, run[|run| - 1]) then Some(After(s, v, run[|run| - 1])) else None
  }

  function Arrivals(run: seq<Step>): nat {
    if run == [] then 0 else Arrivals(run[..|run| - 1]) + if run[|run| - 1].Arrive? then 1 else 0
  }

  lemma {:induction false} RunKeepsInv(s: Setting, init: Stations, w: World, run: seq<Step>)
    requires Ready(s, init) && Inv(s, init, w) && RunOf(s, w, run).Some?
    ensures Inv(s, init, RunOf(s, w, run).value)
    ensures Arrivals(run) + Measure(s, init, RunOf(s, w, run).value) <= Measure(s, init, w)
  {
    hide Inv, Ready, Legal, Measure;
    if run != [] {
      RunKeepsInv(s, init, w, run[..|run| - 1]);
      StepKeepsInv(s, init, RunOf(s, w, run[..|run| - 1]).value, run[|run| - 1]);
    }
  }

  lemma SameLeft(s: Setting, stations: Stations, p: PeerId, t: Station)
    requires p in stations && (Heard(s, t) <==> Heard(s, stations[p]))
    ensures Left(s, stations[p := t]) == Left(s, stations)
  {
    hide Heard;
    assert stations[p := t].Keys == stations.Keys;
  }

  lemma AfterForget(s: Setting, w: World, p: PeerId, at: nat)
    requires Legal(s, w, Forget(p, at)) && s.c.optimal > 0
    ensures After(s, w, Forget(p, at)) == w.(stations := w.stations[p := PruneStation(s, w.stations[p], at)])
  {
  }

  lemma ForgetKeepsMeasure(s: Setting, init: Stations, w: World, p: PeerId, at: nat)
    requires Steady(s, init, w.stations) && Legal(s, w, Forget(p, at)) && s.c.optimal > 0
    ensures Measure(s, init, After(s, w, Forget(p, at))) == Measure(s, init, w)
  {
    assert p in w.stations && s.start <= at < s.start + s.cfg.dedupe;
    hide Steady, Heard, PruneStation, After, Left;
    PruneKeepsHearing(s, init, w.stations, p, at);
    AfterForget(s, w, p, at);
    SameLeft(s, w.stations, p, PruneStation(s, w.stations[p], at));
  }

  lemma StepKeepsInv(s: Setting, init: Stations, w: World, step: Step)
    requires Ready(s, init) && Inv(s, init, w) && Legal(s, w, step) && s.c.optimal > 0
    ensures Inv(s, init, After(s, w, step))
    ensures Measure(s, init, After(s, w, step)) + (if step.Arrive? then 1 else 0) <= Measure(s, init, w)
  {
    hide Measure, Ready, Steady, DeliveredOnce, OnLinks, Covered, OnlyReachable, Fair;
    match step {
      case Arrive(i, dice, at) =>
        ArriveKeepsInv(s, init, w, i, dice, at);
      case Forget(p, at) =>
        ForgetKeepsInv(s, init, w, p, at);
        ForgetKeepsMeasure(s, init, w, p, at);
    }
  }

  // ---- The theorem ----

  lemma OriginHasSpread(s: Setting, init: Stations, stations: Stations)
    requires Steady(s, init, stations) && s.origin in init
    ensures s.origin in stations && Spread(s, stations, s.origin)
  {
  }

  lemma SpreadsOn(s: Setting, init: Stations, w: World, p: PeerId, q: PeerId)
    requires Steady(s, init, w.stations) && Covered(s, w) && w.flight == [] && Symmetric(init)
    requires p in init && Spread(s, w.stations, p) && q in View(init[p])
    ensures q in init && Spread(s, w.stations, q)
  {
    hide Spread, Wired, Heard;
  }

  lemma {:induction false} ReachableHasSpread(s: Setting, init: Stations, w: World, p: PeerId, steps: nat)
    requires Steady(s, init, w.stations) && Covered(s, w) && w.flight == [] && Symmetric(init)
    requires s.origin in init && Reached(init, s.origin, p, steps)
    ensures p in init && Spread(s, w.stations, p)
    decreases steps
  {
    hide Covered, Symmetric, View, Steady, Spread;
    if steps == 0 {
      OriginHasSpread(s, init, w.stations);
    } else {
      var q :| Reached(init, s.origin, q, steps - 1) && q in init && p in View(init[q]);
      ReachableHasSpread(s, init, w, q, steps - 1);
      SpreadsOn(s, init, w, q, p);
    }
  }

  lemma SpreadEverywhere(s: Setting, init: Stations, w: World, p: PeerId)
    requires Ready(s, init) && Spreading(s, init, w) && w.flight == [] && Reachable(init, s.origin, p)
    ensures p in w.stations && Spread(s, w.stations, p)
  {
    hide Spread, Wired, Heard, DeliveredOnce, OnLinks, OnlyReachable, Covered;
    var steps: nat :| Reached(init, s.origin, p, steps);
    ReachableHasSpread(s, init, w, p, steps);
  }

  lemma DeliveredAt(s: Setting, init: Stations, w: World, p: PeerId)
    requires Ready(s, init) && Inv(s, init, w) && p in init
    ensures p in w.stations
    ensures var before, after := init[p].topic.emitted, w.stations[p].topic.emitted;
            && (after == before || after == before + [s.data])
            && (!Reachable(init, s.origin, p) ==> after == before)
            && (w.flight == [] && Reachable(init, s.origin, p) && p != s.origin ==> after == before + [s.data])
  {
    hide Heard, Wired, OnLinks, Covered, Reachable, Ready;
    if w.flight == [] && Reachable(init, s.origin, p) {
      SpreadEverywhere(s, init, w, p);
    }
  }

  /**
   * Over every run within one dedupe interval, in whatever order copies arrive: flooding stops after a bounded number
   * of arrivals; no node delivers the message twice, and none that cannot be reached delivers it; and once no copy is
   * in flight, every node that can be reached from the originator has delivered it exactly once. The originator, which
   * keeps no record of its own message, may deliver it once too.
   */
  lemma GossipIsDelivered(s: Setting, init: Stations, dice: Dice, run: seq<Step>)
    requires Ready(s, init) && Fair(dice) && |s.data| <= s.c.maxTransmit
    requires RunOf(s, Begin(s, init, dice), run).Some?
    ensures Arrivals(run) <= |View(init[s.origin])| + SumOn(init.Keys, Degrees(init))
    ensures var w := RunOf(s, Begin(s, init, dice), run).value;
            && w.stations.Keys == init.Keys
            && forall p :: p in init ==>
                 var before, after := init[p].topic.emitted, w.stations[p].topic.emitted;
                 && (after == before || after == before + [s.data])
                 && (!Reachable(init, s.origin, p) ==> after == before)
                 && (w.flight == [] && Reachable(init, s.origin, p) && p != s.origin ==> after == before + [s.data])
  {
    assert s.origin in init;
    hide RunOf, Begin, Inv, Ready, Reachable, Fair;
    var start := Begin(s, init, dice);
    BeginIsInv(s, init, dice);
    RunKeepsInv(s, init, start, run);
    var w := RunOf(s, start, run).value;
    SumIsNatural(Left(s, w.stations), Degrees(init));
    InvKeepsKeys(s, init, w);
    forall p | p in init
      ensures var before, after := init[p].topic.emitted, w.stations[p].topic.emitted;
              && (after == before || after == before + [s.data])
              && (!Reachable(init, s.origin, p) ==> after == before)
              && (w.flight == [] && Reachable(init, s.origin, p) && p != s.origin ==> after == before + [s.data])
    {
      DeliveredAt(s, init, w, p);
    }
  }

  lemma InvKeepsKeys(s: Setting, init: Stations, w: World)
    requires Inv(s, init, w)
    ensures w.stations.Keys == init.Keys
  {
  }

  // ---- Every run can be brought to its end ----

  lemma {:induction false} RunConcat(s: Setting, w: World, run: seq<Step>, more: seq<Step>)
    requires RunOf(s, w, run).Some?
    ensures RunOf(s, w, run + more) == RunOf(s, RunOf(s, w, run).value, more)
  {
    hide Legal, After;
    if more == [] {
      assert run + more == run;
    } else {
      RunConcat(s, w, run, more[..|more| - 1]);
      assert (run + more)[..|run + more| - 1] == run + more[..|more| - 1];
    }
  }

  lemma OneStep(s: Setting, w: World, step: Step)
    requires s.c.optimal > 0 && Legal(s, w, step)
    ensures RunOf(s, w, [step]) == Some(After(s, w, step))
  {
    hide Legal, After;
    assert [step][..0] == [];
    assert RunOf(s, w, []) == Some(w);
  }

  /** As long as copies are in flight some can arrive, until none is left. */
  lemma {:induction false} CanDrain(s: Setting, init: Stations, w: World) returns (more: seq<Step>)
    requires Ready(s, init) && Inv(s, init, w) && s.c.optimal > 0 && s.cfg.dedupe > 0
    ensures RunOf(s, w, more).Some? && RunOf(s, w, more).value.flight == []
    decreases Measure(s, init, w)
  {
    hide Inv, Ready, After, RunOf, Fair;
    if w.flight == [] {
      more := [];
      assert RunOf(s, w, more) == Some(w) by { EmptyRun(s, w); }
    } else {
      var dice := Views.FairDiceExist();
      var step := Arrive(0, dice, s.start);
      StepKeepsInv(s, init, w, step);
      MeasureIsNatural(s, init, w);
      OneStep(s, w, step);
      var rest := CanDrain(s, init, After(s, w, step));
      RunConcat(s, w, [step], rest);
      more := [step] + rest;
    }
  }

  lemma MeasureIsNatural(s: Setting, init: Stations, w: World)
    ensures Measure(s, init, w) >= 0
  {
    SumIsNatural(Left(s, w.stations), Degrees(init));
  }

  lemma EmptyRun(s: Setting, w: World)
    ensures RunOf(s, w, []) == Some(w)
  {
  }

  /** Every run within the interval can be continued until nothing is in flight, so that GossipIsDelivered concludes. */
  lemma GossipCanFinish(s: Setting, init: Stations, dice: Dice, run: seq<Step>) returns (more: seq<Step>)
    requires Ready(s, init) && Fair(dice) && |s.data| <= s.c.maxTransmit && s.cfg.dedupe > 0
    requires RunOf(s, Begin(s, init, dice), run).Some?
    ensures var end := RunOf(s, Begin(s, init, dice), run + more); end.Some? && end.value.flight == []
  {
    assert s.origin in init && s.c.optimal > 0;
    hide RunOf, Begin, Inv, Ready, Fair;
    var start := Begin(s, init, dice);
    BeginIsInv(s, init, dice);
    RunKeepsInv(s, init, start, run);
    more := CanDrain(s, init, RunOf(s, start, run).value);
    RunConcat(s, start, run, more);
  }
}
