/** One message among many: gossip of other messages, with other digests, at the same time and over the same links. */
module Traffic {
  import opened Cache
  import opened Flood
  import opened Gossiping
  import opened Muxer
  import opened Network
  import opened Sequences
  import opened Sums
  import opened Topic
  import opened Wire
  import opened Wrappers

  function Other(s: Setting, data: string): Setting {
    s.(data := data)
  }

  /** Another message, which the duplicate filter tells apart. */
  predicate Foreign(s: Setting, data: string) {
    s.cfg.digest(Packet(Other(s, data))) != s.cfg.digest(Packet(s))
  }

  /** A copy of any message arrives, a node prunes its history, or a node publishes another message. */
  datatype Event =
    | Arrival(index: nat, dice: Dice, at: nat)
    | Forgetting(node: PeerId, at: nat)
    | Publishing(node: PeerId, data: string, dice: Dice, at: nat)

  /**
   * All events happen within one dedupe interval of the publication of the message in question, and no other message
   * has its digest.
   */
  ghost predicate Timely(s: Setting, w: World, event: Event) {
    && s.start <= event.at < s.start + s.cfg.dedupe
    && match event
       case Arrival(i, dice, _) =>
         && i < |w.flight| && w.flight[i].action.Gossip? && Fair(dice)
         && (w.flight[i].action.data == s.data || Foreign(s, w.flight[i].action.data))
       case Forgetting(p, _) => p in w.stations
       case Publishing(p, data, dice, _) => p in w.stations && Foreign(s, data) && Fair(dice)
  }

  function Next(s: Setting, w: World, event: Event): World
    requires Timely(s, w, event) && s.c.optimal > 0
  {
    match event
    case Arrival(i, dice, at) => Gossiping.After(Other(s, w.flight[i].action.data), w, Arrive(i, dice, at))
    case Forgetting(p, at) => Gossiping.After(s, w, Forget(p, at))
    case Publishing(p, data, dice, _) =>
      var st := w.stations[p];
      match Publish(s.c, dice, st.topic, data)
      case Err(_) => w
      case Ok(t) => World(w.stations[p := st.(topic := t)], w.flight + New(p, st.topic, t))
  }

  // ---- The message in question ----

  function Mine(s: Setting, flight: seq<Copy>): seq<Copy> {
    if flight == [] then []
    else
      var front, last := Mine(s, flight[..|flight| - 1]), flight[|flight| - 1];
      if last.action == Gossip(s.data) then front + [last] else front
  }

  /** What is left of the world if only this message is looked at. */
  function Project(s: Setting, w: World): World {
    w.(flight := Mine(s, w.flight))
  }

  function Times(emitted: seq<string>, data: string): nat {
    multiset(emitted)[data]
  }

  lemma {:induction false} MineConcat(s: Setting, a: seq<Copy>, b: seq<Copy>)
    ensures Mine(s, a + b) == Mine(s, a) + Mine(s, b)
  {
    if b == [] {
      assert a + b == a;
    } else {
      MineConcat(s, a, b[..|b| - 1]);
      assert (a + b)[..|a + b| - 1] == a + b[..|b| - 1];
    }
  }

  lemma MineOne(s: Setting, x: Copy)
    ensures Mine(s, [x]) == if x.action == Gossip(s.data) then [x] else []
  {
    assert [x][..0] == [];
  }

  /** The place of a copy among those of its message, and what taking it away leaves. */
  lemma MineWithout(s: Setting, flight: seq<Copy>, i: nat) returns (k: nat)
    requires i < |flight|
    ensures flight[i].action != Gossip(s.data) ==> Mine(s, Without(flight, i)) == Mine(s, flight)
    ensures flight[i].action == Gossip(s.data) ==>
              && k < |Mine(s, flight)| && Mine(s, flight)[k] == flight[i]
              && Mine(s, Without(flight, i)) == Without(Mine(s, flight), k)
  {
    var before, x, rest := flight[..i], flight[i], flight[i + 1..];
    assert flight == before + [x] + rest;
    MineConcat(s, before, [x]);
    MineConcat(s, before + [x], rest);
    MineConcat(s, before, rest);
    MineOne(s, x);
    k := |Mine(s, before)|;
  }

  lemma {:induction false} MineOfCopies(s: Setting, from: PeerId, order: seq<PeerId>, data: string)
    ensures Mine(s, CopiesTo(from, order, Gossip(data))) ==
            if data == s.data then CopiesTo(from, order, Gossip(data)) else []
  {
    if order != [] {
      var front := order[..|order| - 1];
      var copies := CopiesTo(from, order, Gossip(data));
      assert copies[..|copies| - 1] == CopiesTo(from, front, Gossip(data));
      MineOfCopies(s, from, front, data);
    }
  }

  // ---- What other messages leave alone ----

  /**
   * Whoever had heard the message has, and the others have not; it is delivered as often, and the copies are the same.
   */
  ghost predicate Unmoved(s: Setting, w: World, v: World) {
    && v.stations.Keys == w.stations.Keys && Mine(s, v.flight) == Mine(s, w.flight)
    && forall p :: p in w.stations ==>
         && (Heard(s, v.stations[p]) <==> Heard(s, w.stations[p]))
         && Times(v.stations[p].topic.emitted, s.data) == Times(w.stations[p].topic.emitted, s.data)
  }

  lemma UnmovedUpdate(s: Setting, init: Stations, w: World, p: PeerId, t: Station, flight: seq<Copy>)
    requires Steady(s, init, w.stations) && p in w.stations && View(t) == View(w.stations[p]) && Wired(s, p, t)
    requires t.net.history.Some? && w.stations[p].net.history.Some?
    requires var key := s.cfg.digest(Packet(s));
             && (key in t.net.history.value <==> key in w.stations[p].net.history.value)
             && (key in t.net.history.value ==> t.net.history.value[key] == w.stations[p].net.history.value[key])
    requires Times(t.topic.emitted, s.data) == Times(w.stations[p].topic.emitted, s.data)
    requires Mine(s, flight) == Mine(s, w.flight)
    ensures var v := World(w.stations[p := t], flight); Steady(s, init, v.stations) && Unmoved(s, w, v)
  {
    hide Wired, View, Steady, Times;
    assert Heard(s, t) <==> Heard(s, w.stations[p]);
    if Heard(s, t) {
      HeardInTime(s, init, w.stations, p);
    }
    SteadyUpdate(s, init, w.stations, p, t);
    assert w.stations[p := t].Keys == w.stations.Keys;
  }

  lemma HeardInTime(s: Setting, init: Stations, stations: Stations, p: PeerId)
    requires Steady(s, init, stations) && p in stations && Heard(s, stations[p])
    ensures s.start <= stations[p].net.history.value[s.cfg.digest(Packet(s))].at < s.start + s.cfg.dedupe
  {
  }

  lemma ForeignArrival(s: Setting, init: Stations, w: World, i: nat, dice: Dice, at: nat)
    requires Steady(s, init, w.stations) && s.c.optimal > 0 && Timely(s, w, Arrival(i, dice, at))
    requires Foreign(s, w.flight[i].action.data)
    ensures var v := Next(s, w, Arrival(i, dice, at)); Steady(s, init, v.stations) && Unmoved(s, w, v)
  {
    hide Receive, Wired, Fair, Steady, New, Mine, Without, Duplicate, Enumerates, CopiesTo, Times, View;
    var copy, data := w.flight[i], w.flight[i].action.data;
    var o := Other(s, data);
    if copy.to in w.stations && copy.from in View(w.stations[copy.to]) {
      var st := w.stations[copy.to];
      SteadyMeans(s, init, w.stations, copy.to);
      OtherIsWired(s, data, copy.to, st);
      var t, sent := ForeignReceipt(s, w, i, dice, at);
      var k := MineWithout(s, w.flight, i);
      MineConcat(s, Without(w.flight, i), sent);
      UnmovedUpdate(s, init, w, copy.to, t, Without(w.flight, i) + sent);
    } else {
      StaysAway(s, w, i, dice, at);
    }
  }

  lemma StaysAway(s: Setting, w: World, i: nat, dice: Dice, at: nat)
    requires s.c.optimal > 0 && Timely(s, w, Arrival(i, dice, at))
    requires !(w.flight[i].to in w.stations && w.flight[i].from in View(w.stations[w.flight[i].to]))
    ensures Next(s, w, Arrival(i, dice, at)) == w
  {
  }

  /** What the arrival of another message does: it is delivered, or not, and only copies of it are sent. */
  lemma ForeignReceipt(s: Setting, w: World, i: nat, dice: Dice, at: nat) returns (t: Station, sent: seq<Copy>)
    requires s.c.optimal > 0 && Timely(s, w, Arrival(i, dice, at)) && Foreign(s, w.flight[i].action.data)
    requires var copy := w.flight[i];
             && copy.to in w.stations && copy.from in View(w.stations[copy.to])
             && Wired(s, copy.to, w.stations[copy.to])
    ensures var st, key, other := w.stations[w.flight[i].to], s.cfg.digest(Packet(s)),
                s.cfg.digest(Packet(Other(s, w.flight[i].action.data)));
            && st.net.history.Some? && t.net.history.Some? && key != other
            && t.net.history.value == st.net.history.value[other := Stamped((), at)]
            && View(t) == View(st) && Wired(s, w.flight[i].to, t) && Mine(s, sent) == []
            && Times(t.topic.emitted, s.data) == Times(st.topic.emitted, s.data)
    ensures Next(s, w, Arrival(i, dice, at)) ==
            World(w.stations[w.flight[i].to := t], Without(w.flight, i) + sent)
  {
    hide Receive, Fair, New, Mine, Without, Duplicate, Enumerates, CopiesTo, Times, Resolve;
    var copy, data := w.flight[i], w.flight[i].action.data;
    var o, st := Other(s, data), w.stations[copy.to];
    ReceiveMeans(o, dice, st, copy.to, copy.from, at);
    t := Receive(o, dice, st, copy.from, at).value;
    sent := New(copy.to, st.topic, t.topic);
    AfterArrival(o, w, i, dice, at);
    ForeignCopies(s, copy.to, dice, View(st) - {copy.from}, data, sent);
    ForeignDelivery(s, st.topic.emitted, t.topic.emitted, data);
  }

  lemma OtherIsWired(s: Setting, data: string, p: PeerId, st: Station)
    ensures Wired(Other(s, data), p, st) <==> Wired(s, p, st)
  {
  }

  lemma ForeignCopies(s: Setting, p: PeerId, dice: Dice, others: set<PeerId>, data: string, sent: seq<Copy>)
    requires data != s.data && (sent == [] || sent == CopiesTo(p, dice.order(others), Gossip(data)))
    ensures Mine(s, sent) == []
  {
    MineOfCopies(s, p, dice.order(others), data);
  }

  lemma ForeignDelivery(s: Setting, before: seq<string>, after: seq<string>, data: string)
    requires data != s.data && (after == before || after == before + [data])
    ensures Times(after, s.data) == Times(before, s.data)
  {
  }

  /** What publishing another message does: it sends copies of that message and nothing else. */
  lemma PublishingMeans(s: Setting, w: World, p: PeerId, data: string, dice: Dice, at: nat)
    returns (t: Station, sent: seq<Copy>)
    requires s.c.optimal > 0 && Timely(s, w, Publishing(p, data, dice, at)) && Wired(s, p, w.stations[p])
    ensures t.net == w.stations[p].net && View(t) == View(w.stations[p]) && Wired(s, p, t)
    ensures t.topic.emitted == w.stations[p].topic.emitted && Mine(s, sent) == []
    ensures Next(s, w, Publishing(p, data, dice, at)) == World(w.stations[p := t], w.flight + sent)
  {
    var st := w.stations[p];
    match Publish(s.c, dice, st.topic, data)
    case Err(_) =>
      t, sent := st, [];
      assert w.stations[p := st] == w.stations && w.flight + [] == w.flight;
    case Ok(n) =>
      hide Fair, New, Enumerates, CopiesTo, Broadcast, Resolve;
      t, sent := st.(topic := n), New(p, st.topic, n);
      BroadcastIsNew(s.c, dice, st.topic, {}, data);
      WiredAgain(s, st, t);
      ForeignCopies(s, p, dice, st.topic.active.Keys - {}, data, sent);
  }

  lemma ForeignPublishing(s: Setting, init: Stations, w: World, p: PeerId, data: string, dice: Dice, at: nat)
    requires Steady(s, init, w.stations) && s.c.optimal > 0 && Timely(s, w, Publishing(p, data, dice, at))
    ensures var v := Next(s, w, Publishing(p, data, dice, at)); Steady(s, init, v.stations) && Unmoved(s, w, v)
  {
    hide Next, Wired, Fair, Mine, Times, Foreign;
    assert Wired(s, p, w.stations[p]) && w.stations[p].net.history.Some? by { SteadyMeans(s, init, w.stations, p); }
    hide Steady;
    var t, sent := PublishingMeans(s, w, p, data, dice, at);
    MineConcat(s, w.flight, sent);
    UnmovedUpdate(s, init, w, p, t, w.flight + sent);
  }

  lemma SteadyMeans(s: Setting, init: Stations, stations: Stations, p: PeerId)
    requires Steady(s, init, stations) && p in stations
    ensures Wired(s, p, stations[p]) && stations[p].net.history.Some?
  {
    assert Wired(s, p, stations[p]);
  }

  // ---- Every event keeps the message spreading ----

  /** It is delivered once more than before by those who have heard it, and as often as before by the others. */
  ghost predicate CountedOnce(s: Setting, init: Stations, stations: Stations) {
    && stations.Keys == init.Keys
    && forall p :: p in stations ==>
         Times(stations[p].topic.emitted, s.data) ==
         Times(init[p].topic.emitted, s.data) + if Heard(s, stations[p]) then 1 else 0
  }

  ghost predicate TrafficInv(s: Setting, init: Stations, w: World) {
    Spreading(s, init, Project(s, w)) && CountedOnce(s, init, w.stations)
  }

  predicate IsMine(s: Setting, w: World, event: Event) {
    event.Arrival? && event.index < |w.flight| && w.flight[event.index].action == Gossip(s.data)
  }

  lemma OwnArrivalProjects(s: Setting, init: Stations, w: World, i: nat, dice: Dice, at: nat) returns (k: nat)
    requires Ready(s, init) && Spreading(s, init, Project(s, w)) && s.c.optimal > 0
    requires Timely(s, w, Arrival(i, dice, at)) && w.flight[i].action == Gossip(s.data)
    ensures k < |Mine(s, w.flight)| && Mine(s, w.flight)[k] == w.flight[i]
    ensures Legal(s, Project(s, w), Arrive(k, dice, at))
    ensures Project(s, Next(s, w, Arrival(i, dice, at))) == Gossiping.After(s, Project(s, w), Arrive(k, dice, at))
  {
    hide Receive, Wired, Fair, Steady, New, Without, Duplicate, Enumerates, CopiesTo, View, Ready, Spreading, Mine;
    var copy := w.flight[i];
    k := MineWithout(s, w.flight, i);
    CopyIsOnLink(s, init, Project(s, w), k);
    var st := w.stations[copy.to];
    SteadyMeans(s, init, w.stations, copy.to);
    ReceiveMeans(s, dice, st, copy.to, copy.from, at);
    var sent := New(copy.to, st.topic, Receive(s, dice, st, copy.from, at).value.topic);
    assert Other(s, s.data) == s;
    AfterArrival(s, w, i, dice, at);
    AfterArrival(s, Project(s, w), k, dice, at);
    MineConcat(s, Without(w.flight, i), sent);
    OwnCopies(s, copy.to, dice, View(st) - {copy.from}, sent);
  }

  lemma OwnCopies(s: Setting, p: PeerId, dice: Dice, others: set<PeerId>, sent: seq<Copy>)
    requires sent == [] || sent == CopiesTo(p, dice.order(others), Gossip(s.data))
    ensures Mine(s, sent) == sent
  {
    MineOfCopies(s, p, dice.order(others), s.data);
  }

  lemma OwnArrivalKeeps(s: Setting, init: Stations, w: World, i: nat, dice: Dice, at: nat)
    requires Ready(s, init) && TrafficInv(s, init, w) && s.c.optimal > 0
    requires Timely(s, w, Arrival(i, dice, at)) && w.flight[i].action == Gossip(s.data)
    ensures var v := Next(s, w, Arrival(i, dice, at));
            TrafficInv(s, init, v) && Measure(s, init, Project(s, v)) < Measure(s, init, Project(s, w))
  {
    hide Next, Gossiping.After, Ready, Spreading, Measure, Mine, Arrived, Steady, Heard, Times, Fair;
    var k := OwnArrivalProjects(s, init, w, i, dice, at);
    var small := Project(s, w);
    ArriveKeepsInv(s, init, small, k, dice, at);
    var sent := ArriveSteps(s, init, small, k, dice, at);
    var to, after := small.flight[k].to, Gossiping.After(s, small, Arrive(k, dice, at));
    ReceiverHasHeard(s, small, after, k, sent);
    CountedUpdate(s, init, w.stations, to, after.stations[to]);
  }

  lemma CountedUpdate(s: Setting, init: Stations, stations: Stations, p: PeerId, t: Station)
    requires CountedOnce(s, init, stations) && p in stations && Heard(s, t)
    requires t.topic.emitted == stations[p].topic.emitted + if Heard(s, stations[p]) then [] else [s.data]
    ensures CountedOnce(s, init, stations[p := t])
  {
    hide Heard;
    assert stations[p := t].Keys == stations.Keys;
  }

  lemma UnmovedKeeps(s: Setting, init: Stations, w: World, v: World)
    requires TrafficInv(s, init, w) && Steady(s, init, v.stations) && Unmoved(s, w, v)
    ensures TrafficInv(s, init, v) && Measure(s, init, Project(s, v)) == Measure(s, init, Project(s, w))
  {
    hide Heard, Spreading, Steady, Times, Mine;
    SameHearing(s, init, Project(s, w), v.stations);
    assert Project(s, w).(stations := v.stations) == Project(s, v);
    assert Left(s, v.stations) == Left(s, w.stations);
  }

  lemma ForgettingKeeps(s: Setting, init: Stations, w: World, p: PeerId, at: nat)
    requires TrafficInv(s, init, w) && s.c.optimal > 0 && Timely(s, w, Forgetting(p, at))
    ensures var v := Next(s, w, Forgetting(p, at));
            TrafficInv(s, init, v) && Measure(s, init, Project(s, v)) == Measure(s, init, Project(s, w))
  {
    hide Mine, Times, Steady, PruneStation, Heard, OnLinks, Covered, OnlyReachable;
    AfterForget(s, w, p, at);
    PruneKeepsHearing(s, init, w.stations, p, at);
    var v := Next(s, w, Forgetting(p, at));
    assert v.stations.Keys == w.stations.Keys;
    UnmovedKeeps(s, init, w, v);
  }

  lemma EventKeeps(s: Setting, init: Stations, w: World, event: Event)
    requires Ready(s, init) && TrafficInv(s, init, w) && s.c.optimal > 0 && Timely(s, w, event)
    ensures var v := Next(s, w, event);
            && TrafficInv(s, init, v)
            && Measure(s, init, Project(s, v)) + (if IsMine(s, w, event) then 1 else 0) <=
               Measure(s, init, Project(s, w))
  {
    assert Steady(s, init, w.stations);
    hide Next, Ready, TrafficInv, Measure, Steady, Unmoved;
    match event
    case Forgetting(p, at) => ForgettingKeeps(s, init, w, p, at);
    case Publishing(p, data, dice, at) =>
      ForeignPublishing(s, init, w, p, data, dice, at);
      UnmovedKeeps(s, init, w, Next(s, w, event));
    case Arrival(i, dice, at) =>
      if w.flight[i].action.data == s.data {
        OwnArrivalKeeps(s, init, w, i, dice, at);
      } else {
        ForeignArrival(s, init, w, i, dice, at);
        UnmovedKeeps(s, init, w, Next(s, w, event));
      }
  }

  // ---- Runs ----

  /** The world after a run of events; `None` once an event does not fit. */
  ghost function TrafficOf(s: Setting, w: World, run: seq<Event>): Option<World> {
    if run == [] then Some(w)
    else
      match TrafficOf(s, w, run[..|run| - 1])
      case None => None
      case Some(v) =>
        if s.c.optimal > 0 && Timely(s, v, run[|run| - 1]) then Some(Next(s, v, run[|run| - 1])) else None
  }

  /** How many arrivals of the message itself the run holds. */
  ghost function OwnArrivals(s: Setting, w: World, run: seq<Event>): nat {
    if run == [] then 0
    else
      var before := TrafficOf(s, w, run[..|run| - 1]);
      OwnArrivals(s, w, run[..|run| - 1]) + if before.Some? && IsMine(s, before.value, run[|run| - 1]) then 1 else 0
  }

  lemma {:induction false} TrafficKeepsInv(s: Setting, init: Stations, w: World, run: seq<Event>)
    requires Ready(s, init) && TrafficInv(s, init, w) && TrafficOf(s, w, run).Some?
    ensures var v := TrafficOf(s, w, run).value;
            && TrafficInv(s, init, v)
            && OwnArrivals(s, w, run) + Measure(s, init, Project(s, v)) <= Measure(s, init, Project(s, w))
  {
    hide TrafficInv, Ready, Timely, Measure, Next, IsMine;
    if run != [] {
      TrafficKeepsInv(s, init, w, run[..|run| - 1]);
      EventKeeps(s, init, TrafficOf(s, w, run[..|run| - 1]).value, run[|run| - 1]);
    }
  }

  /** The message is published among copies of other messages. */
  ghost function BeginAmong(s: Setting, init: Stations, dice: Dice, others: seq<Copy>): World
    requires s.origin in init && Fair(dice)
  {
    var w := Begin(s, init, dice);
    w.(flight := others + w.flight)
  }

  lemma BeginAmongIsInv(s: Setting, init: Stations, dice: Dice, others: seq<Copy>)
    requires Ready(s, init) && Fair(dice) && |s.data| <= s.c.maxTransmit && Mine(s, others) == []
    ensures Project(s, BeginAmong(s, init, dice, others)) == Begin(s, init, dice)
    ensures TrafficInv(s, init, BeginAmong(s, init, dice, others))
  {
    hide Mine, Begin, Fair, Spreading, Enumerates, CopiesTo, Wired, Heard, Times;
    var w := Begin(s, init, dice);
    BeginIsInv(s, init, dice);
    BeginMeans(s, init, dice);
    OwnCopies(s, s.origin, dice, View(init[s.origin]), w.flight);
    MineConcat(s, others, w.flight);
  }

  /**
   * Any number of other messages, with other digests, may be in flight or be published meanwhile: within one dedupe
   * interval the flooding of this one stops after a bounded number of its own arrivals; every node delivers it at most
   * once, and never if it cannot be reached; and once no copy of it is in flight, every node that can be reached from
   * the originator has delivered it exactly once, the originator at most once.
   */
  lemma DeliveredAmongOthers(s: Setting, init: Stations, dice: Dice, others: seq<Copy>, run: seq<Event>)
    requires Ready(s, init) && Fair(dice) && |s.data| <= s.c.maxTransmit && Mine(s, others) == []
    requires TrafficOf(s, BeginAmong(s, init, dice, others), run).Some?
    ensures OwnArrivals(s, BeginAmong(s, init, dice, others), run) <=
            |View(init[s.origin])| + SumOn(init.Keys, Degrees(init))
    ensures var w := TrafficOf(s, BeginAmong(s, init, dice, others), run).value;
            && w.stations.Keys == init.Keys
            && forall p :: p in init ==>
                 var before, after := Times(init[p].topic.emitted, s.data), Times(w.stations[p].topic.emitted, s.data);
                 && before <= after <= before + 1
                 && (!Reachable(init, s.origin, p) ==> after == before)
                 && (Mine(s, w.flight) == [] && Reachable(init, s.origin, p) && p != s.origin ==> after == before + 1)
  {
    assert s.origin in init;
    hide TrafficOf, Begin, BeginAmong, Ready, Reachable, Fair, Mine, Spreading, Measure, OwnArrivals, Times;
    var start := BeginAmong(s, init, dice, others);
    BeginAmongIsInv(s, init, dice, others);
    BeginIsInv(s, init, dice);
    TrafficKeepsInv(s, init, start, run);
    var w := TrafficOf(s, start, run).value;
    MeasureAtEnds(s, init, Begin(s, init, dice), Project(s, w));
    forall p | p in init
      ensures var before, after := Times(init[p].topic.emitted, s.data), Times(w.stations[p].topic.emitted, s.data);
              && before <= after <= before + 1
              && (!Reachable(init, s.origin, p) ==> after == before)
              && (Mine(s, w.flight) == [] && Reachable(init, s.origin, p) && p != s.origin ==> after == before + 1)
    {
      HeardAt(s, init, Project(s, w), p);
    }
  }

  lemma MeasureAtEnds(s: Setting, init: Stations, start: World, w: World)
    requires s.origin in init && |start.flight| == |View(init[s.origin])| && Left(s, start.stations) == init.Keys
    ensures Measure(s, init, start) == |View(init[s.origin])| + SumOn(init.Keys, Degrees(init))
    ensures Measure(s, init, w) >= 0
  {
    SumIsNatural(Left(s, w.stations), Degrees(init));
  }

  lemma HeardAt(s: Setting, init: Stations, w: World, p: PeerId)
    requires Ready(s, init) && Spreading(s, init, w) && p in init
    ensures p in w.stations
    ensures Heard(s, w.stations[p]) && p != s.origin ==> Reachable(init, s.origin, p)
    ensures !Reachable(init, s.origin, p) ==> !Heard(s, w.stations[p])
    ensures w.flight == [] && Reachable(init, s.origin, p) && p != s.origin ==> Heard(s, w.stations[p])
  {
    hide Heard, Wired, OnLinks, Covered, Reachable, Ready;
    if w.flight == [] && Reachable(init, s.origin, p) {
      SpreadEverywhere(s, init, w, p);
    }
  }
}
