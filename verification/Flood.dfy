/** Forwarded joins and shuffles are flooded with a hop counter: every flood dies out, whatever the views do. */
module Flood {
  import opened Cache
  import opened Sequences
  import opened Topic
  import opened Views
  import opened Wire

  /** A copy on its way from one node to another. */
  datatype Copy = Copy(from: PeerId, to: PeerId, action: Action)

  predicate Floods(action: Action) {
    action.ForwardJoin? || action.Shuffle?
  }

  function Hop(action: Action): nat
    requires Floods(action)
  {
    match action
    case ForwardJoin(hop, _) => hop
    case Shuffle(hop, _, _) => hop
  }

  /** The action a node passes on. */
  function Next(action: Action): Action
    requires Floods(action)
  {
    match action
    case ForwardJoin(hop, node) => ForwardJoin(hop + 1, node)
    case Shuffle(hop, origin, peers) => Shuffle(hop + 1, origin, peers)
  }

  function FloodOnly(): Action -> bool {
    action => Floods(action)
  }

  predicate IsCopy(command: TopicCommand, kind: Action -> bool) {
    command.Send? && kind(command.action)
  }

  /** The copies of one kind among the commands of a node. */
  function CopiesIn(from: PeerId, commands: seq<TopicCommand>, kind: Action -> bool): seq<Copy> {
    if commands == [] then []
    else
      var front, last := CopiesIn(from, commands[..|commands| - 1], kind), commands[|commands| - 1];
      if IsCopy(last, kind) then front + [Copy(from, last.peer, last.action)] else front
  }

  function CopiesTo(from: PeerId, order: seq<PeerId>, action: Action): seq<Copy> {
    seq(|order|, i requires 0 <= i < |order| => Copy(from, order[i], action))
  }

  ghost predicate Quiet(n: Node, t: Node) {
    n.sent <= t.sent && forall i :: |n.sent| <= i < |t.sent| ==> !IsCopy(t.sent[i], FloodOnly())
  }

  lemma {:induction false} QuietCopies(from: PeerId, commands: seq<TopicCommand>, kind: Action -> bool)
    requires forall i :: 0 <= i < |commands| ==> !IsCopy(commands[i], kind)
    ensures CopiesIn(from, commands, kind) == []
  {
    if commands != [] {
      QuietCopies(from, commands[..|commands| - 1], kind);
    }
  }

  lemma {:induction false} BroadcastCopies(from: PeerId, before: seq<TopicCommand>, order: seq<PeerId>,
                                           active: map<PeerId, Link>, action: Action, kind: Action -> bool)
    requires forall i :: 0 <= i < |order| ==> order[i] in active
    requires forall i :: 0 <= i < |before| ==> !IsCopy(before[i], kind)
    requires kind(action)
    ensures CopiesIn(from, before + Copies(order, active, action), kind) == CopiesTo(from, order, action)
  {
    var commands := before + Copies(order, active, action);
    if order == [] {
      assert commands == before;
      QuietCopies(from, before, kind);
    } else {
      var front := order[..|order| - 1];
      BroadcastCopies(from, before, front, active, action, kind);
      assert commands[..|commands| - 1] == before + Copies(front, active, action);
    }
  }

  // ---- What one node passes on ----

  lemma ForwardJoinPassesOn(c: Config, dice: Dice, n: Node, sender: PeerId, hop: nat, node: AddressablePeer, now: nat)
    requires Fair(dice)
    ensures var t := OnForwardJoin(c, dice, n, sender, hop, node, now);
            PassesOn(c, dice, n, t, sender, ForwardJoin(hop, node))
  {
    hide Fair, Broadcast, AddPassive, Hangup, TryNeighbour, MakeRoom, CopiesIn, Enumerates;
    if sender in n.active && sender != node.id && node.id != n.self.id {
      var known := AddPassive(c, dice, 0, n, node);
      AddPassiveIsSilent(c, dice, 0, n, node);
      NeighbouringDialsOnly(c, known, node, now);
      if hop >= c.walkLength {
        if Full(c, known) {
          RoomIsQuiet(c, dice, known, now);
          NeighbouringDialsOnly(c, MakeRoom(c, dice, known, now), node, now);
        }
      } else {
        var tried := if Full(c, known) then known else TryNeighbour(c, known, node, now);
        BroadcastPassesOn(c, dice, n, tried, sender, ForwardJoin(hop, node));
      }
    }
    var t := OnForwardJoin(c, dice, n, sender, hop, node, now);
    if Quiet(n, t) {
      QuietCopies(n.self.id, t.sent[|n.sent|..], FloodOnly());
    }
  }

  /**
   * An honest join of a peer that is not active yet starts one flood: a first hop to every active peer, and nothing
   * else does.
   */
  lemma JoinStartsFlood(c: Config, dice: Dice, n: Node, sender: PeerId, node: AddressablePeer, id: ConnectionId,
                        now: nat)
    requires Fair(dice)
    ensures var t := OnJoin(c, dice, n, sender, node, id, now);
            && n.sent <= t.sent
            && var copies := CopiesIn(n.self.id, t.sent[|n.sent|..], FloodOnly());
               if sender == node.id && sender !in n.active
               then Enumerates(dice.order(n.active.Keys), n.active.Keys)
                    && copies == CopiesTo(n.self.id, dice.order(n.active.Keys), ForwardJoin(1, node))
               else copies == []
  {
    var t := OnJoin(c, dice, n, sender, node, id, now);
    if sender == node.id && sender !in n.active {
      var begun := Broadcast(dice, n, {}, ForwardJoin(1, node));
      RestOfJoinIsQuiet(c, dice, begun, sender, node, id, now);
      hide Hangup, TryNeighbour, AddPassive, CopiesIn, Enumerates, Broadcast, Fair, Quiet;
      FloodThenQuiet(dice, n, t, ForwardJoin(1, node));
    } else {
      QuietCopies(n.self.id, t.sent[|n.sent|..], FloodOnly());
    }
  }

  lemma RestOfJoinIsQuiet(c: Config, dice: Dice, n: Node, sender: PeerId, node: AddressablePeer, id: ConnectionId,
                          now: nat)
    ensures var closed := Hangup(c, n, sender, id, now);
            var tried := if Full(c, closed) then closed else TryNeighbour(c, closed, node, now);
            Quiet(n, AddPassive(c, dice, 0, tried, node))
  {
    hide Hangup, TryNeighbour, AddPassive;
    var closed := Hangup(c, n, sender, id, now);
    var tried := if Full(c, closed) then closed else TryNeighbour(c, closed, node, now);
    HangupOnlyCloses(c, n, sender, id, now);
    NeighbouringDialsOnly(c, closed, node, now);
    AddPassiveIsSilent(c, dice, 0, tried, node);
  }

  lemma FloodThenQuiet(dice: Dice, n: Node, t: Node, action: Action)
    requires Fair(dice) && Floods(action) && Quiet(Broadcast(dice, n, {}, action), t)
    ensures n.sent <= t.sent && Enumerates(dice.order(n.active.Keys), n.active.Keys)
    ensures CopiesIn(n.self.id, t.sent[|n.sent|..], FloodOnly()) ==
        CopiesTo(n.self.id, dice.order(n.active.Keys), action)
  {
    var order := dice.order(n.active.Keys);
    assert n.active.Keys - {} == n.active.Keys;
    assert Enumerates(order, n.active.Keys);
    hide Fair, CopiesIn, Enumerates;
    var copies := Copies(order, n.active, action);
    var begun := n.sent + copies;
    var after := t.sent[|begun|..];
    assert t.sent[|n.sent|..] == copies + after;
    BroadcastCopies(n.self.id, [], order, n.active, action, FloodOnly());
    assert [] + copies == copies;
    QuietTail(n.self.id, copies, after, FloodOnly());
  }

  lemma {:induction false} QuietTail(from: PeerId, commands: seq<TopicCommand>, tail: seq<TopicCommand>,
                                     kind: Action -> bool)
    requires forall i :: 0 <= i < |tail| ==> !IsCopy(tail[i], kind)
    ensures CopiesIn(from, commands + tail, kind) == CopiesIn(from, commands, kind)
  {
    if tail == [] {
      assert commands + tail == commands;
    } else {
      QuietTail(from, commands, tail[..|tail| - 1], kind);
      assert (commands + tail)[..|commands + tail| - 1] == commands + tail[..|tail| - 1];
    }
  }

  lemma AddPassiveIsSilent(c: Config, dice: Dice, k: nat, n: Node, peer: AddressablePeer)
    ensures AddPassive(c, dice, k, n, peer).sent == n.sent
  {
  }

  lemma RoomIsQuiet(c: Config, dice: Dice, n: Node, now: nat)
    requires Fair(dice) && n.active != map[]
    ensures Quiet(n, MakeRoom(c, dice, n, now))
  {
    hide AddPassive;
    var p := dice.pick(1, n.active.Keys);
    PickIsMember(dice, 1, n.active.Keys);
    hide Fair;
    AddPassiveIsSilent(c, dice, 2, Hangup(c, n, p, n.active[p].id, now), AddressablePeer(p, n.active[p].addresses));
  }

  /** Only active senders are listened to, and a join is not passed on by its origin nor when it came back to it. */
  predicate Heeds(n: Node, sender: PeerId, action: Action) {
    sender in n.active && (action.ForwardJoin? ==> sender != action.node.id && action.node.id != n.self.id)
  }

  /** Before the last hop a heeded action goes on, one hop further, to exactly the active peers but the sender. */
  ghost predicate PassesOn(c: Config, dice: Dice, n: Node, t: Node, sender: PeerId, action: Action)
    requires Floods(action)
  {
    && n.sent <= t.sent
    && var copies, others := CopiesIn(n.self.id, t.sent[|n.sent|..], FloodOnly()), n.active.Keys - {sender};
       if Heeds(n, sender, action) && Hop(action) < c.walkLength
       then Enumerates(dice.order(others), others) && copies == CopiesTo(n.self.id, dice.order(others), Next(action))
       else copies == []
  }

  lemma BroadcastPassesOn(c: Config, dice: Dice, n: Node, m: Node, sender: PeerId, action: Action)
    requires Fair(dice) && Floods(action) && Quiet(n, m) && m.active == n.active && Hop(action) < c.walkLength
    requires Heeds(n, sender, action)
    ensures PassesOn(c, dice, n, Broadcast(dice, m, {sender}, Next(action)), sender, action)
  {
    var others := n.active.Keys - {sender};
    var order := dice.order(others);
    assert Enumerates(order, others);
    hide Fair;
    var t := Broadcast(dice, m, {sender}, Next(action));
    assert t.sent == m.sent + Copies(order, n.active, Next(action));
    var before := m.sent[|n.sent|..];
    assert t.sent[|n.sent|..] == before + Copies(order, n.active, Next(action));
    BroadcastCopies(n.self.id, before, order, n.active, Next(action), FloodOnly());
  }

  lemma ShufflePassesOn(c: Config, dice: Dice, n: Node, sender: PeerId, hop: nat, origin: AddressablePeer, peers: Peers,
                        now: nat)
    requires Fair(dice)
    ensures var t := OnShuffle(c, dice, n, sender, hop, origin, peers, now);
            PassesOn(c, dice, n, t, sender, Shuffle(hop, origin, peers))
  {
    hide Fair, Broadcast, Answer, Reply, Reshuffled, CopiesIn, Enumerates;
    if sender in n.active {
      var mixed := n.(passive := Reshuffled(c, dice, n, peers));
      var answered := Answer(c, mixed, origin, Reply(c, dice, n, peers), now);
      AnswerIsQuiet(c, mixed, origin, Reply(c, dice, n, peers), now);
      if hop < c.walkLength {
        BroadcastPassesOn(c, dice, n, answered, sender, Shuffle(hop, origin, peers));
      }
    }
    var t := OnShuffle(c, dice, n, sender, hop, origin, peers, now);
    if Quiet(n, t) {
      QuietCopies(n.self.id, t.sent[|n.sent|..], FloodOnly());
    }
  }

  lemma AnswerIsQuiet(c: Config, n: Node, origin: AddressablePeer, reply: Peers, now: nat)
    ensures Quiet(n, Answer(c, n, origin, reply, now))
  {
    hide DialAll;
    DialsOnly(c, n.(replies := n.replies[origin.id := Stamped(reply, now)]), origin.addresses, now);
  }

  // ---- The flood as a whole ----

  function Power(base: nat, exponent: nat): nat {
    if exponent == 0 then 1 else base * Power(base, exponent - 1)
  }

  lemma {:induction false} PowerIsPositive(base: nat, exponent: nat)
    requires base > 0
    ensures Power(base, exponent) > 0
  {
    if exponent > 0 {
      PowerIsPositive(base, exponent - 1);
      assert base * Power(base, exponent - 1) >= 1 * Power(base, exponent - 1);
    }
  }

  /** With `size` nodes a copy can give rise to fewer than this many deliveries. */
  function Weight(c: Config, size: nat, copy: Copy): nat
    requires Floods(copy.action)
  {
    if Hop(copy.action) < c.walkLength then Power(size, c.walkLength - Hop(copy.action)) else 1
  }

  predicate AllFlood(copies: seq<Copy>) {
    forall i :: 0 <= i < |copies| ==> Floods(copies[i].action)
  }

  function Potential(c: Config, size: nat, copies: seq<Copy>): nat
    requires AllFlood(copies)
  {
    if copies == [] then 0 else Weight(c, size, copies[0]) + Potential(c, size, copies[1..])
  }

  /**
   * One delivery: which copy in flight, and the state of its receiver at that moment, whatever it is; or the copy is
   * dropped on arrival as a duplicate.
   */
  datatype Delivery = Delivery(index: nat, receiver: Node, dice: Dice, at: nat) | Drop(index: nat)

  ghost predicate Possible(nodes: set<PeerId>, copies: seq<Copy>, d: Delivery) {
    && d.index < |copies|
    && (d.Delivery? ==> && Fair(d.dice) && d.receiver.self.id == copies[d.index].to && copies[d.index].to in nodes
                        && d.receiver.active.Keys <= nodes - {copies[d.index].to})
  }

  function Without(copies: seq<Copy>, i: nat): seq<Copy>
    requires i < |copies|
  {
    copies[..i] + copies[i + 1..]
  }

  function Handle(c: Config, n: Node, copy: Copy, dice: Dice, now: nat): Node
    requires Fair(dice) && Floods(copy.action)
  {
    match copy.action
    case ForwardJoin(hop, node) => OnForwardJoin(c, dice, n, copy.from, hop, node, now)
    case Shuffle(hop, origin, peers) => OnShuffle(c, dice, n, copy.from, hop, origin, peers, now)
  }

  /** The copies in flight after a delivery: the receiver may add the ones it sends. */
  function After(c: Config, nodes: set<PeerId>, copies: seq<Copy>, d: Delivery): seq<Copy>
    requires AllFlood(copies) && Possible(nodes, copies, d)
  {
    match d
    case Drop(i) => Without(copies, i)
    case Delivery(i, receiver, dice, now) =>
      var t := Handle(c, receiver, copies[i], dice, now);
      if receiver.sent <= t.sent
          then Without(copies, i) + CopiesIn(receiver.self.id, t.sent[|receiver.sent|..], FloodOnly()) else copies
  }

  lemma {:induction false} PotentialSplits(c: Config, size: nat, xs: seq<Copy>, ys: seq<Copy>)
    requires AllFlood(xs) && AllFlood(ys)
    ensures AllFlood(xs + ys) && Potential(c, size, xs + ys) == Potential(c, size, xs) + Potential(c, size, ys)
  {
    if xs == [] {
      assert xs + ys == ys;
    } else {
      PotentialSplits(c, size, xs[1..], ys);
      assert (xs + ys)[1..] == xs[1..] + ys;
    }
  }

  lemma PotentialWithout(c: Config, size: nat, copies: seq<Copy>, i: nat)
    requires AllFlood(copies) && i < |copies|
    ensures AllFlood(Without(copies, i))
    ensures Potential(c, size, copies) == Weight(c, size, copies[i]) + Potential(c, size, Without(copies, i))
  {
    PotentialSplits(c, size, copies[..i], copies[i..]);
    PotentialSplits(c, size, copies[..i], copies[i + 1..]);
    assert copies == copies[..i] + copies[i..];
    assert copies[i..][1..] == copies[i + 1..];
  }

  lemma {:induction false} PotentialOfEqual(c: Config, size: nat, copies: seq<Copy>, action: Action, weight: nat)
    requires forall i :: 0 <= i < |copies| ==> copies[i].action == action
    requires Floods(action) && Weight(c, size, Copy(0, 0, action)) == weight
    ensures Potential(c, size, copies) == |copies| * weight
  {
    if copies != [] {
      PotentialOfEqual(c, size, copies[1..], action, weight);
      assert |copies| * weight == weight + |copies[1..]| * weight;
    }
  }

  lemma {:induction false} EnumerationSize(order: seq<PeerId>, peers: set<PeerId>)
    requires Enumerates(order, peers)
    ensures |order| == |peers|
  {
    if order == [] {
      assert peers == {};
    } else {
      var last := order[|order| - 1];
      var front := order[..|order| - 1];
      forall p | p in peers - {last} ensures p in front {
        var k :| 0 <= k < |order| && order[k] == p;
        assert front[k] == p;
      }
      EnumerationSize(front, peers - {last});
    }
  }

  /** Fewer than `size` copies, each one hop further, weigh less than the copy they come from. */
  lemma ForwardedWeighLess(c: Config, size: nat, copy: Copy, sent: seq<Copy>)
    requires Floods(copy.action) && Hop(copy.action) < c.walkLength && |sent| < size
    requires forall i :: 0 <= i < |sent| ==> sent[i].action == Next(copy.action)
    ensures AllFlood(sent) && Potential(c, size, sent) < Weight(c, size, copy)
  {
    hide Power;
    var action, rest := Next(copy.action), c.walkLength - Hop(copy.action) - 1;
    var weight := Power(size, rest);
    assert rest == 0 ==> weight == 1 by { PowerOfNothing(size, rest); }
    PotentialOfEqual(c, size, sent, action, weight);
    PowerIsPositive(size, rest);
    PowerGrows(size, rest);
    TimesLess(|sent|, size, weight);
  }

  lemma PowerOfNothing(base: nat, exponent: nat)
    ensures exponent == 0 ==> Power(base, exponent) == 1
  {
  }

  lemma PowerGrows(base: nat, exponent: nat)
    ensures Power(base, exponent + 1) == base * Power(base, exponent)
  {
  }

  lemma TimesLess(x: nat, y: nat, weight: nat)
    requires x < y && weight > 0
    ensures x * weight < y * weight
  {
  }

  lemma HandlePassesOn(c: Config, n: Node, copy: Copy, dice: Dice, now: nat)
    requires Fair(dice) && Floods(copy.action)
    ensures PassesOn(c, dice, n, Handle(c, n, copy, dice, now), copy.from, copy.action)
  {
    match copy.action {
      case ForwardJoin(hop, node) => ForwardJoinPassesOn(c, dice, n, copy.from, hop, node, now);
      case Shuffle(hop, origin, peers) => ShufflePassesOn(c, dice, n, copy.from, hop, origin, peers, now);
    }
  }

  /** Every delivery strictly lowers the potential, whatever the receiver's view is. */
  lemma DeliveryLowersPotential(c: Config, nodes: set<PeerId>, copies: seq<Copy>, d: Delivery)
    requires AllFlood(copies) && Possible(nodes, copies, d)
    ensures AllFlood(After(c, nodes, copies, d))
    ensures |nodes| > 0 ==> Potential(c, |nodes|, After(c, nodes, copies, d)) < Potential(c, |nodes|, copies)
  {
    var copy := copies[d.index];
    if d.Delivery? {
      var n := d.receiver;
      HandlePassesOn(c, n, copy, d.dice, d.at);
      hide Handle, CopiesIn, Potential, Weight, Fair;
      var sent := CopiesIn(n.self.id, Handle(c, n, copy, d.dice, d.at).sent[|n.sent|..], FloodOnly());
      if sent != [] {
        var others := n.active.Keys - {copy.from};
        EnumerationSize(d.dice.order(others), others);
        FewerThan(others, nodes, copy.to);
      }
      ReplacedByLess(c, nodes, copies, d.index, sent);
    } else {
      ReplacedByLess(c, nodes, copies, d.index, []);
      assert Without(copies, d.index) + [] == Without(copies, d.index);
    }
  }

  lemma ReplacedByLess(c: Config, nodes: set<PeerId>, copies: seq<Copy>, i: nat, sent: seq<Copy>)
    requires AllFlood(copies) && i < |copies|
    requires sent == [] || (Hop(copies[i].action) < c.walkLength && |sent| < |nodes|)
    requires forall k :: 0 <= k < |sent| ==> sent[k].action == Next(copies[i].action)
    ensures AllFlood(Without(copies, i) + sent)
    ensures |nodes| > 0 ==> Potential(c, |nodes|, Without(copies, i) + sent) < Potential(c, |nodes|, copies)
  {
    hide Potential, Weight, Without;
    var rest := Without(copies, i);
    PotentialWithout(c, |nodes|, copies, i);
    if sent == [] {
      assert rest + sent == rest;
      if |nodes| > 0 {
        WeightIsPositive(c, |nodes|, copies[i]);
      }
    } else {
      ForwardedWeighLess(c, |nodes|, copies[i], sent);
      PotentialSplits(c, |nodes|, rest, sent);
    }
  }

  lemma WeightIsPositive(c: Config, size: nat, copy: Copy)
    requires size > 0 && Floods(copy.action)
    ensures Weight(c, size, copy) > 0
  {
    if Hop(copy.action) < c.walkLength {
      PowerIsPositive(size, c.walkLength - Hop(copy.action));
    }
  }

  lemma FewerThan(some: set<PeerId>, all: set<PeerId>, missing: PeerId)
    requires some <= all - {missing} && missing in all
    ensures |some| < |all|
  {
    Fewer(some, all - {missing});
  }

  lemma {:induction false} Fewer(some: set<PeerId>, all: set<PeerId>)
    requires some <= all
    ensures |some| <= |all|
  {
    if some != {} {
      var p :| p in some;
      Fewer(some - {p}, all - {p});
    }
  }

  ghost predicate PossibleRun(c: Config, nodes: set<PeerId>, copies: seq<Copy>, run: seq<Delivery>)
    requires AllFlood(copies)
    decreases run
  {
    run == [] ||
    (Possible(nodes, copies, run[0])
     && AllFlood(After(c, nodes, copies, run[0])) && PossibleRun(c, nodes, After(c, nodes, copies, run[0]), run[1..]))
  }

  /** A flood dies out: no run has more deliveries than the potential of the copies it starts with. */
  lemma {:induction false} FloodsDieOut(c: Config, nodes: set<PeerId>, copies: seq<Copy>, run: seq<Delivery>)
    requires |nodes| > 0 && AllFlood(copies) && PossibleRun(c, nodes, copies, run)
    ensures |run| <= Potential(c, |nodes|, copies)
    decreases run
  {
    if run != [] {
      DeliveryLowersPotential(c, nodes, copies, run[0]);
      FloodsDieOut(c, nodes, After(c, nodes, copies, run[0]), run[1..]);
    }
  }

  predicate HopsWithin(copies: seq<Copy>, limit: nat)
    requires AllFlood(copies)
  {
    forall i :: 0 <= i < |copies| ==> Hop(copies[i].action) <= limit
  }

  lemma ReplacedWithin(copies: seq<Copy>, i: nat, sent: seq<Copy>, limit: nat)
    requires AllFlood(copies) && AllFlood(sent) && i < |copies| && HopsWithin(copies, limit) && HopsWithin(sent, limit)
    ensures AllFlood(Without(copies, i) + sent) && HopsWithin(Without(copies, i) + sent, limit)
  {
  }

  /**
   * The hop counter of a copy that is passed on never exceeds the walk length, so 16 bits hold it if they hold that.
   */
  lemma HopsStayInRange(c: Config, nodes: set<PeerId>, copies: seq<Copy>, d: Delivery, limit: nat)
    requires AllFlood(copies) && Possible(nodes, copies, d) && c.walkLength <= limit && HopsWithin(copies, limit)
    ensures AllFlood(After(c, nodes, copies, d)) && HopsWithin(After(c, nodes, copies, d), limit)
  {
    if d.Delivery? {
      HandlePassesOn(c, d.receiver, copies[d.index], d.dice, d.at);
      hide Handle, CopiesIn, Fair, Enumerates, Heeds, Without;
      var sent := CopiesIn(d.receiver.self.id,
                           Handle(c, d.receiver, copies[d.index], d.dice, d.at).sent[|d.receiver.sent|..], FloodOnly());
      ReplacedWithin(copies, d.index, sent, limit);
    } else {
      ReplacedWithin(copies, d.index, [], limit);
      assert Without(copies, d.index) + [] == Without(copies, d.index);
    }
  }
}
