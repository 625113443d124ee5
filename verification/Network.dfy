/** The network object: it routes connections and messages to topics. */
module Network {
  import opened Cache
  import opened Muxer
  import opened Sequences
  import opened Wire
  import opened Wrappers

  datatype TopicEvent =
    | MessageReceived(from: PeerId, msg: Message, id: ConnectionId)
    | LocalAddressDiscovered(addr: Multiaddr)
    | PeerConnected(peer: AddressablePeer, id: ConnectionId)
    | PeerDisconnected(from: PeerId, id: ConnectionId)
    | Tick

  datatype Delivery = Delivery(topic: TopicName, event: TopicEvent)

  datatype RunloopCommand =
    | Connect(addr: Multiaddr)
    | CloseConnection(peer: PeerId, id: ConnectionId)
    | SendMessage(peer: PeerId, id: ConnectionId, msg: Message)
    | BanPeer(peer: PeerId)

  type History = Entries<nat, ()>

  /** `log` holds the events given to topics, `commands` what was sent to the run loop. */
  datatype Net = Net(mux: Mux, history: Option<History>, topics: set<TopicName>, addresses: set<Multiaddr>,
                     log: seq<Delivery>, commands: seq<RunloopCommand>)

  /** The pending timeout, the dedupe interval and the message digest. */
  datatype Settings = Settings(timeout: nat, dedupe: nat, digest: Message -> nat)

  datatype NetworkError = TopicAlreadyJoined(name: TopicName)

  // ---- What each operation does; `None` stands for a panic ----

  function Deliver(n: Net, topic: TopicName, event: TopicEvent): Net {
    n.(log := n.log + [Delivery(topic, event)])
  }

  function Command(n: Net, command: RunloopCommand): Net {
    n.(commands := n.commands + [command])
  }

  function TryDial(cfg: Settings, n: Net, addr: Multiaddr, topic: TopicName, now: nat): Net {
    if CanDial(n.mux, cfg.timeout, addr, topic, now)
    then Command(n.(mux := StartDial(n.mux, cfg.timeout, addr, topic, now)), Connect(addr))
    else n
  }

  function BeginConnect(cfg: Settings, n: Net, addr: Multiaddr, topic: TopicName, now: nat): Net {
    TryDial(cfg, n.(mux := PutDial(n.mux, addr, topic)), addr, topic, now)
  }

  /** The first of the addresses that the topic still waits to dial, if any. */
  function DialNextOf(cfg: Settings, n: Net, addresses: Addresses, topic: TopicName, now: nat): (r: Net)
    ensures r == n.(mux := r.mux, commands := r.commands)
    ensures r.mux == n.mux.(requested := r.mux.requested, ongoing := r.mux.ongoing)
  {
    if addresses == [] then n
    else if CanDial(n.mux, cfg.timeout, addresses[0], topic, now) then TryDial(cfg, n, addresses[0], topic, now)
    else DialNextOf(cfg, n, addresses[1..], topic, now)
  }

  function CompleteConnect(cfg: Settings, n: Net, peer: AddressablePeer, id: ConnectionId, dialer: bool,
                           now: nat): Option<Net> {
    if !dialer then Some(n.(mux := Register(n.mux, peer, id)))
    else
      var (mux, matched) := MatchDial(n.mux, cfg.timeout, peer, id, now);
      match matched
      case None => None
      case Some(topic) =>
        var next := DialNextOf(cfg, n.(mux := mux), peer.addresses, topic, now);
        if topic in n.topics then Some(Deliver(next, topic, PeerConnected(peer, id))) else None
  }

  function CompleteDisconnect(n: Net, peer: PeerId, id: ConnectionId): Option<Net> {
    match Resolve(n.mux, peer, id)
    case None => Some(n.(mux := Disconnect(n.mux, peer, id)))
    case Some(topic) =>
      if topic in n.topics
      then Some(Deliver(n, topic, PeerDisconnected(peer, id)).(mux := Disconnect(n.mux, peer, id)))
      else None
  }

  /** Routing a message that is no duplicate. */
  function Route(n: Net, from: PeerId, id: ConnectionId, msg: Message): Option<Net> {
    var (mux, first) := Assign(n.mux, from, id, msg.topic);
    var connected := n.(mux := mux, log := match first
      case None => n.log
      case Some(peer) => n.log + [Delivery(msg.topic, PeerConnected(peer, id))]);
    match Resolve(mux, from, id)
    case None => None
    case Some(topic) =>
      Some(if topic == msg.topic then Deliver(connected, topic, MessageReceived(from, msg, id))
           else Command(connected, BanPeer(from)))
  }

  predicate Duplicate(cfg: Settings, n: Net, msg: Message, now: nat) {
    n.history.Some? && Get(n.history.value, cfg.dedupe, cfg.digest(msg), now).Some?
  }

  /** Every arrival on a joined topic is remembered, duplicates included. */
  function Remember(cfg: Settings, n: Net, msg: Message, now: nat): Net {
    match n.history
    case None => n
    case Some(history) => n.(history := Some(history[cfg.digest(msg) := Stamped((), now)]))
  }

  function AcceptMessage(cfg: Settings, n: Net, from: PeerId, id: ConnectionId, msg: Message, now: nat): Option<Net> {
    if msg.topic !in n.topics then Some(Command(n, CloseConnection(from, id)))
    else if Duplicate(cfg, n, msg, now) then Some(Remember(cfg, n, msg, now))
    else Route(Remember(cfg, n, msg, now), from, id, msg)
  }

  function ToAll(order: seq<TopicName>, event: TopicEvent): seq<Delivery> {
    seq(|order|, i requires 0 <= i < |order| => Delivery(order[i], event))
  }

  function AppendLocalAddress(n: Net, addr: Multiaddr, order: seq<TopicName>): Net {
    n.(addresses := n.addresses + {addr}, log := n.log + ToAll(order, LocalAddressDiscovered(addr)))
  }

  function TickAll(cfg: Settings, n: Net, order: seq<TopicName>, dial: Option<(TopicName, Multiaddr)>, now: nat): Net {
    var pruned := n.(log := n.log + ToAll(order, Tick),
                     mux := n.mux.(ongoing := Pruned(n.mux.ongoing, cfg.timeout, now)),
                     history := if n.history.None? then None else Some(Pruned(n.history.value, cfg.dedupe, now)));
    if dial.None? then pruned else TryDial(cfg, pruned, dial.value.1, dial.value.0, now)
  }

  // ---- The network object ----

  class Router {
    const cfg: Settings
    const muxer: Multiplexer
    var history: Option<History>
    var topics: set<TopicName>
    var addresses: set<Multiaddr>
    var log: seq<Delivery>
    var commands: seq<RunloopCommand>

    ghost function View(): Net
      reads this, muxer
    {
      Net(muxer.View(), history, topics, addresses, log, commands)
    }

    ghost predicate Valid()
      reads this, muxer
    {
      muxer.timeout == cfg.timeout && forall ip :: ip in muxer.requested ==> muxer.requested[ip] != map[]
    }

    constructor (cfg: Settings, dedupes: bool)
      ensures Valid() && this.cfg == cfg && fresh(muxer)
      ensures View() == Net(Mux(map[], map[], map[], map[]), if dedupes then Some(map[]) else None, {}, {}, [], [])
    {
      this.cfg := cfg;
      muxer := new Multiplexer(cfg.timeout);
      history := if dedupes then Some(map[]) else None;
      topics, addresses, log, commands := {}, {}, [], [];
    }

    method JoinTopic(name: TopicName) returns (r: Result<(), NetworkError>)
      requires Valid()
      modifies this
      ensures Valid()
      ensures r == if name in old(topics) then Err(TopicAlreadyJoined(name)) else Ok(())
      ensures View() == old(View()).(topics := old(topics) + {name})
    {
      if name in topics {
        return Err(TopicAlreadyJoined(name));
      }
      topics := topics + {name};
      return Ok(());
    }

    method BeginConnection(addr: Multiaddr, topic: TopicName, now: nat)
      requires Valid()
      modifies this, muxer
      ensures Valid()
      ensures View() == BeginConnect(cfg, old(View()), addr, topic, now)
    {
      muxer.RequestDial(addr, topic);
      var started := muxer.NextDial(addr, topic, now);
      if started {
        commands := commands + [Connect(addr)];
      }
    }

    method CompleteConnection(peer: AddressablePeer, id: ConnectionId, dialer: bool, now: nat) returns (panics: bool)
      requires Valid()
      modifies this, muxer
      ensures CompleteConnect(cfg, old(View()), peer, id, dialer, now) == if panics then None else Some(View())
      ensures !panics ==> Valid()
    {
      if !dialer {
        muxer.RegisterConnection(peer, id);
        return false;
      }
      var matched := muxer.TakeDial(peer, id, now);
      if matched.None? {
        return true;
      }
      var topic := matched.value;
      DialAgain(peer.addresses, topic, now);
      if topic !in topics {
        return true;
      }
      log := log + [Delivery(topic, PeerConnected(peer, id))];
      return false;
    }

    method DialAgain(addrs: Addresses, topic: TopicName, now: nat)
      requires Valid()
      modifies this, muxer
      ensures Valid()
      ensures View() == DialNextOf(cfg, old(View()), addrs, topic, now)
    {
      ghost var n := View();
      for i := 0 to |addrs|
        invariant Valid() && View() == n
        invariant DialNextOf(cfg, n, addrs, topic, now) == DialNextOf(cfg, n, addrs[i..], topic, now)
      {
        var started := muxer.NextDial(addrs[i], topic, now);
        if started {
          commands := commands + [Connect(addrs[i])];
          return;
        }
        assert addrs[i..][1..] == addrs[i + 1..];
      }
    }

    method CompleteDisconnection(peer: PeerId, id: ConnectionId) returns (panics: bool)
      requires Valid()
      modifies this, muxer
      ensures CompleteDisconnect(old(View()), peer, id) == if panics then None else Some(View())
      ensures !panics ==> Valid()
    {
      var topic := Resolve(Mux(muxer.assignments, map[], map[], map[]), peer, id);
      if topic.Some? {
        if topic.value !in topics {
          return true;
        }
        log := log + [Delivery(topic.value, PeerDisconnected(peer, id))];
      }
      muxer.DropConnection(peer, id);
      return false;
    }

    method Accept(from: PeerId, id: ConnectionId, msg: Message, now: nat) returns (panics: bool)
      requires Valid()
      modifies this, muxer
      ensures AcceptMessage(cfg, old(View()), from, id, msg, now) == if panics then None else Some(View())
      ensures Valid()
    {
      if msg.topic !in topics {
        commands := commands + [CloseConnection(from, id)];
        return false;
      }
      if history.Some? {
        var key := cfg.digest(msg);
        var seen := Get(history.value, cfg.dedupe, key, now).Some?;
        history := Some(history.value[key := Stamped((), now)]);
        if seen {
          return false;
        }
      }
      var first := muxer.AssignConnection(from, id, msg.topic);
      if first.Some? {
        log := log + [Delivery(msg.topic, PeerConnected(first.value, id))];
      }
      var topic := Resolve(Mux(muxer.assignments, map[], map[], map[]), from, id);
      if topic.None? {
        return true;
      }
      if topic.value == msg.topic {
        log := log + [Delivery(topic.value, MessageReceived(from, msg, id))];
      } else {
        commands := commands + [BanPeer(from)];
      }
      return false;
    }

    /** One maintenance tick: topics first, then the expiring collections, then one outstanding dial. */
    method Maintain(now: nat) returns (ghost order: seq<TopicName>, ghost dial: Option<(TopicName, Multiaddr)>)
      requires Valid()
      modifies this, muxer
      ensures Valid() && Enumerates(order, topics) && Pending(old(View()).mux, dial)
      ensures View() == TickAll(cfg, old(View()), order, dial, now)
    {
      hide Enumerates, ToAll, TryDial;
      order := NotifyAll(Tick);
      muxer.PruneExpired(now);
      if history.Some? {
        var seen := history.value;
        history := Some(map k | k in seen && Elapsed(seen[k].at, now) < cfg.dedupe :: seen[k]);
      }
      dial := DialOutstanding(now);
    }

    method DialOutstanding(now: nat) returns (ghost dial: Option<(TopicName, Multiaddr)>)
      requires Valid()
      modifies this`commands, muxer
      ensures Valid() && Pending(old(View()).mux, dial)
      ensures View() == if dial.None? then old(View()) else TryDial(cfg, old(View()), dial.value.1, dial.value.0, now)
    {
      hide Pending;
      var next := muxer.PollDial();
      dial := next;
      if next.Some? {
        var started := muxer.NextDial(next.value.1, next.value.0, now);
        if started {
          commands := commands + [Connect(next.value.1)];
        }
      }
    }

    method AddLocalAddress(addr: Multiaddr) returns (ghost order: seq<TopicName>)
      requires Valid()
      modifies this
      ensures Valid() && Enumerates(order, topics)
      ensures View() == AppendLocalAddress(old(View()), addr, order)
    {
      addresses := addresses + {addr};
      order := NotifyAll(LocalAddressDiscovered(addr));
    }

    method NotifyAll(event: TopicEvent) returns (ghost order: seq<TopicName>)
      modifies this`log
      ensures Enumerates(order, topics) && log == old(log) + ToAll(order, event)
    {
      hide Enumerates, ToAll;
      var left := topics;
      order := [];
      ListsNothing(event);
      assert topics - left == {};
      while left != {}
        invariant left <= topics && Enumerates(order, topics - left)
        invariant log == old(log) + ToAll(order, event)
        decreases |left|
      {
        var topic :| topic in left;
        log := log + [Delivery(topic, event)];
        ListsSnoc(order, topics - left, topic, event);
        assert topics - (left - {topic}) == topics - left + {topic};
        order := order + [topic];
        left := left - {topic};
      }
      assert topics - left == topics;
    }
  }

  lemma ListsNothing(event: TopicEvent)
    ensures Enumerates<TopicName>([], {}) && ToAll([], event) == []
  {
  }

  lemma ListsSnoc(order: seq<TopicName>, topics: set<TopicName>, topic: TopicName, event: TopicEvent)
    requires Enumerates(order, topics) && topic !in topics
    ensures Enumerates(order + [topic], topics + {topic})
    ensures ToAll(order + [topic], event) == ToAll(order, event) + [Delivery(topic, event)]
  {
    var longer := order + [topic];
    forall t | t in topics + {topic} ensures t in longer {
      if t == topic {
        assert longer[|order|] == t;
      } else {
        var k :| 0 <= k < |order| && order[k] == t;
        assert longer[k] == t;
      }
    }
  }
}
