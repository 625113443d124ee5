/** What nodes send to each other. */
module Wire {
  import opened Wrappers

  type PeerId = nat
  type ConnectionId = nat
  type TopicName = string
  type Ip = nat

  /** Only the leading IP component of an address matters here; an address may not start with one. */
  datatype Multiaddr = Multiaddr(ip: Option<Ip>, rest: string)

  /** A set of addresses, listed in the order in which it is iterated. */
  type Addresses = seq<Multiaddr>

  datatype AddressablePeer = AddressablePeer(id: PeerId, addresses: Addresses)

  /** A set of peers: two entries with the same identity count as one. */
  type Peers = map<PeerId, Addresses>

  datatype Action =
    | Join(node: AddressablePeer)
    | ForwardJoin(hop: nat, node: AddressablePeer)
    | Neighbour(peer: AddressablePeer, highPriority: bool)
    | Shuffle(hop: nat, origin: AddressablePeer, peers: Peers)
    | ShuffleReply(peers: Peers)
    | Gossip(data: string)

  datatype Message = Message(topic: TopicName, action: Action)
}
