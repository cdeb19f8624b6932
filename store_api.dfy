/**
 * The vocabulary of the `Store` interface that every storage backend implements:
 * how an address was learned, what a store reports, and the swarm lifecycle
 * events a store reacts to.
 */
module StoreApi {
  import opened Core

  /** How an address was discovered; fixed when the address is first recorded. */
  datatype AddressSource = Manual | Behaviour | DirectConnection

  /** What a store reports: a peer whose record gained information, or a backend event. */
  datatype Event<T> = RecordUpdated(peer: PeerId) | Store(ev: T)

  /**
   * The swarm lifecycle events the store distinguishes. Every other kind of
   * swarm event is folded into `OtherSwarmEvent`.
   */
  datatype FromSwarm =
    | NewExternalAddrOfPeer(peer: PeerId, addr: Multiaddr)
    | ConnectionEstablished(peer: PeerId, failedAddresses: seq<Multiaddr>, remoteAddress: Multiaddr)
    | OtherSwarmEvent
}
