/** Identifiers and small wrappers shared by every part of the peer store. */
module Core {
  /** A peer's cryptographic identity; only equality is observed. */
  type PeerId(==, !new)

  /** A network address of a peer; only equality is observed. */
  type Multiaddr(==, !new)

  datatype Option<+T> = None | Some(value: T)

  /** A positive count, as `NonZeroUsize` guarantees for the record capacity. */
  type PosNat = n: nat | 0 < n witness 1
}
