# peer-store address book, modelled in Dafny

This project models the peer address store of `misc/peer-store`. It has
three layers.

- **Per-peer record.** Each known peer has a bounded LRU cache. The cache
  maps each address to when it was last seen, how it was learned
  (`Manual`, `Behaviour` or `DirectConnection`) and whether it may expire.
  - Observing a new address inserts it as the most recently used entry. When
    the cache is full, the least recently used entry is evicted.
  - Observing a known address moves it to the front and refreshes its
    last-seen time. Its source and expiry flag stay as they were.
  - The TTL sweep drops every expiring entry last seen strictly more than the
    TTL ago.
- **In-memory store.** A map from peer to its record. A record is created the
  first time an address is recorded for its peer, and no peer is ever
  removed. The store turns two swarm lifecycle events into record updates and
  reports `RecordUpdated(peer)` when the record changed: a new address was
  added or, on an established connection, a failed address was removed:
  - a newly reported external address of a peer;
  - an established connection, which carries the addresses that failed and
    the remote address that worked.
- **Behaviour.** The network behaviour wraps the store. It supplies dial
  candidates, forwards lifecycle events to the store and hands queued
  notifications to the swarm one per poll, first in first out.

A cache is a `seq<Entry>` ordered most recent first. The lru cache's
iterator yields entries most recent first; the test at
`misc/peer-store/src/memory_store.rs:294-304` reads `.last()` as the older
address.

Time is an explicit `now: nat` argument counted in nanoseconds.
`duration_since` saturates at zero when `now` lies before the last sighting.
The default TTL of 600 s is therefore 600 000 000 000.

Files:

- `core.dfy` declares the opaque `PeerId` and `Multiaddr`, `Option` and
  `PosNat`.
- `store_api.dfy` holds the store interface's types: address source, store
  event and swarm event. `store.rs` is not part of this model; these types
  are the parts of it the core uses.
- `record.dfy` holds the cache as a value (`Upsert`, `Remove`, `Sweep`, …) and
  the class `PeerAddressRecord`, whose methods update the cache in place and
  are proved against those functions.
- `record_properties.dfy` holds the LRU properties and the scenarios of the
  crate's own tests.
- `address_book.dfy` holds the store's operations on the whole address book
  as values (`UpdateBook`, `OnSwarmEventBook`, …) and what they promise.
- `memory_store.dfy` holds `Config` and the class `MemoryStore`. Each of its
  methods is proved equal to the matching address-book function.
- `behaviour.dfy` holds the event queue as values and the class `Behaviour`.

## Model

| member | source | states |
|---|---|---|
| Record.AddressRecord.LastSeenSince | misc/peer-store/src/memory_store.rs:140-142 | the time elapsed since the last sighting; zero when the clock reads earlier than that sighting |
| Record.AddressRecord.IsExpired | misc/peer-store/src/memory_store.rs:227-229 | an entry is expired iff it may expire and its last sighting plus the TTL lies strictly before `now` |
| Record.AddressRecord.Touched | misc/peer-store/src/memory_store.rs:224-226 | refreshing sets the last-seen time to `now` and keeps source and expiry flag |
| Record.IndexOf | misc/peer-store/src/memory_store.rs:182-185 | the position of the address's entry, or the length when the address is not cached; no earlier entry carries it |
| Record.Remove | misc/peer-store/src/memory_store.rs:192-194 | popping keeps exactly the entries for other addresses, in their order |
| Record.RemoveSplice | misc/peer-store/src/memory_store.rs:192-194 | in a cache with distinct addresses, popping cuts out the single entry at the address's position, or changes nothing when the address is absent |
| Record.Without | misc/peer-store/src/memory_store.rs:202-204 | popping a list of addresses keeps exactly the entries whose address is not listed |
| Record.RemoveAfterWithout | misc/peer-store/src/memory_store.rs:202-204 | popping one more address after a list equals popping the extended list |
| Record.ExpiredAddresses | misc/peer-store/src/memory_store.rs:196-201 | the collected keys are exactly the addresses of expired entries |
| Record.ExpiredAddressesMatch | misc/peer-store/src/memory_store.rs:196-201 | with distinct addresses, an entry's address is collected iff that entry itself is expired |
| Record.Sweep | misc/peer-store/src/memory_store.rs:195-205 | the sweep keeps exactly the unexpired entries, as a subsequence of the cache |
| Record.WithoutExpiredIsSweep | misc/peer-store/src/memory_store.rs:195-205 | popping the collected keys is the same as keeping only the unexpired entries |
| Record.SubsequenceKeepsShape | misc/peer-store/src/memory_store.rs:155-158 | dropping entries never grows the cache and keeps addresses distinct and recency order intact |
| Record.UpsertKeepsBounds | misc/peer-store/src/memory_store.rs:155-158 | observing an address keeps the cache within capacity with distinct addresses |
| Record.PeerAddressRecord.constructor | misc/peer-store/src/memory_store.rs:160-165 | a new record is empty with the given capacity |
| Record.PeerAddressRecord.UpdateAddress | misc/peer-store/src/memory_store.rs:176-191 | returns true iff the address was not cached; the new cache is the observed one, and the record stays well formed |
| Record.PeerAddressRecord.RemoveAddress | misc/peer-store/src/memory_store.rs:192-194 | returns true iff the address was cached; the new cache is the old one without it |
| Record.PeerAddressRecord.CheckTtl | misc/peer-store/src/memory_store.rs:195-205 | after collecting and popping the expired keys, the cache holds exactly the unexpired entries in their order |
| RecordProperties.UpsertNewAddress | misc/peer-store/src/memory_store.rs:186-190 | a new address goes to the front with `lastSeen = now` and the given source and flag; the rest is the old cache, minus its last entry when full; the address set gains it and loses only the evicted one |
| RecordProperties.UpsertKnownAddress | misc/peer-store/src/memory_store.rs:182-185 | a known address moves to the front with `lastSeen = now` and its old source and flag; the rest is the old cache without it; size and address set are unchanged |
| RecordProperties.UpsertKeepsRecencyOrder | misc/peer-store/src/memory_store.rs:155-158 | with a clock that never runs backwards, last-seen times stay in non-increasing order from front to back |
| RecordProperties.RemoveUndoesInsert | misc/peer-store/src/memory_store.rs:186-194 | removing an address just inserted into a non-full cache restores the cache |
| RecordProperties.RemoveDropsOneAddress | misc/peer-store/src/memory_store.rs:192-194 | popping shrinks the cache by one iff the address was present, the address is gone, and every other address stays |
| RecordProperties.SweepIdempotent | misc/peer-store/src/memory_store.rs:195-205 | a second sweep at the same instant removes nothing more |
| RecordProperties.SweepRespectsExpiryFlag | misc/peer-store/src/memory_store.rs:227-229 | non-expiring entries survive every sweep; an expiring one survives iff at most the TTL has elapsed |
| RecordProperties.ObserveAllKeepsNewest | misc/peer-store/src/memory_store.rs:155-158 | after observing distinct addresses in turn, the cache holds the `capacity` newest of them, newest first |
| RecordProperties.ObserveAllEvictsOldest | misc/peer-store/src/memory_store.rs:155-158 | an observed address is still cached iff fewer than `capacity` addresses were observed after it |
| RecordProperties.BoundedStore | misc/peer-store/src/memory_store.rs:324-347 | with capacity 8, after nine distinct addresses the first is gone and the second remains |
| RecordProperties.RecentUseBubbleUp | misc/peer-store/src/memory_store.rs:276-322 | after `a` then `b` the last entry is `a`; after observing `a` again it is `b` |
| AddressBook.UpdateBookSpec | misc/peer-store/src/memory_store.rs:33-47 | an unknown peer gets a record holding exactly the new address, and the answer is true; for a known peer the answer is true iff the address is new to it; the address ends up first with `lastSeen = now`; other peers are untouched |
| AddressBook.UpdateBookKeepsValid | misc/peer-store/src/memory_store.rs:33-47 | updating keeps every record within capacity with distinct addresses |
| AddressBook.RemoveFromBookSpec | misc/peer-store/src/memory_store.rs:49-54 | the answer is true iff the peer is known and holds the address; afterwards it does not; an unknown peer leaves the book unchanged; no peer is removed |
| AddressBook.RemoveFromBookKeepsValid | misc/peer-store/src/memory_store.rs:49-54 | removing keeps every record within capacity with distinct addresses |
| AddressBook.RemoveAllFromBookSpec | misc/peer-store/src/memory_store.rs:64-68 | removing the failed addresses one by one leaves the peer's record without exactly those addresses; the accumulated flag is true iff the peer held one of them |
| AddressBook.RemoveAllFromBookKeepsValid | misc/peer-store/src/memory_store.rs:64-68 | removing failed addresses keeps every record within capacity with distinct addresses |
| AddressBook.NewExternalAddrSpec | misc/peer-store/src/memory_store.rs:58-63 | a reported external address is recorded first; `RecordUpdated(peer)` is returned iff it was new, and then it is recorded as `Behaviour`-sourced and expiring |
| AddressBook.ConnectionEstablishedSpec | misc/peer-store/src/memory_store.rs:64-79 | failed addresses are removed before the remote address is recorded as a `DirectConnection`; afterwards the remote address is first with `lastSeen = now` and no other failed address remains; `RecordUpdated(peer)` is returned iff some removal or the update reported a change |
| AddressBook.OtherSwarmEventSpec | misc/peer-store/src/memory_store.rs:80 | every other event changes nothing and returns nothing |
| AddressBook.OnSwarmEventKeepsValid | misc/peer-store/src/memory_store.rs:56-82 | every event keeps the records well formed and drops no peer |
| AddressBook.CheckTtlBookSpec | misc/peer-store/src/memory_store.rs:90-95 | the sweep keeps every peer, keeps exactly each record's unexpired entries in order, and keeps records well formed |
| AddressBook.RecordExpire | misc/peer-store/src/memory_store.rs:242-274 | a non-expiring address survives a sweep made more than the TTL after an expiring one was seen, and the expiring one is gone |
| AddressBook.NewInformationSignal | misc/peer-store/src/memory_store.rs:33-47 | the first observation of a new address for a peer answers true, an immediate repeat answers false |
| InMemoryStore.DefaultConfig | misc/peer-store/src/memory_store.rs:119-126 | the default TTL is 600 seconds and the default capacity is 8 |
| InMemoryStore.MemoryStore.constructor | misc/peer-store/src/memory_store.rs:22-27 | a new store has the given configuration and an empty address book |
| InMemoryStore.MemoryStore.Default | misc/peer-store/src/memory_store.rs:13-19 | the default store has the default configuration and an empty address book |
| InMemoryStore.MemoryStore.UpdateAddress | misc/peer-store/src/memory_store.rs:33-47 | the new book and the answer are those of `UpdateBook`; existing records keep their identity and the store stays well formed |
| InMemoryStore.MemoryStore.RemoveAddress | misc/peer-store/src/memory_store.rs:49-54 | the new book and the answer are those of `RemoveFromBook`; the peer map is unchanged |
| InMemoryStore.MemoryStore.OnSwarmEvent | misc/peer-store/src/memory_store.rs:56-82 | the new book and the returned event are those of `OnSwarmEventBook`, removals first, then the remote address |
| InMemoryStore.MemoryStore.AddressesOfPeer | misc/peer-store/src/memory_store.rs:84-88 | None iff the peer has no record; otherwise exactly the record's addresses, most recent first, one per entry, each once and at most `capacity` of them |
| InMemoryStore.MemoryStore.CheckTtl | misc/peer-store/src/memory_store.rs:90-95 | every record is swept with the configured TTL; the book equals `CheckTtlBook` of the old one and no peer is removed |
| InMemoryStore.MemoryStore.Poll | misc/peer-store/src/memory_store.rs:30-96 | the in-memory store never yields an event of its own |
| PeerStoreBehaviour.ToBehaviourEventInjective | misc/peer-store/src/behaviour.rs:77-83 | converting store notifications to behaviour notifications loses no information |
| PeerStoreBehaviour.FromStoreQueued | misc/peer-store/src/behaviour.rs:152-154 | a store notification adds exactly its converted form to the queue; no notification adds nothing |
| PeerStoreBehaviour.PollQueue | misc/peer-store/src/behaviour.rs:147-160 | one poll returns the front of the queue with the store's notification appended, and Pending iff both are empty; the length goes up by one for a store notification and down by one for a Ready |
| PeerStoreBehaviour.PollRepeatedlyIsFifo | misc/peer-store/src/behaviour.rs:156-159 | `n` polls return the queued notifications in order, one per poll, then Pending, and leave the untaken tail |
| PeerStoreBehaviour.Behaviour.constructor | misc/peer-store/src/behaviour.rs:51-56 | a new behaviour wraps the given store with an empty queue |
| PeerStoreBehaviour.Behaviour.AddressOfPeer | misc/peer-store/src/behaviour.rs:58-65 | exactly the store's answer: None iff the peer is unknown |
| PeerStoreBehaviour.Behaviour.AddressRecordOfPeer | misc/peer-store/src/memory_store.rs:98-109 | None iff the peer is unknown; otherwise the peer's entries, whose addresses are what `AddressesOfPeer` lists |
| PeerStoreBehaviour.Behaviour.HandleStoreEvent | misc/peer-store/src/behaviour.rs:77-83 | appends the converted notification at the back and keeps the queue before it |
| PeerStoreBehaviour.Behaviour.HandleEstablishedInboundConnection | misc/peer-store/src/behaviour.rs:95-103 | inbound connections are always accepted with the dummy handler |
| PeerStoreBehaviour.Behaviour.HandlePendingOutboundConnection | misc/peer-store/src/behaviour.rs:105-121 | always Ok; no candidates when no peer is named or the peer is unknown, otherwise exactly the peer's stored addresses, most recent first |
| PeerStoreBehaviour.Behaviour.HandleEstablishedOutboundConnection | misc/peer-store/src/behaviour.rs:123-132 | outbound connections are always accepted with the dummy handler |
| PeerStoreBehaviour.Behaviour.OnSwarmEvent | misc/peer-store/src/behaviour.rs:134-136 | the store's book changes as `OnSwarmEventBook` says; the store's notification is dropped and the queue is unchanged |
| PeerStoreBehaviour.Behaviour.Poll | misc/peer-store/src/behaviour.rs:147-160 | the new queue and the answer are those of `PollQueue` given the store's empty poll |

## Left out

- Wall-clock time: `Instant::now()` becomes the `now` argument of every
  operation that reads the clock. `Duration` and `Instant` become natural
  numbers of nanoseconds.
- `AddressRecord::last_seen()` reads the ambient clock and is not modelled.
  `LastSeenSince` covers the same computation with an explicit instant.
- The `lru` crate's linked list and hash table are not modelled. The cache is
  a sequence, and lookups are linear.
- `Multiaddr` and `PeerId` are opaque values with equality. Parsing, random
  peer ids and cloning are not modelled.
- The `Store` trait's genericity is not modelled. `Behaviour` wraps
  `MemoryStore` only. The queue functions (`PollQueue`, `PollRepeatedly`) are
  generic in the store's event type, as the trait allows.
- `store()` and `store_mut()` are not separate members. They are the
  `store` field of `Behaviour`, and callers reach the store's methods through
  it.
- `records()` is not a separate member. It is the `entries` field of
  `PeerAddressRecord`, in the same most-recent-first order.
- `on_connection_handler_event` is not modelled. The dummy handler never
  produces an event, so the swarm can never call it, and a member with an
  unsatisfiable precondition would model nothing.
- `std::task::Context`, wakers, `Send`/`Sync` bounds, lifetimes and borrows
  are not modelled.
- Connection ids, local addresses, endpoints, role overrides and port use
  are not modelled. The connection handlers ignore them. The `addresses`
  argument of `HandlePendingOutboundConnection` is kept and likewise ignored.
- `MemoryStore::check_ttl` visits records in hash-map order. The model takes
  peers in an arbitrary order, and the resulting book does not depend on it.
- The doc comment at `misc/peer-store/src/behaviour.rs:12-13` says manual
  updates always emit `RecordUpdated`. No code does that, and it is not
  modelled.
- PeerStoreBehaviour.Behaviour.Poll: the `ToSwarm::GenerateEvent` wrapper
  around a ready event is dropped; `Ready` carries the event itself, and the
  wrapper is always the same.
- PeerStoreBehaviour.Behaviour.Poll: the store's empty poll result is
  appended as a possibly empty list (`FromStoreQueued`) instead of by a call
  to `HandleStoreEvent` under a branch that the in-memory store can never
  take. The resulting queue is the same.
