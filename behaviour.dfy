/**
 * The network behaviour in front of the in-memory store: it hands the swarm
 * dial candidates from the store, forwards lifecycle events to the store,
 * and releases queued notifications one per poll, first in first out.
 */
module PeerStoreBehaviour {
  import opened Core
  import StoreApi
  import opened Record
  import opened AddressBook
  import opened InMemoryStore

  /** Notifications handed to the swarm. */
  datatype Event<T> = RecordUpdated(peer: PeerId) | Store(ev: T)

  /** The answer of a non-blocking poll. */
  datatype Poll<T> = Ready(value: T) | Pending

  /** The handler given to every connection; it never produces events. */
  datatype ConnectionHandler = DummyHandler

  datatype ConnectionDenied = ConnectionDenied

  datatype Result<T> = Ok(value: T) | Err(error: ConnectionDenied)

  /** A store notification as the behaviour reports it. */
  function ToBehaviourEvent<T>(ev: StoreApi.Event<T>): Event<T>
  {
    match ev
    case RecordUpdated(peer) => RecordUpdated(peer)
    case Store(e) => Store(e)
  }

  /** Distinct store notifications stay distinct: the conversion loses nothing. */
  lemma ToBehaviourEventInjective<T>(a: StoreApi.Event<T>, b: StoreApi.Event<T>)
    ensures ToBehaviourEvent(a) == ToBehaviourEvent(b) ==> a == b
  {
  }

  /** What draining the store's poll result adds to the back of the queue. */
  function FromStoreQueued<T>(fromStore: Option<StoreApi.Event<T>>): (r: seq<Event<T>>)
    ensures fromStore.None? ==> r == []
    ensures fromStore.Some? ==> r == [ToBehaviourEvent(fromStore.value)]
  {
    match fromStore
    case None => []
    case Some(ev) => [ToBehaviourEvent(ev)]
  }

  /**
   * One poll over the queue: the store's notification, if any, joins the
   * back; then the front leaves, or nothing is ready.
   */
  function PollQueue<T>(queue: seq<Event<T>>, fromStore: Option<StoreApi.Event<T>>)
    : (r: (seq<Event<T>>, Poll<Event<T>>))
    ensures |r.0| == |queue| + (if fromStore.Some? then 1 else 0) - (if r.1.Ready? then 1 else 0)
    ensures r.1.Pending? <==> queue == [] && fromStore.None?
    ensures r.1.Pending? ==> r.0 == []
    ensures r.1.Ready? ==>
              [r.1.value] + r.0 == queue + FromStoreQueued(fromStore)
  {
    var q := queue + FromStoreQueued(fromStore);
    if q == [] then (q, Pending) else (q[1..], Ready(q[0]))
  }

  /** `n` polls in a row while the store stays silent: the answers and the queue left. */
  function PollRepeatedly<T>(queue: seq<Event<T>>, n: nat): (seq<Poll<Event<T>>>, seq<Event<T>>)
    decreases n
  {
    if n == 0 then ([], queue)
    else
      var (q, answer) := PollQueue(queue, None);
      var (answers, rest) := PollRepeatedly(q, n - 1);
      ([answer] + answers, rest)
  }

  /**
   * Queued notifications leave in order, one per poll; once the queue is
   * empty every poll is pending.
   */
  lemma {:induction false} PollRepeatedlyIsFifo<T>(queue: seq<Event<T>>, n: nat)
    ensures var (answers, rest) := PollRepeatedly(queue, n);
            && |answers| == n
            && (forall k :: 0 <= k < n ==> answers[k] == if k < |queue| then Ready(queue[k]) else Pending)
            && rest == queue[if n <= |queue| then n else |queue|..]
    decreases n
  {
    if n > 0 {
      var (q, answer) := PollQueue(queue, None);
      PollRepeatedlyIsFifo(q, n - 1);
      var (answers, rest) := PollRepeatedly(q, n - 1);
      if queue == [] {
        assert q == [];
      } else {
        assert q == queue[1..];
        forall k | 0 <= k < n
          ensures ([answer] + answers)[k] == if k < |queue| then Ready(queue[k]) else Pending
        {
          if k > 0 {
            assert ([answer] + answers)[k] == answers[k - 1];
          }
        }
      }
    }
  }

  class Behaviour {
    /** The store holding the address book. */
    const store: MemoryStore
    /** Notifications waiting to be handed to the swarm, oldest first. */
    var pendingEvents: seq<Event<FromStore>>

    ghost predicate Valid()
      reads this, store, store.addressBook.Values
    {
      store.Valid()
    }

    constructor (store: MemoryStore)
      requires store.Valid()
      ensures Valid()
      ensures this.store == store && pendingEvents == []
    {
      this.store := store;
      pendingEvents := [];
    }

    /** The peer's addresses, most recent first, or None for a peer the store never saw. */
    function AddressOfPeer(peer: PeerId): (r: Option<seq<Multiaddr>>)
      reads this, store, store.addressBook.Values
      ensures r == store.AddressesOfPeer(peer)
      ensures r.None? <==> peer !in store.Book()
    {
      store.AddressesOfPeer(peer)
    }

    /** The peer's full records, most recent first, or None for a peer the store never saw. */
    function AddressRecordOfPeer(peer: PeerId): (r: Option<seq<Entry>>)
      reads this, store, store.addressBook.Values
      ensures r.None? <==> peer !in store.Book()
      ensures r.Some? ==> r.value == store.Book()[peer]
                          && store.AddressesOfPeer(peer) == Some(Addresses(r.value))
    {
      if peer in store.addressBook then Some(store.addressBook[peer].entries) else None
    }

    /** Queue a store notification at the back. */
    method HandleStoreEvent(event: StoreApi.Event<FromStore>)
      modifies this
      ensures pendingEvents == old(pendingEvents) + [ToBehaviourEvent(event)]
    {
      match event
      case RecordUpdated(peer) => pendingEvents := pendingEvents + [RecordUpdated(peer)];
      case Store(ev) => pendingEvents := pendingEvents + [Store(ev)];
    }

    /** An inbound connection is always accepted with the dummy handler. */
    function HandleEstablishedInboundConnection(peer: PeerId, localAddr: Multiaddr, remoteAddr: Multiaddr)
      : (r: Result<ConnectionHandler>)
      ensures r == Ok(DummyHandler)
    {
      Ok(DummyHandler)
    }

    /**
     * The dial candidates for an outgoing connection: every stored address of
     * the peer, most recent first; none when the peer is not named or unknown.
     */
    function HandlePendingOutboundConnection(maybePeer: Option<PeerId>, addresses: seq<Multiaddr>)
      : (r: Result<seq<Multiaddr>>)
      reads this, store, store.addressBook.Values
      ensures r.Ok?
      ensures maybePeer.None? || maybePeer.value !in store.Book() ==> r.value == []
      ensures maybePeer.Some? && maybePeer.value in store.Book() ==>
                r.value == Addresses(store.Book()[maybePeer.value])
    {
      if maybePeer.None? then Ok([])
      else
        match store.AddressesOfPeer(maybePeer.value)
        case Some(addrs) => Ok(addrs)
        case None => Ok([])
    }

    /** An outbound connection is always accepted with the dummy handler. */
    function HandleEstablishedOutboundConnection(peer: PeerId, addr: Multiaddr)
      : (r: Result<ConnectionHandler>)
      ensures r == Ok(DummyHandler)
    {
      Ok(DummyHandler)
    }

    /**
     * Forward a lifecycle event to the store. The store's notification is
     * dropped: the queue does not change.
     */
    method OnSwarmEvent(event: StoreApi.FromSwarm, now: nat)
      requires Valid()
      modifies store, store.addressBook.Values
      ensures Valid()
      ensures store.Book() == OnSwarmEventBook(old(store.Book()), store.config.recordCapacity, event, now).0
      ensures pendingEvents == old(pendingEvents)
      ensures forall r :: r in store.addressBook.Values ==> r in old(store.addressBook.Values) || fresh(r)
    {
      var _ := store.OnSwarmEvent(event, now);
    }

    /**
     * Move the store's notification, if any, to the back of the queue; then
     * hand out the front of the queue, or report that nothing is ready.
     */
    method Poll() returns (r: Poll<Event<FromStore>>)
      modifies this
      ensures (pendingEvents, r) == PollQueue(old(pendingEvents), None)
    {
      var fromStore := store.Poll();
      pendingEvents := pendingEvents + FromStoreQueued(fromStore);
      if pendingEvents != [] {
        r := Ready(pendingEvents[0]);
        pendingEvents := pendingEvents[1..];
      } else {
        r := Pending;
      }
    }
  }
}
