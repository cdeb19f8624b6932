/**
 * The in-memory store's address book as a value: a map from peer to that
 * peer's cache entries (most recent first). The functions here are what the
 * store's methods do to the book; the lemmas state what the store promises.
 */
module AddressBook {
  import opened Core
  import opened StoreApi
  import opened Record
  import opened RecordProperties

  type Book = map<PeerId, seq<Entry>>

  /** The in-memory store has no backend events of its own. */
  type FromStore = ()

  /** Every record stays within the capacity and maps each address once. */
  ghost predicate BookValid(book: Book, capacity: PosNat)
  {
    forall p :: p in book ==> |book[p]| <= capacity && DistinctAddresses(book[p])
  }

  /**
   * `update_address`: a known peer's record observes the address and reports
   * whether it was new; an unknown peer gets a fresh record holding it, and
   * the update reports true.
   */
  function UpdateBook(book: Book, capacity: PosNat, peer: PeerId, address: Multiaddr,
                      source: AddressSource, shouldExpire: bool, now: nat): (Book, bool)
  {
    if peer in book then
      (book[peer := Upsert(book[peer], capacity, address, source, shouldExpire, now)],
       address !in Addresses(book[peer]))
    else
      (book[peer := Upsert([], capacity, address, source, shouldExpire, now)], true)
  }

  /** `remove_address`: an unknown peer is left alone and the answer is false. */
  function RemoveFromBook(book: Book, peer: PeerId, address: Multiaddr): (Book, bool)
  {
    if peer in book then
      (book[peer := Remove(book[peer], address)], address in Addresses(book[peer]))
    else
      (book, false)
  }

  /** Removing each of `failed` in turn; the flag is the disjunction of the answers. */
  function RemoveAllFromBook(book: Book, peer: PeerId, failed: seq<Multiaddr>): (Book, bool)
    decreases |failed|
  {
    if failed == [] then (book, false)
    else
      var (before, anyRemoved) := RemoveAllFromBook(book, peer, failed[..|failed| - 1]);
      var (after, removed) := RemoveFromBook(before, peer, failed[|failed| - 1]);
      (after, anyRemoved || removed)
  }

  /** `on_swarm_event`: the reaction to one swarm lifecycle event. */
  function OnSwarmEventBook(book: Book, capacity: PosNat, event: FromSwarm, now: nat)
    : (Book, Option<Event<FromStore>>)
  {
    match event
    case NewExternalAddrOfPeer(peer, addr) =>
      var (after, updated) := UpdateBook(book, capacity, peer, addr, Behaviour, true, now);
      (after, if updated then Some(RecordUpdated(peer)) else None)
    case ConnectionEstablished(peer, failed, remote) =>
      var (pruned, anyRemoved) := RemoveAllFromBook(book, peer, failed);
      var (after, updated) := UpdateBook(pruned, capacity, peer, remote, DirectConnection, false, now);
      (after, if anyRemoved || updated then Some(RecordUpdated(peer)) else None)
    case OtherSwarmEvent =>
      (book, None)
  }

  /** `check_ttl`: every record is swept; no peer is dropped. */
  function CheckTtlBook(book: Book, now: nat, ttl: nat): Book
  {
    map p | p in book :: Sweep(book[p], now, ttl)
  }

  // ----- what the store promises -----

  /** An address is a key of the cache exactly when some entry carries it. */
  lemma InAddresses(es: seq<Entry>)
    ensures forall x :: x in Addresses(es) <==> exists e :: e in es && e.address == x
  {
    forall x ensures x in Addresses(es) <==> exists e :: e in es && e.address == x {
      if x in Addresses(es) {
        var k :| 0 <= k < |es| && Addresses(es)[k] == x;
        assert es[k] in es;
      }
      if exists e :: e in es && e.address == x {
        var e :| e in es && e.address == x;
        var k :| 0 <= k < |es| && es[k] == e;
        assert Addresses(es)[k] == x;
      }
    }
  }

  /**
   * An update creates a record for an unknown peer holding exactly the new
   * address; it reports true exactly when the address is new for the peer,
   * and the address is then the peer's most recent one. No other peer's
   * record changes and no peer is dropped.
   */
  lemma UpdateBookSpec(book: Book, capacity: PosNat, peer: PeerId, address: Multiaddr,
                       source: AddressSource, shouldExpire: bool, now: nat)
    ensures var (after, updated) := UpdateBook(book, capacity, peer, address, source, shouldExpire, now);
            && after.Keys == book.Keys + {peer}
            && (forall q :: q in book && q != peer ==> after[q] == book[q])
            && (updated <==> peer !in book || address !in Addresses(book[peer]))
            && after[peer] != [] && after[peer][0].address == address
            && after[peer][0].record.lastSeen == now
            && (peer !in book ==> after[peer] == [Entry(address, AddressRecord(now, source, shouldExpire))])
  {
  }

  /** An update keeps every record bounded by the capacity with distinct addresses. */
  lemma UpdateBookKeepsValid(book: Book, capacity: PosNat, peer: PeerId, address: Multiaddr,
                             source: AddressSource, shouldExpire: bool, now: nat)
    requires BookValid(book, capacity)
    ensures BookValid(UpdateBook(book, capacity, peer, address, source, shouldExpire, now).0, capacity)
  {
    if peer in book {
      UpsertKeepsBounds(book[peer], capacity, address, source, shouldExpire, now);
    } else {
      UpsertKeepsBounds([], capacity, address, source, shouldExpire, now);
    }
  }

  /**
   * Removal answers true exactly when the peer is known and holds the address;
   * afterwards the peer no longer holds it; an unknown peer leaves the book
   * unchanged; other peers and the set of peers never change.
   */
  lemma RemoveFromBookSpec(book: Book, peer: PeerId, address: Multiaddr)
    ensures var (after, removed) := RemoveFromBook(book, peer, address);
            && after.Keys == book.Keys
            && (forall q :: q in book && q != peer ==> after[q] == book[q])
            && (removed <==> peer in book && address in Addresses(book[peer]))
            && (peer !in book ==> after == book)
            && (peer in book ==> address !in Addresses(after[peer]))
  {
    if peer in book {
      InAddresses(Remove(book[peer], address));
    }
  }

  /** Removal keeps every record bounded and distinct. */
  lemma RemoveFromBookKeepsValid(book: Book, capacity: PosNat, peer: PeerId, address: Multiaddr)
    requires BookValid(book, capacity)
    ensures BookValid(RemoveFromBook(book, peer, address).0, capacity)
  {
    if peer in book {
      SubsequenceKeepsShape(Remove(book[peer], address), book[peer]);
    }
  }

  /**
   * Removing a list of failed addresses drops all of them from a known peer
   * and nothing else, in order; the flag is true exactly when the peer is
   * known and held at least one of them. Other peers are untouched.
   */
  lemma {:induction false} RemoveAllFromBookSpec(book: Book, peer: PeerId, failed: seq<Multiaddr>)
    ensures var (after, anyRemoved) := RemoveAllFromBook(book, peer, failed);
            && after.Keys == book.Keys
            && (forall q :: q in book && q != peer ==> after[q] == book[q])
            && (peer in book ==> after[peer] == Without(book[peer], failed))
            && (anyRemoved <==> peer in book && exists f :: f in failed && f in Addresses(book[peer]))
    decreases |failed|
  {
    if failed == [] {
      if peer in book {
        WithoutNothing(book[peer]);
      }
    } else {
      var init, last := failed[..|failed| - 1], failed[|failed| - 1];
      assert failed == init + [last];
      RemoveAllFromBookSpec(book, peer, init);
      var (before, anyRemoved) := RemoveAllFromBook(book, peer, init);
      if peer in book {
        var es := book[peer];
        RemoveAfterWithout(es, init, last);
        InAddresses(before[peer]);
        InAddresses(es);
        // `last` is still held after the earlier removals iff it was held and not among them
        assert last in Addresses(before[peer]) <==> last in Addresses(es) && last !in init;
        if exists f :: f in failed && f in Addresses(es) {
          var f :| f in failed && f in Addresses(es);
          if f != last {
            assert f in init;
          }
        }
        if anyRemoved {
          var f :| f in init && f in Addresses(es);
          assert f in failed;
        }
      }
    }
  }

  /** Removing failed addresses keeps every record bounded and distinct. */
  lemma {:induction false} RemoveAllFromBookKeepsValid(book: Book, capacity: PosNat, peer: PeerId,
                                                       failed: seq<Multiaddr>)
    requires BookValid(book, capacity)
    ensures BookValid(RemoveAllFromBook(book, peer, failed).0, capacity)
    decreases |failed|
  {
    if failed != [] {
      var init := failed[..|failed| - 1];
      RemoveAllFromBookKeepsValid(book, capacity, peer, init);
      RemoveFromBookKeepsValid(RemoveAllFromBook(book, peer, init).0, capacity, peer, failed[|failed| - 1]);
    }
  }

  /**
   * A newly reported external address is recorded as self-reported and
   * expiring; the store reports the peer exactly when the address was new.
   */
  lemma NewExternalAddrSpec(book: Book, capacity: PosNat, peer: PeerId, addr: Multiaddr, now: nat)
    ensures var (after, ev) := OnSwarmEventBook(book, capacity, NewExternalAddrOfPeer(peer, addr), now);
            && (ev == Some(RecordUpdated(peer)) <==> peer !in book || addr !in Addresses(book[peer]))
            && (ev == None <==> peer in book && addr in Addresses(book[peer]))
            && after[peer][0].address == addr
            && (peer !in book || addr !in Addresses(book[peer]) ==>
                  after[peer][0].record == AddressRecord(now, Behaviour, true))
  {
  }

  /**
   * An established connection removes the failed addresses, then records the
   * remote address as a direct, non-expiring one. The store reports the peer
   * exactly when the peer was unknown, a failed address was held, or the
   * remote address was not held once the failed ones were gone. Afterwards
   * the remote address is the most recent and no failed address other than
   * it remains.
   */
  lemma ConnectionEstablishedSpec(book: Book, capacity: PosNat, peer: PeerId, failed: seq<Multiaddr>,
                                  remote: Multiaddr, now: nat)
    requires BookValid(book, capacity)
    ensures var (after, ev) := OnSwarmEventBook(book, capacity, ConnectionEstablished(peer, failed, remote), now);
            && after.Keys == book.Keys + {peer}
            && (forall q :: q in book && q != peer ==> after[q] == book[q])
            && (ev == Some(RecordUpdated(peer)) <==>
                  || peer !in book
                  || (exists f :: f in failed && f in Addresses(book[peer]))
                  || remote !in Addresses(Without(book[peer], failed)))
            && (ev.None? <==> !(ev == Some(RecordUpdated(peer))))
            && after[peer][0].address == remote
            && after[peer][0].record.lastSeen == now
            && (forall f :: f in failed && f != remote ==> f !in Addresses(after[peer]))
            && (remote in failed ==> after[peer][0].record == AddressRecord(now, DirectConnection, false))
  {
    RemoveAllFromBookSpec(book, peer, failed);
    RemoveAllFromBookKeepsValid(book, capacity, peer, failed);
    var (pruned, anyRemoved) := RemoveAllFromBook(book, peer, failed);
    UpdateBookSpec(pruned, capacity, peer, remote, DirectConnection, false, now);
    var after := UpdateBook(pruned, capacity, peer, remote, DirectConnection, false, now).0;
    if peer in pruned {
      var es := pruned[peer];
      var r := after[peer];
      forall f | f in failed && f != remote ensures f !in Addresses(r) {
        InAddresses(es);
        if IndexOf(es, remote) < |es| {
          UpsertKnownAddress(es, capacity, remote, DirectConnection, false, now);
        } else {
          UpsertNewAddress(es, capacity, remote, DirectConnection, false, now);
        }
      }
      if remote in failed {
        InAddresses(es);
        assert IndexOf(es, remote) == |es|;
      }
    }
  }

  /** Every other swarm event changes nothing and reports nothing. */
  lemma OtherSwarmEventSpec(book: Book, capacity: PosNat, now: nat)
    ensures OnSwarmEventBook(book, capacity, OtherSwarmEvent, now) == (book, None)
  {
  }

  /** Reacting to any swarm event keeps every record bounded and distinct, and drops no peer. */
  lemma OnSwarmEventKeepsValid(book: Book, capacity: PosNat, event: FromSwarm, now: nat)
    requires BookValid(book, capacity)
    ensures var after := OnSwarmEventBook(book, capacity, event, now).0;
            BookValid(after, capacity) && book.Keys <= after.Keys
  {
    match event
    case NewExternalAddrOfPeer(peer, addr) =>
      UpdateBookKeepsValid(book, capacity, peer, addr, Behaviour, true, now);
    case ConnectionEstablished(peer, failed, remote) =>
      RemoveAllFromBookSpec(book, peer, failed);
      RemoveAllFromBookKeepsValid(book, capacity, peer, failed);
      UpdateBookKeepsValid(RemoveAllFromBook(book, peer, failed).0, capacity, peer, remote,
                           DirectConnection, false, now);
    case OtherSwarmEvent =>
  }

  /**
   * The TTL sweep keeps every peer, drops exactly the expired entries of each
   * record, keeps the rest in order, and keeps every record bounded and distinct.
   */
  lemma CheckTtlBookSpec(book: Book, capacity: PosNat, now: nat, ttl: nat)
    requires BookValid(book, capacity)
    ensures var after := CheckTtlBook(book, now, ttl);
            && after.Keys == book.Keys
            && BookValid(after, capacity)
            && (forall p, e :: p in book ==>
                  (e in after[p] <==> e in book[p] && !e.record.IsExpired(now, ttl)))
            && (forall p :: p in book ==> SubsequenceOf(after[p], book[p]))
  {
    var after := CheckTtlBook(book, now, ttl);
    forall p | p in book ensures |after[p]| <= capacity && DistinctAddresses(after[p]) {
      SubsequenceKeepsShape(after[p], book[p]);
    }
  }

  /**
   * The expiry test: an address recorded as non-expiring survives a sweep
   * that removes an expiring one observed earlier than the TTL allows.
   */
  lemma RecordExpire(capacity: PosNat, peer: PeerId, keep: Multiaddr, drop: Multiaddr,
                     t1: nat, t2: nat, now: nat, ttl: nat)
    requires 2 <= capacity && keep != drop && t1 <= t2 && now > t2 + ttl
    ensures var b1 := UpdateBook(map[], capacity, peer, keep, Manual, false, t1).0;
            var b2 := UpdateBook(b1, capacity, peer, drop, Manual, true, t2).0;
            var after := CheckTtlBook(b2, now, ttl);
            && peer in after
            && keep in Addresses(after[peer])
            && drop !in Addresses(after[peer])
  {
    var b1 := UpdateBook(map[], capacity, peer, keep, Manual, false, t1).0;
    var kept := Entry(keep, AddressRecord(t1, Manual, false));
    var dropped := Entry(drop, AddressRecord(t2, Manual, true));
    UpdateBookSpec(map[], capacity, peer, keep, Manual, false, t1);
    assert b1[peer] == [kept];
    assert IndexOf(b1[peer], drop) == 1;
    var b2 := UpdateBook(b1, capacity, peer, drop, Manual, true, t2).0;
    assert b2[peer] == [dropped, kept];
    assert dropped.record.IsExpired(now, ttl) && !kept.record.IsExpired(now, ttl);
    var swept := CheckTtlBook(b2, now, ttl)[peer];
    assert swept == Sweep(b2[peer], now, ttl);
    assert kept in swept;
    InAddresses(swept);
  }

  /**
   * The new-information signal: the first observation of a (peer, address)
   * pair reports true, an immediate second one reports false.
   */
  lemma NewInformationSignal(book: Book, capacity: PosNat, peer: PeerId, address: Multiaddr,
                             source: AddressSource, shouldExpire: bool, t1: nat, t2: nat)
    requires peer !in book || address !in Addresses(book[peer])
    ensures var (b1, first) := UpdateBook(book, capacity, peer, address, source, shouldExpire, t1);
            var (b2, second) := UpdateBook(b1, capacity, peer, address, source, shouldExpire, t2);
            first && !second
  {
  }
}
