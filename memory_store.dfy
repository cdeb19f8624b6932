/**
 * The in-memory store: an address book mapping every peer ever seen to its
 * own bounded address cache, created lazily, plus the store's configuration.
 * Each method is specified by the matching function on the book's value
 * (module AddressBook), whose properties are proved there.
 */
module InMemoryStore {
  import opened Core
  import opened StoreApi
  import opened Record
  import opened AddressBook

  const NanosPerSecond: nat := 1_000_000_000

  /** Time to live of an expiring address (nanoseconds) and the per-peer capacity. */
  datatype Config = Config(recordTtl: nat, recordCapacity: PosNat)

  /** The default configuration: addresses live ten minutes, each peer keeps eight. */
  function DefaultConfig(): (c: Config)
    ensures c.recordTtl == 600 * NanosPerSecond
    ensures c.recordCapacity == 8
  {
    Config(600 * NanosPerSecond, 8)
  }

  class MemoryStore {
    /** One address cache per peer, regardless of whether it is connected. */
    var addressBook: map<PeerId, PeerAddressRecord>
    const config: Config

    /**
     * Every cache is well formed and has the configured capacity, and no two
     * peers share a cache object.
     */
    ghost predicate Valid()
      reads this, addressBook.Values
    {
      && (forall p :: p in addressBook ==>
            addressBook[p].Valid() && addressBook[p].capacity == config.recordCapacity)
      && (forall p, q :: p in addressBook && q in addressBook && p != q ==> addressBook[p] != addressBook[q])
    }

    /** The address book as a value: each peer's entries, most recent first. */
    ghost function Book(): Book
      reads this, addressBook.Values
    {
      map p | p in addressBook :: addressBook[p].entries
    }

    constructor (config: Config)
      ensures Valid()
      ensures this.config == config && addressBook == map[]
    {
      this.config := config;
      addressBook := map[];
    }

    /** The store built with the default configuration. */
    constructor Default()
      ensures Valid()
      ensures config == DefaultConfig() && addressBook == map[]
    {
      config := DefaultConfig();
      addressBook := map[];
    }

    /**
     * Observe `address` for `peer`; an unknown peer gets a new cache. The
     * answer says whether the address was new for the peer.
     */
    method UpdateAddress(peer: PeerId, address: Multiaddr, source: AddressSource,
                         shouldExpire: bool, now: nat) returns (isNew: bool)
      requires Valid()
      modifies this, addressBook.Values
      ensures Valid()
      ensures (Book(), isNew) == UpdateBook(old(Book()), config.recordCapacity, peer, address, source,
                                            shouldExpire, now)
      ensures forall p :: p in old(addressBook) ==> p in addressBook && addressBook[p] == old(addressBook[p])
      ensures forall r :: r in addressBook.Values ==> r in old(addressBook.Values) || fresh(r)
    {
      if peer in addressBook {
        var record := addressBook[peer];
        isNew := record.UpdateAddress(address, source, shouldExpire, now);
        assert Book() == old(Book())[peer := record.entries];
        return;
      }
      var record := new PeerAddressRecord(config.recordCapacity);
      var _ := record.UpdateAddress(address, source, shouldExpire, now);
      addressBook := addressBook[peer := record];
      isNew := true;
      assert Book() == old(Book())[peer := record.entries];
    }

    /** Forget `address` for `peer`; the answer says whether it was stored. */
    method RemoveAddress(peer: PeerId, address: Multiaddr) returns (removed: bool)
      requires Valid()
      modifies addressBook.Values
      ensures Valid() && addressBook == old(addressBook)
      ensures (Book(), removed) == RemoveFromBook(old(Book()), peer, address)
    {
      if peer in addressBook {
        var record := addressBook[peer];
        removed := record.RemoveAddress(address);
        assert Book() == old(Book())[peer := record.entries];
        return;
      }
      removed := false;
    }

    /** React to a swarm lifecycle event, reporting the peer when its record changed. */
    method OnSwarmEvent(event: FromSwarm, now: nat) returns (ev: Option<Event<FromStore>>)
      requires Valid()
      modifies this, addressBook.Values
      ensures Valid()
      ensures (Book(), ev) == OnSwarmEventBook(old(Book()), config.recordCapacity, event, now)
      ensures forall p :: p in old(addressBook) ==> p in addressBook && addressBook[p] == old(addressBook[p])
      ensures forall r :: r in addressBook.Values ==> r in old(addressBook.Values) || fresh(r)
    {
      match event
      case NewExternalAddrOfPeer(peer, addr) =>
        var updated := UpdateAddress(peer, addr, Behaviour, true, now);
        ev := if updated then Some(RecordUpdated(peer)) else None;
      case ConnectionEstablished(peer, failed, remote) =>
        var isRecordUpdated := false;
        var i := 0;
        while i < |failed|
          invariant 0 <= i <= |failed|
          invariant Valid() && addressBook == old(addressBook)
          invariant (Book(), isRecordUpdated) == RemoveAllFromBook(old(Book()), peer, failed[..i])
        {
          assert failed[..i + 1][..i] == failed[..i];
          var removed := RemoveAddress(peer, failed[i]);
          isRecordUpdated := isRecordUpdated || removed;
          i := i + 1;
        }
        assert failed[..i] == failed;
        var updated := UpdateAddress(peer, remote, DirectConnection, false, now);
        isRecordUpdated := isRecordUpdated || updated;
        ev := if isRecordUpdated then Some(RecordUpdated(peer)) else None;
      case OtherSwarmEvent =>
        ev := None;
    }

    /**
     * The addresses of `peer`, most recent first, or None when the peer was
     * never recorded. A well-formed store lists each address once and never
     * more than the capacity.
     */
    function AddressesOfPeer(peer: PeerId): (r: Option<seq<Multiaddr>>)
      reads this, addressBook.Values
      ensures r.None? <==> peer !in Book()
      ensures r.Some? ==> r.value == Addresses(Book()[peer])
      ensures r.Some? ==> |r.value| == |Book()[peer]|
                          && forall x :: x in r.value <==> exists e :: e in Book()[peer] && e.address == x
      ensures r.Some? && Valid() ==>
                |r.value| <= config.recordCapacity
                && forall i, j :: 0 <= i < j < |r.value| ==> r.value[i] != r.value[j]
    {
      if peer in addressBook then
        var es := addressBook[peer].entries;
        InAddresses(es);
        Some(Addresses(es))
      else
        None
    }

    /** Sweep every peer's cache of its expired addresses; no peer is dropped. */
    method CheckTtl(now: nat)
      requires Valid()
      modifies addressBook.Values
      ensures Valid() && addressBook == old(addressBook)
      ensures Book() == CheckTtlBook(old(Book()), now, config.recordTtl)
    {
      var pending := addressBook.Keys;
      while pending != {}
        invariant pending <= addressBook.Keys
        invariant Valid() && addressBook == old(addressBook)
        invariant forall p :: p in addressBook ==>
                    addressBook[p].entries == if p in pending then old(addressBook[p].entries)
                                              else Sweep(old(addressBook[p].entries), now, config.recordTtl)
        decreases pending
      {
        var p :| p in pending;
        addressBook[p].CheckTtl(now, config.recordTtl);
        pending := pending - {p};
      }
    }

    /** The in-memory store never produces events of its own. */
    method Poll() returns (ev: Option<Event<FromStore>>)
      ensures ev == None
    {
      ev := None;
    }
  }
}
