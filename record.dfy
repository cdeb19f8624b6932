/**
 * The per-peer address record: a bounded least-recently-used cache from
 * address to (last seen, source, should expire).
 *
 * The cache is a sequence of entries ordered MOST recent first, which is the
 * order in which the record's iterator yields them; its last element is the
 * least recently used one and the first to be evicted. Times are readings of
 * a clock the caller passes in.
 */
module Record {
  import opened Core
  import opened StoreApi

  /** One observed address's provenance and recency. */
  datatype AddressRecord = AddressRecord(lastSeen: nat, source: AddressSource, shouldExpire: bool)
  {
    /** Time elapsed since the address was last seen; zero when `now` lies before it. */
    function LastSeenSince(now: nat): (d: nat)
      ensures lastSeen <= now ==> lastSeen + d == now
      ensures now < lastSeen ==> d == 0
    {
      if lastSeen <= now then now - lastSeen else 0
    }

    /** An expiring address is stale once strictly more than `ttl` has elapsed. */
    predicate IsExpired(now: nat, ttl: nat)
      ensures IsExpired(now, ttl) <==> shouldExpire && lastSeen + ttl < now
    {
      shouldExpire && LastSeenSince(now) > ttl
    }

    /** The record after the address is seen again at `now`. */
    function Touched(now: nat): (r: AddressRecord)
      ensures r.lastSeen == now
      ensures r.source == source && r.shouldExpire == shouldExpire
    {
      this.(lastSeen := now)
    }
  }

  /** A cache entry: the key (the address) with its record. */
  datatype Entry = Entry(address: Multiaddr, record: AddressRecord)

  /** The keys of the cache, most recent first. */
  function Addresses(es: seq<Entry>): seq<Multiaddr>
  {
    seq(|es|, i requires 0 <= i < |es| => es[i].address)
  }

  /** The keys of joined caches are the joined keys. */
  lemma AddressesConcat(xs: seq<Entry>, ys: seq<Entry>)
    ensures Addresses(xs + ys) == Addresses(xs) + Addresses(ys)
  {
    assert |Addresses(xs + ys)| == |Addresses(xs) + Addresses(ys)|;
    forall k | 0 <= k < |xs + ys| ensures Addresses(xs + ys)[k] == (Addresses(xs) + Addresses(ys))[k] {
      if k < |xs| {
        assert (xs + ys)[k] == xs[k];
      } else {
        assert (xs + ys)[k] == ys[k - |xs|];
      }
    }
  }

  /** The cache maps each address to at most one record. */
  ghost predicate DistinctAddresses(es: seq<Entry>)
  {
    forall i, j :: 0 <= i < j < |es| ==> es[i].address != es[j].address
  }

  /** Entries are ordered from the latest sighting to the oldest. */
  ghost predicate RecencyOrdered(es: seq<Entry>)
  {
    forall i, j :: 0 <= i < j < |es| ==> es[i].record.lastSeen >= es[j].record.lastSeen
  }

  /** `xs` is `ys` with some entries dropped and the rest in their order. */
  ghost predicate SubsequenceOf(xs: seq<Entry>, ys: seq<Entry>)
    decreases |ys|
  {
    xs == [] ||
    (ys != [] &&
     ((xs[0] == ys[0] && SubsequenceOf(xs[1..], ys[1..])) || SubsequenceOf(xs, ys[1..])))
  }

  /** Position of `a` in the cache, or `|es|` when the cache does not hold it. */
  function IndexOf(es: seq<Entry>, a: Multiaddr): (i: nat)
    ensures i <= |es|
    ensures i < |es| ==> es[i].address == a
    ensures forall j :: 0 <= j < i ==> es[j].address != a
    ensures i == |es| <==> a !in Addresses(es)
  {
    if es == [] then 0
    else if es[0].address == a then
      assert Addresses(es)[0] == a;
      0
    else
      var k := IndexOf(es[1..], a);
      assert Addresses(es) == [es[0].address] + Addresses(es[1..]);
      1 + k
  }

  /**
   * The cache after `a` is observed at `now`: a present address moves to the
   * front with a refreshed `lastSeen`; an absent one is inserted at the front with
   * the given source and expiry flag, evicting the last entry when the cache
   * is full.
   */
  function Upsert(es: seq<Entry>, capacity: PosNat, a: Multiaddr, source: AddressSource,
                  shouldExpire: bool, now: nat): seq<Entry>
  {
    var i := IndexOf(es, a);
    if i < |es| then
      [Entry(a, es[i].record.Touched(now))] + es[..i] + es[i + 1..]
    else
      var added := Entry(a, AddressRecord(now, source, shouldExpire));
      if |es| < capacity then [added] + es else [added] + es[..|es| - 1]
  }

  /** The cache without the entry for `a`. */
  function Remove(es: seq<Entry>, a: Multiaddr): (r: seq<Entry>)
    ensures forall e {:trigger e in r} :: e in r <==> e in es && e.address != a
    ensures SubsequenceOf(r, es)
  {
    if es == [] then []
    else if es[0].address == a then Remove(es[1..], a)
    else [es[0]] + Remove(es[1..], a)
  }

  /** The cache without the entries whose address is one of `ks`. */
  function Without(es: seq<Entry>, ks: seq<Multiaddr>): (r: seq<Entry>)
    ensures forall e {:trigger e in r} :: e in r <==> e in es && e.address !in ks
  {
    if es == [] then []
    else if es[0].address in ks then Without(es[1..], ks)
    else [es[0]] + Without(es[1..], ks)
  }

  /** The cache after a TTL sweep at `now`: every expired entry is dropped. */
  function Sweep(es: seq<Entry>, now: nat, ttl: nat): (r: seq<Entry>)
    ensures forall e {:trigger e in r} :: e in r <==> e in es && !e.record.IsExpired(now, ttl)
    ensures SubsequenceOf(r, es)
  {
    if es == [] then []
    else if es[0].record.IsExpired(now, ttl) then Sweep(es[1..], now, ttl)
    else [es[0]] + Sweep(es[1..], now, ttl)
  }

  /** The addresses of the expired entries, in cache order. */
  function ExpiredAddresses(es: seq<Entry>, now: nat, ttl: nat): (r: seq<Multiaddr>)
    ensures forall x {:trigger x in r} :: x in r <==> exists e :: e in es && e.address == x && e.record.IsExpired(now, ttl)
  {
    if es == [] then []
    else
      var init, last := es[..|es| - 1], es[|es| - 1];
      assert es == init + [last];
      ExpiredAddresses(init, now, ttl) + (if last.record.IsExpired(now, ttl) then [last.address] else [])
  }

  /** Dropping the first entry keeps the keys distinct. */
  lemma DistinctTail(es: seq<Entry>)
    requires es != [] && DistinctAddresses(es)
    ensures DistinctAddresses(es[1..])
    ensures forall e :: e in es[1..] ==> e.address != es[0].address
  {
    forall i, j | 0 <= i < j < |es[1..]| ensures es[1..][i].address != es[1..][j].address {
      assert es[1..][i] == es[i + 1] && es[1..][j] == es[j + 1];
    }
    forall e | e in es[1..] ensures e.address != es[0].address {
      var k :| 0 <= k < |es[1..]| && es[1..][k] == e;
      assert es[k + 1] == e;
    }
  }

  /** Removing an address the cache does not hold changes nothing. */
  lemma {:induction false} RemoveAbsent(es: seq<Entry>, a: Multiaddr)
    requires forall e :: e in es ==> e.address != a
    ensures Remove(es, a) == es
  {
    if es != [] {
      assert es[0] in es;
      assert forall e :: e in es[1..] ==> e in es;
      RemoveAbsent(es[1..], a);
    }
  }

  /** For distinct keys, removing the front address drops just the front entry. */
  lemma RemoveFront(es: seq<Entry>)
    requires es != [] && DistinctAddresses(es)
    ensures Remove(es, es[0].address) == es[1..]
  {
    DistinctTail(es);
    RemoveAbsent(es[1..], es[0].address);
  }

  /** For distinct keys, removing the address at position `i` cuts out exactly that entry. */
  lemma {:induction false} RemoveAt(es: seq<Entry>, i: nat)
    requires DistinctAddresses(es) && i < |es|
    ensures Remove(es, es[i].address) == es[..i] + es[i + 1..]
  {
    if i == 0 {
      RemoveFront(es);
    } else {
      DistinctTail(es);
      RemoveAt(es[1..], i - 1);
      assert es[1..][i - 1] == es[i];
      assert es[..i] == [es[0]] + es[1..][..i - 1];
      assert es[i + 1..] == es[1..][i..];
    }
  }

  /** For distinct keys, removing `a` cuts out exactly the one entry at its position. */
  lemma RemoveSplice(es: seq<Entry>, a: Multiaddr)
    requires DistinctAddresses(es)
    ensures var i := IndexOf(es, a);
            Remove(es, a) == if i < |es| then es[..i] + es[i + 1..] else es
  {
    var i := IndexOf(es, a);
    if i < |es| {
      RemoveAt(es, i);
    } else {
      forall e | e in es ensures e.address != a {
        var k :| 0 <= k < |es| && es[k] == e;
      }
      RemoveAbsent(es, a);
    }
  }

  /** Removing `k` from a cache already without `ks` leaves it without `ks + [k]`. */
  lemma {:induction false} RemoveAfterWithout(es: seq<Entry>, ks: seq<Multiaddr>, k: Multiaddr)
    ensures Remove(Without(es, ks), k) == Without(es, ks + [k])
  {
    if es != [] {
      RemoveAfterWithout(es[1..], ks, k);
      assert es[0].address in ks + [k] <==> es[0].address in ks || es[0].address == k;
    }
  }

  /** Dropping no address leaves the cache as it is. */
  lemma {:induction false} WithoutNothing(es: seq<Entry>)
    ensures Without(es, []) == es
  {
    if es != [] {
      WithoutNothing(es[1..]);
    }
  }

  /** Dropping exactly the addresses of the expired entries is the TTL sweep. */
  lemma {:induction false} WithoutExpiredIsSweep(es: seq<Entry>, ks: seq<Multiaddr>, now: nat, ttl: nat)
    requires forall e :: e in es ==> (e.address in ks <==> e.record.IsExpired(now, ttl))
    ensures Without(es, ks) == Sweep(es, now, ttl)
  {
    if es != [] {
      assert es[0] in es;
      forall e | e in es[1..] ensures e.address in ks <==> e.record.IsExpired(now, ttl) {
        assert e in es;
      }
      WithoutExpiredIsSweep(es[1..], ks, now, ttl);
    }
  }

  /** With distinct keys, an address is listed as expired exactly when its own entry has expired. */
  lemma ExpiredAddressesMatch(es: seq<Entry>, now: nat, ttl: nat)
    requires DistinctAddresses(es)
    ensures forall e :: e in es ==> (e.address in ExpiredAddresses(es, now, ttl) <==> e.record.IsExpired(now, ttl))
  {
    forall e | e in es
      ensures e.address in ExpiredAddresses(es, now, ttl) <==> e.record.IsExpired(now, ttl)
    {
      if e.address in ExpiredAddresses(es, now, ttl) {
        var d :| d in es && d.address == e.address && d.record.IsExpired(now, ttl);
        var x :| 0 <= x < |es| && es[x] == d;
        var y :| 0 <= y < |es| && es[y] == e;
        assert x == y;
      }
    }
  }

  /** A subsequence of a cache holds only entries of that cache. */
  lemma {:induction false} SubsequenceMembers(xs: seq<Entry>, ys: seq<Entry>)
    requires SubsequenceOf(xs, ys)
    ensures forall e :: e in xs ==> e in ys
    decreases |ys|
  {
    if xs != [] {
      if xs[0] == ys[0] && SubsequenceOf(xs[1..], ys[1..]) {
        SubsequenceMembers(xs[1..], ys[1..]);
        assert xs == [xs[0]] + xs[1..];
        assert ys == [ys[0]] + ys[1..];
      } else {
        SubsequenceMembers(xs, ys[1..]);
      }
    }
  }

  /** Dropping entries keeps the keys distinct and the recency order intact. */
  lemma {:induction false} SubsequenceKeepsShape(xs: seq<Entry>, ys: seq<Entry>)
    requires SubsequenceOf(xs, ys)
    ensures |xs| <= |ys|
    ensures DistinctAddresses(ys) ==> DistinctAddresses(xs)
    ensures RecencyOrdered(ys) ==> RecencyOrdered(xs)
    decreases |ys|
  {
    if xs != [] {
      if xs[0] == ys[0] && SubsequenceOf(xs[1..], ys[1..]) {
        SubsequenceKeepsShape(xs[1..], ys[1..]);
        SubsequenceMembers(xs[1..], ys[1..]);
        if DistinctAddresses(ys) {
          forall i, j | 0 <= i < j < |xs| ensures xs[i].address != xs[j].address {
            if i == 0 {
              assert xs[j] == xs[1..][j - 1];
              assert xs[j] in xs[1..];
              var k :| 0 <= k < |ys[1..]| && ys[1..][k] == xs[j];
              assert ys[k + 1] == xs[j];
            } else {
              assert xs[i] == xs[1..][i - 1] && xs[j] == xs[1..][j - 1];
            }
          }
        }
        if RecencyOrdered(ys) {
          forall i, j | 0 <= i < j < |xs| ensures xs[i].record.lastSeen >= xs[j].record.lastSeen {
            if i == 0 {
              assert xs[j] == xs[1..][j - 1];
              assert xs[j] in xs[1..];
              var k :| 0 <= k < |ys[1..]| && ys[1..][k] == xs[j];
              assert ys[k + 1] == xs[j];
            } else {
              assert xs[i] == xs[1..][i - 1] && xs[j] == xs[1..][j - 1];
            }
          }
        }
      } else {
        SubsequenceKeepsShape(xs, ys[1..]);
        if DistinctAddresses(ys) {
          assert DistinctAddresses(ys[1..]) by {
            forall i, j | 0 <= i < j < |ys[1..]| ensures ys[1..][i].address != ys[1..][j].address {
              assert ys[1..][i] == ys[i + 1] && ys[1..][j] == ys[j + 1];
            }
          }
        }
        if RecencyOrdered(ys) {
          assert RecencyOrdered(ys[1..]) by {
            forall i, j | 0 <= i < j < |ys[1..]|
              ensures ys[1..][i].record.lastSeen >= ys[1..][j].record.lastSeen
            {
              assert ys[1..][i] == ys[i + 1] && ys[1..][j] == ys[j + 1];
            }
          }
        }
      }
    }
  }

  /** An observation keeps the keys distinct and the cache within its capacity. */
  lemma UpsertKeepsBounds(es: seq<Entry>, capacity: PosNat, a: Multiaddr, source: AddressSource,
                          shouldExpire: bool, now: nat)
    requires |es| <= capacity && DistinctAddresses(es)
    ensures var r := Upsert(es, capacity, a, source, shouldExpire, now);
            |r| <= capacity && DistinctAddresses(r)
  {
    var r := Upsert(es, capacity, a, source, shouldExpire, now);
    var i := IndexOf(es, a);
    if i < |es| {
      forall x, y | 0 <= x < y < |r| ensures r[x].address != r[y].address {
        if y <= i {
          assert r[y] == es[y - 1];
          if x > 0 { assert r[x] == es[x - 1]; }
        } else {
          assert r[y] == es[y];
          if x > i { assert r[x] == es[x]; } else if x > 0 { assert r[x] == es[x - 1]; }
        }
      }
    } else {
      forall x, y | 0 <= x < y < |r| ensures r[x].address != r[y].address {
        assert r[y] == es[y - 1];
        if x > 0 { assert r[x] == es[x - 1]; }
      }
    }
  }

  /** The entries of one peer, as held by the source's LRU cache. */
  class PeerAddressRecord {
    /** The cache contents, most recently used first. */
    var entries: seq<Entry>
    /** The most entries the cache holds. */
    const capacity: PosNat

    ghost predicate Valid()
      reads this
    {
      |entries| <= capacity && DistinctAddresses(entries)
    }

    /** An empty record of the given capacity. */
    constructor (capacity: PosNat)
      ensures Valid() && this.capacity == capacity && entries == []
    {
      this.capacity := capacity;
      entries := [];
    }

    /**
     * Records that `address` was observed at `now`. Returns true only when the
     * address was not yet in the record.
     */
    method UpdateAddress(address: Multiaddr, source: AddressSource, shouldExpire: bool, now: nat)
      returns (isNew: bool)
      requires Valid()
      modifies this
      ensures Valid()
      ensures isNew <==> address !in Addresses(old(entries))
      ensures entries == Upsert(old(entries), capacity, address, source, shouldExpire, now)
    {
      UpsertKeepsBounds(entries, capacity, address, source, shouldExpire, now);
      var i := IndexOf(entries, address);
      if i < |entries| {
        // get_mut promotes the entry; update_last_seen refreshes it
        var touched := entries[i].record.Touched(now);
        entries := [Entry(address, touched)] + entries[..i] + entries[i + 1..];
        return false;
      }
      var added := Entry(address, AddressRecord(now, source, shouldExpire));
      if |entries| < capacity {
        entries := [added] + entries;
      } else {
        // a full cache drops its least recently used entry
        entries := [added] + entries[..|entries| - 1];
      }
      isNew := true;
    }

    /** Drops the entry for `address`; reports whether there was one. */
    method RemoveAddress(address: Multiaddr) returns (present: bool)
      requires Valid()
      modifies this
      ensures Valid()
      ensures present <==> address in Addresses(old(entries))
      ensures entries == Remove(old(entries), address)
    {
      RemoveSplice(entries, address);
      SubsequenceKeepsShape(Remove(entries, address), entries);
      var i := IndexOf(entries, address);
      if i < |entries| {
        entries := entries[..i] + entries[i + 1..];
        present := true;
      } else {
        present := false;
      }
    }

    /**
     * Drops every entry that has expired at `now` under `ttl`: first collects
     * their addresses, then pops them one by one.
     */
    method CheckTtl(now: nat, ttl: nat)
      requires Valid()
      modifies this
      ensures Valid()
      ensures entries == Sweep(old(entries), now, ttl)
    {
      var toDelete: seq<Multiaddr> := [];
      var i := 0;
      while i < |entries|
        invariant 0 <= i <= |entries|
        invariant entries == old(entries)
        invariant toDelete == ExpiredAddresses(entries[..i], now, ttl)
      {
        assert entries[..i + 1][..i] == entries[..i];
        if entries[i].record.IsExpired(now, ttl) {
          toDelete := toDelete + [entries[i].address];
        }
        i := i + 1;
      }
      assert entries[..i] == entries;
      WithoutNothing(entries);
      var j := 0;
      while j < |toDelete|
        invariant 0 <= j <= |toDelete|
        invariant Valid()
        invariant entries == Without(old(entries), toDelete[..j])
      {
        var _ := RemoveAddress(toDelete[j]);
        RemoveAfterWithout(old(entries), toDelete[..j], toDelete[j]);
        assert toDelete[..j + 1] == toDelete[..j] + [toDelete[j]];
        j := j + 1;
      }
      assert toDelete[..j] == toDelete;
      ExpiredAddressesMatch(old(entries), now, ttl);
      WithoutExpiredIsSweep(old(entries), toDelete, now, ttl);
    }
  }
}
