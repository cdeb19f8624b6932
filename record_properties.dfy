/**
 * What the per-peer record promises: an observation either inserts a new
 * address at the front (evicting the least recently used entry of a full
 * cache) or refreshes a known one, removal drops exactly one address, and the
 * TTL sweep drops exactly the expired entries. The scenario lemmas at the end
 * restate the record's unit tests over every input of their shape.
 */
module RecordProperties {
  import opened Core
  import opened StoreApi
  import opened Record

  /** A new address goes to the front; a full cache loses exactly its least recently used entry. */
  lemma UpsertNewAddress(es: seq<Entry>, capacity: PosNat, a: Multiaddr, source: AddressSource,
                         shouldExpire: bool, now: nat)
    requires |es| <= capacity && DistinctAddresses(es) && a !in Addresses(es)
    ensures var r := Upsert(es, capacity, a, source, shouldExpire, now);
            && r[0] == Entry(a, AddressRecord(now, source, shouldExpire))
            && |r| == (if |es| < capacity then |es| + 1 else capacity)
            && (|es| < capacity ==> r[1..] == es)
            && (|es| == capacity ==> r[1..] == es[..|es| - 1])
            && (forall x :: x in Addresses(r) <==>
                  x == a || (x in Addresses(es) && !(|es| == capacity && x == es[|es| - 1].address)))
  {
    var r := Upsert(es, capacity, a, source, shouldExpire, now);
    assert IndexOf(es, a) == |es|;
    forall x ensures x in Addresses(r) <==>
      x == a || (x in Addresses(es) && !(|es| == capacity && x == es[|es| - 1].address))
    {
      if x in Addresses(r) && x != a {
        var k :| 0 <= k < |r| && Addresses(r)[k] == x;
        assert k > 0 && r[k] == es[k - 1];
        assert Addresses(es)[k - 1] == x;
        if |es| == capacity {
          assert k - 1 < |es| - 1;
        }
      }
      if x in Addresses(es) && !(|es| == capacity && x == es[|es| - 1].address) {
        var k :| 0 <= k < |es| && Addresses(es)[k] == x;
        if |es| == capacity {
          assert k < |es| - 1;
        }
        assert r[k + 1] == es[k];
        assert Addresses(r)[k + 1] == x;
      }
      if x == a {
        assert Addresses(r)[0] == a;
      }
    }
  }

  /** The shape of the cache after a known address is observed again. */
  lemma UpsertKnownShape(es: seq<Entry>, capacity: PosNat, a: Multiaddr, source: AddressSource,
                         shouldExpire: bool, now: nat)
    requires IndexOf(es, a) < |es|
    ensures var i := IndexOf(es, a);
            var r := Upsert(es, capacity, a, source, shouldExpire, now);
            && r[0] == Entry(a, es[i].record.Touched(now))
            && r[1..] == es[..i] + es[i + 1..]
            && |r| == |es|
  {
    var i := IndexOf(es, a);
    var front := Entry(a, es[i].record.Touched(now));
    var rest := es[..i] + es[i + 1..];
    assert Upsert(es, capacity, a, source, shouldExpire, now) == [front] + rest;
  }

  /**
   * Re-observing a known address moves it to the front with `lastSeen` set to
   * `now`, keeps its source and expiry flag, and keeps the other entries in
   * their order; the set of addresses does not change.
   */
  lemma UpsertKnownAddress(es: seq<Entry>, capacity: PosNat, a: Multiaddr, source: AddressSource,
                           shouldExpire: bool, now: nat)
    requires DistinctAddresses(es) && a in Addresses(es)
    ensures var i := IndexOf(es, a);
            var r := Upsert(es, capacity, a, source, shouldExpire, now);
            && i < |es|
            && r[0].address == a
            && r[0].record == AddressRecord(now, es[i].record.source, es[i].record.shouldExpire)
            && r[1..] == Remove(es, a)
            && |r| == |es|
            && (forall x :: x in Addresses(r) <==> x in Addresses(es))
  {
    var i := IndexOf(es, a);
    var r := Upsert(es, capacity, a, source, shouldExpire, now);
    UpsertKnownShape(es, capacity, a, source, shouldExpire, now);
    RemoveSplice(es, a);
    MoveToFrontKeepsAddresses(es, i, r[0]);
    assert r == [r[0]] + r[1..];
  }

  /** Moving the entry at `i` to the front, under the same address, keeps the set of addresses. */
  lemma MoveToFrontKeepsAddresses(es: seq<Entry>, i: nat, front: Entry)
    requires i < |es| && front.address == es[i].address
    ensures forall x :: x in Addresses([front] + (es[..i] + es[i + 1..])) <==> x in Addresses(es)
  {
    var before, after := es[..i], es[i + 1..];
    assert es == before + [es[i]] + after;
    assert [front] + (before + after) == [front] + before + after;
    AddressesConcat([front] + before, after);
    AddressesConcat([front], before);
    AddressesConcat(before + [es[i]], after);
    AddressesConcat(before, [es[i]]);
    assert Addresses([front]) == Addresses([es[i]]);
  }

  /** Prepending an entry no older than any other keeps a cache ordered by recency. */
  lemma RecencyOrderedCons(e: Entry, s: seq<Entry>)
    requires RecencyOrdered(s)
    requires forall d :: d in s ==> d.record.lastSeen <= e.record.lastSeen
    ensures RecencyOrdered([e] + s)
  {
    forall x, y | 0 <= x < y < |[e] + s|
      ensures ([e] + s)[x].record.lastSeen >= ([e] + s)[y].record.lastSeen
    {
      assert ([e] + s)[y] == s[y - 1];
      assert s[y - 1] in s;
      if x > 0 {
        assert ([e] + s)[x] == s[x - 1];
      }
    }
  }

  /** Cutting out one entry keeps a cache ordered by recency. */
  lemma RecencyOrderedSplice(es: seq<Entry>, i: nat)
    requires RecencyOrdered(es) && i < |es|
    ensures RecencyOrdered(es[..i] + es[i + 1..])
  {
    var s := es[..i] + es[i + 1..];
    forall x, y | 0 <= x < y < |s| ensures s[x].record.lastSeen >= s[y].record.lastSeen {
      var x' := if x < i then x else x + 1;
      var y' := if y < i then y else y + 1;
      assert s[x] == es[x'] && s[y] == es[y'];
    }
  }

  /**
   * With a clock that never runs backwards, an observation keeps the cache
   * ordered by recency: the front entry is the latest sighting.
   */
  lemma UpsertKeepsRecencyOrder(es: seq<Entry>, capacity: PosNat, a: Multiaddr, source: AddressSource,
                                shouldExpire: bool, now: nat)
    requires RecencyOrdered(es)
    requires forall e :: e in es ==> e.record.lastSeen <= now
    ensures var r := Upsert(es, capacity, a, source, shouldExpire, now);
            RecencyOrdered(r) && forall e :: e in r ==> e.record.lastSeen <= now
  {
    var i := IndexOf(es, a);
    if i < |es| {
      var rest := es[..i] + es[i + 1..];
      RecencyOrderedSplice(es, i);
      var r := Upsert(es, capacity, a, source, shouldExpire, now);
      assert r == [r[0]] + rest;
      assert forall d :: d in rest ==> d in es;
      RecencyOrderedCons(r[0], rest);
    } else if |es| < capacity {
      var r := Upsert(es, capacity, a, source, shouldExpire, now);
      assert r == [r[0]] + es;
      RecencyOrderedCons(r[0], es);
    } else {
      var rest := es[..|es| - 1];
      var r := Upsert(es, capacity, a, source, shouldExpire, now);
      assert r == [r[0]] + rest;
      assert forall d :: d in rest ==> d in es;
      RecencyOrderedCons(r[0], rest);
    }
  }

  /** Inserting a new address into a cache with room and removing it again restores the cache. */
  lemma {:induction false} RemoveUndoesInsert(es: seq<Entry>, capacity: PosNat, a: Multiaddr,
                                              source: AddressSource, shouldExpire: bool, now: nat)
    requires |es| < capacity && a !in Addresses(es)
    ensures Remove(Upsert(es, capacity, a, source, shouldExpire, now), a) == es
  {
    assert IndexOf(es, a) == |es|;
    forall e | e in es ensures e.address != a {
      var k :| 0 <= k < |es| && es[k] == e;
      assert Addresses(es)[k] == e.address;
    }
    RemoveAbsent(es, a);
    var r := Upsert(es, capacity, a, source, shouldExpire, now);
    assert r == [r[0]] + es;
  }

  /** The keys around position `i`, split at `i`. */
  lemma AddressesAround(es: seq<Entry>, i: nat)
    requires i < |es|
    ensures Addresses(es) == Addresses(es[..i]) + [es[i].address] + Addresses(es[i + 1..])
    ensures Addresses(es[..i] + es[i + 1..]) == Addresses(es[..i]) + Addresses(es[i + 1..])
  {
    assert es == es[..i] + [es[i]] + es[i + 1..];
    AddressesConcat(es[..i] + [es[i]], es[i + 1..]);
    AddressesConcat(es[..i], [es[i]]);
    AddressesConcat(es[..i], es[i + 1..]);
  }

  /**
   * Removal reports presence correctly: with distinct keys, exactly one entry
   * goes when the address was present and none otherwise, and no other
   * address is affected.
   */
  lemma RemoveDropsOneAddress(es: seq<Entry>, a: Multiaddr)
    requires DistinctAddresses(es)
    ensures var r := Remove(es, a);
            && |r| == (if a in Addresses(es) then |es| - 1 else |es|)
            && a !in Addresses(r)
            && (forall x :: x != a ==> (x in Addresses(r) <==> x in Addresses(es)))
  {
    var i := IndexOf(es, a);
    RemoveSplice(es, a);
    if i < |es| {
      AddressesAround(es, i);
      var before, after := es[..i], es[i + 1..];
      assert a !in Addresses(after) by {
        forall k | 0 <= k < |after| ensures Addresses(after)[k] != a {
          assert after[k] == es[i + 1 + k];
        }
      }
      assert a !in Addresses(before) by {
        forall k | 0 <= k < i ensures Addresses(before)[k] != a {
          assert before[k] == es[k];
        }
      }
    }
  }

  /** The TTL sweep is idempotent: a second sweep at the same instant removes nothing more. */
  lemma {:induction false} SweepIdempotent(es: seq<Entry>, now: nat, ttl: nat)
    ensures Sweep(Sweep(es, now, ttl), now, ttl) == Sweep(es, now, ttl)
  {
    if es != [] {
      SweepIdempotent(es[1..], now, ttl);
    }
  }

  /** Entries that never expire survive every sweep; an expiring entry survives only while fresh. */
  lemma SweepRespectsExpiryFlag(es: seq<Entry>, now: nat, ttl: nat)
    ensures forall e :: e in es && !e.record.shouldExpire ==> e in Sweep(es, now, ttl)
    ensures forall e :: e in es && e.record.shouldExpire ==>
              (e in Sweep(es, now, ttl) <==> e.record.LastSeenSince(now) <= ttl)
  {
  }

  /** Observing each address of `addrs` in turn, oldest first. */
  function ObserveAll(es: seq<Entry>, capacity: PosNat, addrs: seq<Multiaddr>, source: AddressSource,
                      shouldExpire: bool, now: nat): seq<Entry>
    decreases |addrs|
  {
    if addrs == [] then es
    else Upsert(ObserveAll(es, capacity, addrs[..|addrs| - 1], source, shouldExpire, now),
                capacity, addrs[|addrs| - 1], source, shouldExpire, now)
  }

  /** `r` holds the `capacity` newest of `addrs`, newest first. */
  ghost predicate NewestFirst(r: seq<Entry>, addrs: seq<Multiaddr>, capacity: PosNat)
  {
    && |r| == (if |addrs| < capacity then |addrs| else capacity)
    && forall k :: 0 <= k < |r| ==> r[k].address == addrs[|addrs| - 1 - k]
  }

  /** One more observation of an address not seen before keeps the newest ones. */
  lemma ObserveStep(prev: seq<Entry>, init: seq<Multiaddr>, capacity: PosNat, x: Multiaddr,
                    source: AddressSource, shouldExpire: bool, now: nat)
    requires NewestFirst(prev, init, capacity) && x !in init
    ensures NewestFirst(Upsert(prev, capacity, x, source, shouldExpire, now), init + [x], capacity)
  {
    var n := |init| + 1;
    var addrs := init + [x];
    assert x !in Addresses(prev) by {
      forall k | 0 <= k < |prev| ensures Addresses(prev)[k] != x {
        assert prev[k].address == init[|init| - 1 - k];
      }
    }
    var r := Upsert(prev, capacity, x, source, shouldExpire, now);
    forall k | 0 <= k < |r| ensures r[k].address == addrs[n - 1 - k] {
      if k > 0 {
        assert r[k] == prev[k - 1];
        assert addrs[n - 1 - k] == init[|init| - 1 - (k - 1)];
      }
    }
  }

  /**
   * Observing distinct addresses in an empty record leaves the `capacity`
   * newest ones, newest first.
   */
  lemma {:induction false} ObserveAllKeepsNewest(capacity: PosNat, addrs: seq<Multiaddr>,
                                                 source: AddressSource, shouldExpire: bool, now: nat)
    requires forall i, j :: 0 <= i < j < |addrs| ==> addrs[i] != addrs[j]
    ensures NewestFirst(ObserveAll([], capacity, addrs, source, shouldExpire, now), addrs, capacity)
  {
    if addrs != [] {
      var init := addrs[..|addrs| - 1];
      var x := addrs[|addrs| - 1];
      ObserveAllKeepsNewest(capacity, init, source, shouldExpire, now);
      assert x !in init by {
        forall k | 0 <= k < |init| ensures init[k] != x {
          assert init[k] == addrs[k];
        }
      }
      ObserveStep(ObserveAll([], capacity, init, source, shouldExpire, now), init, capacity, x,
                  source, shouldExpire, now);
      assert init + [x] == addrs;
    }
  }

  /**
   * Observing distinct addresses in an empty record: an address is still held
   * exactly when fewer than `capacity` addresses were observed after it.
   */
  lemma ObserveAllEvictsOldest(capacity: PosNat, addrs: seq<Multiaddr>,
                               source: AddressSource, shouldExpire: bool, now: nat)
    requires forall i, j :: 0 <= i < j < |addrs| ==> addrs[i] != addrs[j]
    ensures var r := ObserveAll([], capacity, addrs, source, shouldExpire, now);
            forall k :: 0 <= k < |addrs| ==> (addrs[k] in Addresses(r) <==> |addrs| - k <= capacity)
  {
    var r := ObserveAll([], capacity, addrs, source, shouldExpire, now);
    ObserveAllKeepsNewest(capacity, addrs, source, shouldExpire, now);
    forall k | 0 <= k < |addrs| ensures addrs[k] in Addresses(r) <==> |addrs| - k <= capacity {
      if |addrs| - k <= capacity {
        assert Addresses(r)[|addrs| - 1 - k] == addrs[k];
      }
      if addrs[k] in Addresses(r) {
        var j :| 0 <= j < |r| && Addresses(r)[j] == addrs[k];
        assert addrs[|addrs| - 1 - j] == addrs[k];
      }
    }
  }

  /**
   * The bounded-store test: with capacity 8, after nine distinct addresses the
   * first is gone and the second is kept.
   */
  lemma BoundedStore(addrs: seq<Multiaddr>, source: AddressSource, shouldExpire: bool, now: nat)
    requires |addrs| == 9
    requires forall i, j :: 0 <= i < j < |addrs| ==> addrs[i] != addrs[j]
    ensures var r := ObserveAll([], 8, addrs, source, shouldExpire, now);
            addrs[0] !in Addresses(r) && addrs[1] in Addresses(r)
  {
    ObserveAllEvictsOldest(8, addrs, source, shouldExpire, now);
  }

  /**
   * The recent-use test: after observing `a` then `b`, `a` is the least
   * recently used; observing `a` again makes `b` the least recently used.
   */
  lemma RecentUseBubbleUp(capacity: PosNat, a: Multiaddr, b: Multiaddr, source: AddressSource,
                          shouldExpire: bool, t1: nat, t2: nat, t3: nat)
    requires 2 <= capacity && a != b
    ensures var s1 := Upsert([], capacity, a, source, shouldExpire, t1);
            var s2 := Upsert(s1, capacity, b, source, shouldExpire, t2);
            var s3 := Upsert(s2, capacity, a, source, shouldExpire, t3);
            && s2[|s2| - 1].address == a
            && s3[|s3| - 1].address == b
  {
    var s1 := Upsert([], capacity, a, source, shouldExpire, t1);
    var s2 := Upsert(s1, capacity, b, source, shouldExpire, t2);
    assert IndexOf(s1, b) == 1;
    assert s2 == [Entry(b, AddressRecord(t2, source, shouldExpire)), Entry(a, AddressRecord(t1, source, shouldExpire))];
    assert IndexOf(s2, a) == 1;
  }
}
