/** The finite least-recently-used cache with leases that backs both the search table and the
    artifact table. A search entry has one expiry, so its `freshUntil` and `staleUntil` coincide. */
module LeaseCache {
  import opened Sets

  datatype Entry<K, V> = Entry(key: K, value: V, freshUntil: real, staleUntil: real)

  datatype Answer<V> = Invalid | Miss | Hit(value: V)

  datatype Op<K, V> =
    | Put(entry: Entry<K, V>)
    | Get(key: K, now: real, allowStale: bool)

  // ---------------------------------------------------------------------------------------
  // One operation
  // ---------------------------------------------------------------------------------------

  predicate Distinct<K(==), V>(entries: seq<Entry<K, V>>) {
    forall i, j | 0 <= i < j < |entries| :: entries[i].key != entries[j].key
  }

  function Keys<K, V(==)>(entries: seq<Entry<K, V>>): set<K> {
    set e | e in entries :: e.key
  }

  function Without<K(==, !new), V(!new)>(entries: seq<Entry<K, V>>, key: K): (r: seq<Entry<K, V>>)
    ensures forall e :: e in r <==> e in entries && e.key != key
    ensures |r| <= |entries|
  {
    if entries == [] then []
    else if entries[0].key == key then Without(entries[1..], key)
    else [entries[0]] + Without(entries[1..], key)
  }

  function EntryOf<K(==), V(==)>(entries: seq<Entry<K, V>>, key: K): (e: Entry<K, V>)
    requires key in Keys(entries)
    ensures e in entries && e.key == key
  {
    if entries[0].key == key then entries[0] else EntryOf(entries[1..], key)
  }

  predicate IsLease<K, V>(e: Entry<K, V>) {
    0.0 <= e.freshUntil <= e.staleUntil
  }

  predicate Serves<K, V>(e: Entry<K, V>, now: real, allowStale: bool) {
    now < e.staleUntil && (now < e.freshUntil || allowStale)
  }

  /** Drop from the old end what is over the capacity. */
  function Newest<K, V>(entries: seq<Entry<K, V>>, capacity: nat): seq<Entry<K, V>> {
    if |entries| <= capacity then entries else entries[|entries| - capacity..]
  }

  function Step<K(==, !new), V(==, !new)>(entries: seq<Entry<K, V>>, op: Op<K, V>, capacity: nat): (seq<Entry<K, V>>, Answer<V>) {
    match op
    case Put(e) =>
      if !IsLease(e) then (entries, Invalid)
      else (Newest(Without(entries, e.key) + [e], capacity), Miss)
    case Get(key, now, allowStale) =>
      if now < 0.0 then (entries, Invalid)
      else if key !in Keys(entries) then (entries, Miss)
      else
        var e := EntryOf(entries, key);
        if now >= e.staleUntil then (Without(entries, key), Miss)
        else if now >= e.freshUntil && !allowStale then (entries, Miss)
        else (Without(entries, key) + [e], Hit(e.value))
  }

  class LeasedLru<K(==, !new), V(==, !new)> {
    const capacity: nat
    var entries: seq<Entry<K, V>>

    ghost predicate Valid() reads this {
      capacity > 0 && |entries| <= capacity && Distinct(entries)
    }

    constructor (capacity: nat)
      requires capacity > 0
      ensures Valid() && this.capacity == capacity && entries == []
    {
      this.capacity := capacity;
      entries := [];
    }

    /** Answers `Invalid` for a lease that the source rejects, and changes nothing then. */
    method PutEntry(e: Entry<K, V>) returns (answer: Answer<V>)
      requires Valid()
      modifies this
      ensures Valid()
      ensures (entries, answer) == Step(old(entries), Put(e), capacity)
    {
      if e.freshUntil < 0.0 || e.staleUntil < 0.0 || e.staleUntil < e.freshUntil {
        return Invalid;
      }
      WithoutKeepsDistinct(entries, e.key);
      DistinctAppend(Without(entries, e.key), e);
      entries := Without(entries, e.key) + [e];
      while |entries| > capacity
        invariant Distinct(entries)
        invariant Newest(entries, capacity) == Newest(Without(old(entries), e.key) + [e], capacity)
      {
        entries := entries[1..];
      }
      answer := Miss;
    }

    method GetEntry(key: K, now: real, allowStale: bool) returns (answer: Answer<V>)
      requires Valid()
      modifies this
      ensures Valid()
      ensures (entries, answer) == Step(old(entries), Get(key, now, allowStale), capacity)
    {
      if now < 0.0 {
        return Invalid;
      }
      if key !in Keys(entries) {
        return Miss;
      }
      var e := EntryOf(entries, key);
      WithoutKeepsDistinct(entries, key);
      if now >= e.staleUntil {
        entries := Without(entries, key);
        return Miss;
      }
      if now >= e.freshUntil && !allowStale {
        return Miss;
      }
      WithoutIsShorter(entries, key);
      DistinctAppend(Without(entries, key), e);
      entries := Without(entries, key) + [e];
      answer := Hit(e.value);
    }
  }

  lemma DistinctTail<K(!new), V(!new)>(entries: seq<Entry<K, V>>)
    requires entries != [] && Distinct(entries)
    ensures Distinct(entries[1..]) && entries[0].key !in Keys(entries[1..])
  {
    forall e | e in entries[1..] ensures e.key != entries[0].key {
      var i :| 0 <= i < |entries| - 1 && entries[1..][i] == e;
      assert entries[i + 1] == e;
    }
  }

  lemma DistinctAppend<K(!new), V(!new)>(entries: seq<Entry<K, V>>, e: Entry<K, V>)
    requires Distinct(entries) && e.key !in Keys(entries)
    ensures Distinct(entries + [e])
  {
    forall i | 0 <= i < |entries| ensures entries[i].key != e.key {
      assert entries[i] in entries;
    }
  }

  lemma DistinctPrepend<K(!new), V(!new)>(e: Entry<K, V>, entries: seq<Entry<K, V>>)
    requires Distinct(entries) && e.key !in Keys(entries)
    ensures Distinct([e] + entries)
  {
    forall i | 0 <= i < |entries| ensures entries[i].key != e.key {
      assert entries[i] in entries;
    }
  }

  lemma {:induction false} WithoutKeepsDistinct<K(!new), V(!new)>(entries: seq<Entry<K, V>>, key: K)
    requires Distinct(entries)
    ensures Distinct(Without(entries, key)) && key !in Keys(Without(entries, key))
  {
    if entries != [] {
      DistinctTail(entries);
      WithoutKeepsDistinct(entries[1..], key);
      if entries[0].key != key {
        assert entries[0].key !in Keys(Without(entries[1..], key));
        DistinctPrepend(entries[0], Without(entries[1..], key));
      }
    }
  }

  lemma {:induction false} WithoutIsShorter<K(!new), V(!new)>(entries: seq<Entry<K, V>>, key: K)
    requires key in Keys(entries)
    ensures |Without(entries, key)| < |entries|
  {
    if entries[0].key != key {
      assert key in Keys(entries[1..]);
      WithoutIsShorter(entries[1..], key);
    }
  }

  // ---------------------------------------------------------------------------------------
  // Runs
  // ---------------------------------------------------------------------------------------

  function Init<T>(h: seq<T>): seq<T>
    requires h != []
  {
    h[..|h| - 1]
  }

  function Last<T>(h: seq<T>): T
    requires h != []
  {
    h[|h| - 1]
  }

  /** The cache after the operations of `h`, the last one being the most recent. */
  function After<K(==, !new), V(==, !new)>(h: seq<Op<K, V>>, capacity: nat): seq<Entry<K, V>>
    decreases |h|
  {
    if h == [] then [] else Step(After(Init(h), capacity), Last(h), capacity).0
  }

  /** The unbounded timed map: a put sets its key and a read at or past the lease removes it. */
  function Timed<K, V>(h: seq<Op<K, V>>): map<K, Entry<K, V>>
    decreases |h|
  {
    if h == [] then map[]
    else
      var m := Timed(Init(h));
      match Last(h)
      case Put(e) => if IsLease(e) then m[e.key := e] else m
      case Get(key, now, _) =>
        if now >= 0.0 && key in m && now >= m[key].staleUntil then m - {key} else m
  }

  /** The operation puts `key`, or reads it and finds it. */
  predicate Uses<K(==, !new), V(==, !new)>(entries: seq<Entry<K, V>>, op: Op<K, V>, key: K, capacity: nat) {
    match op
    case Put(e) => e.key == key && IsLease(e)
    case Get(k, _, _) => k == key && Step(entries, op, capacity).1.Hit?
  }

  /** The other keys that were put or hit since `key` last was. */
  ghost function UsedSince<K(!new), V(!new)>(h: seq<Op<K, V>>, key: K, capacity: nat): set<K>
    decreases |h|
  {
    if h == [] then {}
    else
      var before := After(Init(h), capacity);
      var op := Last(h);
      var k := if op.Put? then op.entry.key else op.key;
      if !Uses(before, op, k, capacity) then UsedSince(Init(h), key, capacity)
      else if k == key then {}
      else UsedSince(Init(h), key, capacity) + {k}
  }

  ghost predicate OrderedByUse<K(!new), V(!new)>(h: seq<Op<K, V>>, entries: seq<Entry<K, V>>, capacity: nat) {
    forall i, j | 0 <= i < j < |entries| :: entries[j].key in UsedSince(h, entries[i].key, capacity)
  }

  ghost predicate Backed<K(!new), V(!new)>(h: seq<Op<K, V>>, entries: seq<Entry<K, V>>) {
    forall e | e in entries :: e.key in Timed(h) && Timed(h)[e.key] == e
  }

  ghost predicate EvictedLate<K(!new), V(!new)>(h: seq<Op<K, V>>, entries: seq<Entry<K, V>>, capacity: nat) {
    forall key | key in Timed(h) && key !in Keys(entries) :: |UsedSince(h, key, capacity)| >= capacity
  }

  ghost predicate Inv<K(!new), V(!new)>(h: seq<Op<K, V>>, entries: seq<Entry<K, V>>, capacity: nat) {
    && |entries| <= capacity
    && Distinct(entries)
    && Backed(h, entries)
    && OrderedByUse(h, entries, capacity)
    && EvictedLate(h, entries, capacity)
  }

  ghost predicate Before<T(!new)>(s: seq<T>, a: T, b: T) {
    exists p, q :: 0 <= p < q < |s| && s[p] == a && s[q] == b
  }

  lemma BeforeInTail<T(!new)>(s: seq<T>, a: T, b: T)
    requires s != []
    ensures Before(s[1..], a, b) ==> Before(s, a, b)
    ensures a == s[0] && b in s[1..] ==> Before(s, a, b)
  {
    if Before(s[1..], a, b) {
      var p, q :| 0 <= p < q < |s| - 1 && s[1..][p] == a && s[1..][q] == b;
      assert s[p + 1] == a && s[q + 1] == b;
    }
    if a == s[0] && b in s[1..] {
      var q :| 0 <= q < |s| - 1 && s[1..][q] == b;
      assert s[0] == a && s[q + 1] == b;
    }
  }

  /** Every pair of `r` stands in the same order in `s`. */
  ghost predicate OrderedAs<T(!new)>(r: seq<T>, s: seq<T>) {
    forall i, j | 0 <= i < j < |r| :: Before(s, r[i], r[j])
  }

  lemma OrderedTail<T(!new)>(r: seq<T>, s: seq<T>)
    requires s != [] && OrderedAs(r, s[1..])
    ensures OrderedAs(r, s)
  {
    forall i, j | 0 <= i < j < |r| ensures Before(s, r[i], r[j]) {
      BeforeInTail(s, r[i], r[j]);
    }
  }

  lemma OrderedWithHead<T(!new)>(r: seq<T>, s: seq<T>)
    requires s != [] && OrderedAs(r, s) && forall x | x in r :: x in s[1..]
    ensures OrderedAs([s[0]] + r, s)
  {
    var all := [s[0]] + r;
    forall i, j | 0 <= i < j < |all| ensures Before(s, all[i], all[j]) {
      assert all[j] == r[j - 1] && r[j - 1] in r;
      BeforeInTail(s, s[0], all[j]);
    }
  }

  /** Removing a key keeps the order of what is left. */
  lemma {:induction false} WithoutKeepsOrder<K(!new), V(!new)>(entries: seq<Entry<K, V>>, key: K)
    ensures OrderedAs(Without(entries, key), entries)
  {
    if entries != [] {
      WithoutKeepsOrder(entries[1..], key);
      OrderedTail(Without(entries[1..], key), entries);
      if entries[0].key != key {
        OrderedWithHead(Without(entries[1..], key), entries);
      }
    }
  }

  lemma {:induction false} KeysCount<K(!new), V(!new)>(entries: seq<Entry<K, V>>)
    requires Distinct(entries)
    ensures |Keys(entries)| == |entries|
  {
    if entries == [] {
      assert Keys(entries) == {};
    } else {
      DistinctTail(entries);
      KeysCount(entries[1..]);
      assert Keys(entries) == {entries[0].key} + Keys(entries[1..]) by {
        forall k | k in Keys(entries) ensures k in {entries[0].key} + Keys(entries[1..]) {
          var e :| e in entries && e.key == k;
          assert e == entries[0] || e in entries[1..];
        }
      }
    }
  }

  /** Moving the used key to the young end orders the entries by use again. */
  lemma UseKeepsOrder<K(!new), V(!new)>(h: seq<Op<K, V>>, e: Entry<K, V>, capacity: nat)
    requires h != []
    requires OrderedByUse(Init(h), After(Init(h), capacity), capacity)
    requires Uses(After(Init(h), capacity), Last(h), e.key, capacity)
    ensures OrderedByUse(h, Without(After(Init(h), capacity), e.key) + [e], capacity)
  {
    var before := After(Init(h), capacity);
    var rest := Without(before, e.key);
    var all := rest + [e];
    WithoutKeepsOrder(before, e.key);
    forall i, j | 0 <= i < j < |all| ensures all[j].key in UsedSince(h, all[i].key, capacity) {
      assert all[i] in rest;
      assert UsedSince(h, all[i].key, capacity) == UsedSince(Init(h), all[i].key, capacity) + {e.key};
      assert j < |rest| ==> Before(before, all[i], all[j]);
    }
  }

  lemma RemovalKeepsOrder<K(!new), V(!new)>(h: seq<Op<K, V>>, key: K, capacity: nat)
    requires h != []
    requires OrderedByUse(Init(h), After(Init(h), capacity), capacity)
    requires forall k :: !Uses(After(Init(h), capacity), Last(h), k, capacity)
    ensures OrderedByUse(h, Without(After(Init(h), capacity), key), capacity)
  {
    var rest := Without(After(Init(h), capacity), key);
    WithoutKeepsOrder(After(Init(h), capacity), key);
    forall i, j | 0 <= i < j < |rest| ensures rest[j].key in UsedSince(h, rest[i].key, capacity) {
      assert Before(After(Init(h), capacity), rest[i], rest[j]);
    }
  }

  lemma PutKeepsInv<K(!new), V(!new)>(h: seq<Op<K, V>>, capacity: nat)
    requires h != [] && capacity > 0 && Last(h).Put? && IsLease(Last(h).entry)
    requires Inv(Init(h), After(Init(h), capacity), capacity)
    ensures Inv(h, After(h, capacity), capacity)
  {
    var before := After(Init(h), capacity);
    var e := Last(h).entry;
    var rest := Without(before, e.key);
    var all := rest + [e];
    WithoutKeepsDistinct(before, e.key);
    DistinctAppend(rest, e);
    UseKeepsOrder(h, e, capacity);
    var after := After(h, capacity);
    assert after == Newest(all, capacity);
    assert Backed(h, after) by {
      forall x | x in after ensures x.key in Timed(h) && Timed(h)[x.key] == x {
        assert x in all;
      }
    }
    forall key | key in Timed(h) && key !in Keys(after) ensures |UsedSince(h, key, capacity)| >= capacity {
      assert e == Last(after) && e in after && key != e.key;
      assert UsedSince(h, key, capacity) == UsedSince(Init(h), key, capacity) + {e.key};
      if key in Keys(before) {
        assert EntryOf(before, key) in all;
        EvictionIsLate(h, all, key, capacity);
      } else {
        SubsetCount(UsedSince(Init(h), key, capacity), UsedSince(h, key, capacity));
      }
    }
  }

  lemma EvictionIsLate<K(!new), V(!new)>(h: seq<Op<K, V>>, all: seq<Entry<K, V>>, key: K, capacity: nat)
    requires |all| <= capacity + 1 && Distinct(all) && OrderedByUse(h, all, capacity)
    requires key in Keys(all) && key !in Keys(Newest(all, capacity))
    ensures |UsedSince(h, key, capacity)| >= capacity
  {
    var kept := Newest(all, capacity);
    var e :| e in all && e.key == key;
    var i :| 0 <= i < |all| && all[i] == e;
    assert e !in kept;
    assert |all| == capacity + 1;
    assert forall k | 1 <= k < |all| :: all[k] == kept[k - 1];
    forall k | k in Keys(kept) ensures k in UsedSince(h, key, capacity) {
      var x :| x in kept && x.key == k;
      var j :| 0 <= j < |kept| && kept[j] == x;
      assert all[j + 1].key in UsedSince(h, all[0].key, capacity);
    }
    KeysCount(kept);
    SubsetCount(Keys(kept), UsedSince(h, key, capacity));
  }

  lemma HitKeepsInv<K(!new), V(!new)>(h: seq<Op<K, V>>, capacity: nat)
    requires h != [] && Last(h).Get? && Step(After(Init(h), capacity), Last(h), capacity).1.Hit?
    requires Inv(Init(h), After(Init(h), capacity), capacity)
    ensures Inv(h, After(h, capacity), capacity)
  {
    var before := After(Init(h), capacity);
    var key := Last(h).key;
    var e := EntryOf(before, key);
    WithoutKeepsDistinct(before, key);
    WithoutIsShorter(before, key);
    UseKeepsOrder(h, e, capacity);
    var rest, after := Without(before, key), After(h, capacity);
    assert after == rest + [e];
    DistinctAppend(rest, e);
    assert Timed(h) == Timed(Init(h));
    assert forall x :: x in after ==> x in before;
    forall k | k in Timed(h) && k !in Keys(after) ensures |UsedSince(h, k, capacity)| >= capacity {
      assert e in after && k != key;
      assert forall x | x in before && x.key == k :: x in rest && x in after;
      SubsetCount(UsedSince(Init(h), k, capacity), UsedSince(h, k, capacity));
    }
  }

  lemma MissKeepsInv<K(!new), V(!new)>(h: seq<Op<K, V>>, capacity: nat)
    requires h != [] && Last(h).Get? && !Step(After(Init(h), capacity), Last(h), capacity).1.Hit?
    requires Inv(Init(h), After(Init(h), capacity), capacity)
    ensures Inv(h, After(h, capacity), capacity)
  {
    var before, after := After(Init(h), capacity), After(h, capacity);
    var key := Last(h).key;
    WithoutKeepsDistinct(before, key);
    RemovalKeepsOrder(h, key, capacity);
    assert forall k :: UsedSince(h, k, capacity) == UsedSince(Init(h), k, capacity);
    forall x | x in after ensures x.key in Timed(h) && Timed(h)[x.key] == x {
      assert x in before;
    }
    forall k | k in Timed(h) && k !in Keys(after) ensures |UsedSince(h, k, capacity)| >= capacity {
      assert forall x | x in before && x.key == k :: x in after;
    }
  }

  lemma {:induction false} RunKeepsInv<K(!new), V(!new)>(h: seq<Op<K, V>>, capacity: nat)
    requires capacity > 0
    ensures Inv(h, After(h, capacity), capacity)
    decreases |h|
  {
    if h != [] {
      RunKeepsInv(Init(h), capacity);
      if Last(h).Get? {
        if Step(After(Init(h), capacity), Last(h), capacity).1.Hit? {
          HitKeepsInv(h, capacity);
        } else {
          MissKeepsInv(h, capacity);
        }
      } else if IsLease(Last(h).entry) {
        PutKeepsInv(h, capacity);
      } else {
        assert Timed(h) == Timed(Init(h));
        assert forall k :: UsedSince(h, k, capacity) == UsedSince(Init(h), k, capacity);
      }
    }
  }

  // ---------------------------------------------------------------------------------------
  // What callers see
  // ---------------------------------------------------------------------------------------

  /** `h[i]` is the latest accepted put of `key`. */
  ghost predicate LatestPut<K(!new), V(!new)>(h: seq<Op<K, V>>, i: int, key: K) {
    && 0 <= i < |h|
    && h[i].Put? && h[i].entry.key == key && IsLease(h[i].entry)
    && forall j | i < j < |h| :: !(h[j].Put? && h[j].entry.key == key && IsLease(h[j].entry))
  }

  /** Some read of `h` from `i` on saw `key` at or past the end of the lease. */
  ghost predicate SeenExpired<K(!new), V(!new)>(h: seq<Op<K, V>>, i: int, key: K, staleUntil: real) {
    exists j :: 0 <= i <= j < |h| && h[j].Get? && h[j].key == key && h[j].now >= staleUntil
  }

  lemma {:induction false} TimedIsLatestPut<K(!new), V(!new)>(h: seq<Op<K, V>>, key: K)
    ensures key in Timed(h) ==>
              exists i :: LatestPut(h, i, key) && h[i].entry == Timed(h)[key]
                          && !SeenExpired(h, i, key, h[i].entry.staleUntil)
    ensures key !in Timed(h) ==>
              forall i | LatestPut(h, i, key) :: SeenExpired(h, i, key, h[i].entry.staleUntil)
    decreases |h|
  {
    if h != [] {
      TimedIsLatestPut(Init(h), key);
      var n := |h| - 1;
      if Last(h).Put? && Last(h).entry.key == key && IsLease(Last(h).entry) {
        assert LatestPut(h, n, key);
      } else {
        forall i ensures LatestPut(h, i, key) <==> LatestPut(Init(h), i, key) {
          assert forall j | 0 <= j < n :: Init(h)[j] == h[j];
        }
        if key in Timed(Init(h)) {
          var i :| LatestPut(Init(h), i, key) && Init(h)[i].entry == Timed(Init(h))[key]
                   && !SeenExpired(Init(h), i, key, Init(h)[i].entry.staleUntil);
          LastDecides(h, i, key);
        } else {
          forall i | LatestPut(h, i, key) ensures SeenExpired(h, i, key, h[i].entry.staleUntil) {
            var j :| 0 <= i <= j < n && Init(h)[j].Get? && Init(h)[j].key == key
                     && Init(h)[j].now >= h[i].entry.staleUntil;
            assert h[j] == Init(h)[j];
          }
        }
      }
    }
  }

  lemma LatestPutIsOne<K(!new), V(!new)>(h: seq<Op<K, V>>, i: int, j: int, key: K)
    requires LatestPut(h, i, key) && LatestPut(h, j, key)
    ensures i == j
  {
  }

  lemma LastDecides<K(!new), V(!new)>(h: seq<Op<K, V>>, i: int, key: K)
    requires h != [] && LatestPut(Init(h), i, key) && LatestPut(h, i, key)
    requires key in Timed(Init(h)) && Timed(Init(h))[key] == h[i].entry
    requires !SeenExpired(Init(h), i, key, h[i].entry.staleUntil)
    ensures key in Timed(h) ==> Timed(h)[key] == h[i].entry && !SeenExpired(h, i, key, h[i].entry.staleUntil)
    ensures key !in Timed(h) ==> forall k | LatestPut(h, k, key) :: SeenExpired(h, k, key, h[k].entry.staleUntil)
  {
    var n := |h| - 1;
    if key in Timed(h) {
      forall j | i <= j < |h| && h[j].Get? && h[j].key == key ensures h[j].now < h[i].entry.staleUntil {
        if j < n {
          assert Init(h)[j] == h[j];
        }
      }
    } else {
      assert h[n].Get? && h[n].key == key && h[n].now >= h[i].entry.staleUntil;
      forall k | LatestPut(h, k, key) ensures SeenExpired(h, k, key, h[k].entry.staleUntil) {
        LatestPutIsOne(h, i, k, key);
      }
    }
  }

  lemma SizeIsBounded<K(!new), V(!new)>(h: seq<Op<K, V>>, capacity: nat)
    requires capacity > 0
    ensures |After(h, capacity)| <= capacity && |Keys(After(h, capacity))| == |After(h, capacity)|
  {
    RunKeepsInv(h, capacity);
    KeysCount(After(h, capacity));
  }

  /** A hit returns the value last put for its key, within that put's lease. */
  lemma HitIsLatestPut<K(!new), V(!new)>(h: seq<Op<K, V>>, key: K, now: real, allowStale: bool, capacity: nat)
    requires capacity > 0
    requires Step(After(h, capacity), Get(key, now, allowStale), capacity).1.Hit?
    ensures exists i :: LatestPut(h, i, key) && Serves(h[i].entry, now, allowStale)
              && Step(After(h, capacity), Get(key, now, allowStale), capacity).1 == Hit(h[i].entry.value)
  {
    RunKeepsInv(h, capacity);
    TimedIsLatestPut(h, key);
  }

  /** The clock never runs backwards between reads. */
  ghost predicate Monotone<K(!new), V(!new)>(h: seq<Op<K, V>>) {
    forall i, j | 0 <= i <= j < |h| && h[i].Get? && h[j].Get? :: h[i].now <= h[j].now
  }

  /** A value last put for a key, read within its lease, is served unless at least `capacity` other
      keys have been put or hit since this one was. */
  lemma LeaseIsKept<K(!new), V(!new)>(
    h: seq<Op<K, V>>, i: int, key: K, now: real, allowStale: bool, capacity: nat)
    requires capacity > 0 && now >= 0.0
    requires Monotone(h + [Get(key, now, allowStale)])
    requires LatestPut(h, i, key) && Serves(h[i].entry, now, allowStale)
    requires |UsedSince(h, key, capacity)| < capacity
    ensures Step(After(h, capacity), Get(key, now, allowStale), capacity).1 == Hit(h[i].entry.value)
  {
    RunKeepsInv(h, capacity);
    TimedIsLatestPut(h, key);
    var all := h + [Get(key, now, allowStale)];
    assert all[|h|].now == now;
    forall j | 0 <= j < |h| && h[j].Get? ensures h[j].now <= now {
      assert all[j] == h[j];
    }
    var k :| LatestPut(h, k, key) && h[k].entry == Timed(h)[key];
    LatestPutIsOne(h, i, k, key);
  }

  /** A put is refused exactly when a time is negative or the lease ends before it stops being fresh, a read
      exactly when its time is negative, and what is refused changes nothing; an accepted put stands last. */
  lemma RefusedExactly<K(!new), V(!new)>(entries: seq<Entry<K, V>>, op: Op<K, V>, capacity: nat)
    requires capacity > 0
    ensures var (after, answer) := Step(entries, op, capacity);
            && (op.Put? ==>
                  (answer.Invalid? <==>
                     op.entry.freshUntil < 0.0 || op.entry.staleUntil < 0.0 || op.entry.staleUntil < op.entry.freshUntil))
            && (op.Get? ==> (answer.Invalid? <==> op.now < 0.0))
            && (answer.Invalid? ==> after == entries)
            && (op.Put? && !answer.Invalid? ==> after != [] && after[|after| - 1] == op.entry)
  {
  }
}
