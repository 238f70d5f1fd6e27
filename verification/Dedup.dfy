/** The bounded, expiring caches of the ingest and control paths. Both are a map beside a first-in
    first-out queue of keys, cleaned lazily; module Caches says what that means once, for any key and
    value type. */
module Caches {
  import opened Base

  datatype Cache<K, V> = Cache(entries: map<K, (V, Time)>, order: seq<K>, capacity: nat, ttl: nat)

  function NewCache<K, V>(capacity: nat, ttl: nat): Cache<K, V> {
    Cache(map[], [], Max(capacity, 1), ttl)
  }

  /** Bounded, and every live key is queued. */
  ghost predicate Valid<K(!new), V>(c: Cache<K, V>) {
    && c.capacity >= 1
    && |c.entries| <= c.capacity
    && forall k :: k in c.entries ==> k in c.order
  }

  predicate Expired<K(==), V>(c: Cache<K, V>, k: K, now: Time) {
    k in c.entries && c.ttl != 0 && SaturatingSub(now, c.entries[k].1) > c.ttl
  }

  function Lookup<K(==), V>(c: Cache<K, V>, k: K, now: Time): Option<V> {
    if k in c.entries && !Expired(c, k, now) then Some(c.entries[k].0) else None
  }

  /** An entry is found up to and including the last second of its time to live; for ever if that is 0. */
  lemma FoundExactlyWhen<K, V>(c: Cache<K, V>, k: K, now: Time)
    ensures Lookup(c, k, now).Some? <==> k in c.entries && (c.ttl == 0 || now <= c.entries[k].1 + c.ttl)
    ensures Lookup(c, k, now).Some? ==> Lookup(c, k, now).value == c.entries[k].0
  {
  }

  /** A lookup drops the entry it finds expired, but leaves its key queued. */
  function AfterLookup<K(==), V>(c: Cache<K, V>, k: K, now: Time): Cache<K, V> {
    if Expired(c, k, now) then c.(entries := c.entries - {k}) else c
  }

  /** The position of the first queued key that is live, or the queue's length. */
  function FirstLive<K(==), V>(entries: map<K, (V, Time)>, order: seq<K>): (p: nat)
    ensures p <= |order|
    ensures forall i :: 0 <= i < p ==> order[i] !in entries
    ensures p < |order| ==> order[p] in entries
  {
    if order == [] || order[0] in entries then 0 else 1 + FirstLive(entries, order[1..])
  }

  /** Room for one more: a full cache loses its first live queued key, and the dead keys queued before it. */
  function MakeRoom<K(==), V>(c: Cache<K, V>): Cache<K, V> {
    if |c.entries| < c.capacity then c
    else
      var p := FirstLive(c.entries, c.order);
      if p == |c.order| then c.(order := [])
      else c.(entries := c.entries - {c.order[p]}, order := c.order[p + 1..])
  }

  function FreshInsert<K(==), V>(c: Cache<K, V>, k: K, v: V, now: Time): Cache<K, V> {
    var room := MakeRoom(c);
    room.(entries := room.entries[k := (v, now)], order := room.order + [k])
  }

  /** A present key is refreshed where it stands; an absent one is queued last. */
  function Insert<K(==), V>(c: Cache<K, V>, k: K, v: V, now: Time): Cache<K, V> {
    if k in c.entries then c.(entries := c.entries[k := (v, now)]) else FreshInsert(c, k, v, now)
  }

  // ----- the bound, and who is evicted -----

  /** The queue never runs dry while the cache is full. */
  lemma FullQueueIsNotEmpty<K(!new), V>(c: Cache<K, V>)
    requires Valid(c) && |c.entries| >= c.capacity
    ensures FirstLive(c.entries, c.order) < |c.order|
  {
    assert |c.entries.Keys| > 0;
    var k :| k in c.entries;
    assert k in c.order;
  }

  lemma SizeAfterSwap<K, W>(m: map<K, W>, dropped: K, k: K, w: W)
    requires dropped in m && k !in m
    ensures |(m - {dropped})[k := w]| == |m|
  {
    assert (m - {dropped}).Keys == m.Keys - {dropped};
    assert (m - {dropped})[k := w].Keys == m.Keys - {dropped} + {k};
  }

  lemma SizeAfterAdd<K, W>(m: map<K, W>, k: K, w: W)
    requires k !in m
    ensures |m[k := w]| == |m| + 1
  {
    assert m[k := w].Keys == m.Keys + {k};
  }

  /** A fresh insert into a full cache costs exactly the first live queued key; into any other, none. */
  lemma EvictsExactlyOne<K(!new), V>(c: Cache<K, V>, k: K, v: V, now: Time)
    requires Valid(c) && k !in c.entries
    ensures var after := FreshInsert(c, k, v, now);
            if |c.entries| == c.capacity then
              var p := FirstLive(c.entries, c.order);
              && p < |c.order| && c.order[p] in c.entries
              && after.entries == (c.entries - {c.order[p]})[k := (v, now)]
              && after.order == c.order[p + 1..] + [k]
              && |after.entries| == c.capacity
            else
              && after.entries == c.entries[k := (v, now)] && after.order == c.order + [k]
              && |after.entries| == |c.entries| + 1
  {
    if |c.entries| == c.capacity {
      FullQueueIsNotEmpty(c);
      SizeAfterSwap(c.entries, c.order[FirstLive(c.entries, c.order)], k, (v, now));
    } else {
      SizeAfterAdd(c.entries, k, (v, now));
    }
  }

  lemma FreshInsertKeepsValid<K(!new), V>(c: Cache<K, V>, k: K, v: V, now: Time)
    requires Valid(c) && k !in c.entries
    ensures Valid(FreshInsert(c, k, v, now))
  {
    EvictsExactlyOne(c, k, v, now);
    if |c.entries| == c.capacity {
      var p := FirstLive(c.entries, c.order);
      forall x | x in c.entries && x != c.order[p] ensures x in c.order[p + 1..] {
        var i :| 0 <= i < |c.order| && c.order[i] == x;
        assert i > p && c.order[p + 1..][i - p - 1] == x;
      }
    }
  }

  lemma LookupKeepsValid<K(!new), V>(c: Cache<K, V>, k: K, now: Time)
    requires Valid(c)
    ensures Valid(AfterLookup(c, k, now))
  {
    assert (c.entries - {k}).Keys == c.entries.Keys - {k};
  }

  lemma InsertKeepsValid<K(!new), V>(c: Cache<K, V>, k: K, v: V, now: Time)
    requires Valid(c)
    ensures Valid(Insert(c, k, v, now))
  {
    if k in c.entries {
      assert c.entries[k := (v, now)].Keys == c.entries.Keys;
    } else {
      FreshInsertKeepsValid(c, k, v, now);
    }
  }

  /** Popping the front of a full cache's queue is a step towards the same room. */
  lemma PopTowardsRoom<K, V>(c: Cache<K, V>)
    requires |c.entries| == c.capacity && c.order != []
    ensures var d := c.(entries := c.entries - {c.order[0]}, order := c.order[1..]);
            |d.entries| <= c.capacity && MakeRoom(d) == MakeRoom(c)
  {
    var d := c.(entries := c.entries - {c.order[0]}, order := c.order[1..]);
    assert d.entries.Keys == c.entries.Keys - {c.order[0]};
    if c.order[0] in c.entries {
      assert |d.entries.Keys| == |c.entries.Keys| - 1;
    } else {
      assert d.entries == c.entries;
      var q := FirstLive(d.entries, d.order);
      assert FirstLive(c.entries, c.order) == 1 + q;
      if q < |d.order| {
        assert c.order[q + 2..] == d.order[q + 1..];
      }
    }
  }

  // ----- runs, and the unbounded map they refine -----

  datatype CacheOp<K, V> = Get(key: K, now: Time) | Put(key: K, value: V, now: Time)

  function Do<K(==), V>(c: Cache<K, V>, op: CacheOp<K, V>): Cache<K, V> {
    match op
    case Get(k, now) => AfterLookup(c, k, now)
    case Put(k, v, now) => Insert(c, k, v, now)
  }

  function DoAll<K(==), V>(c: Cache<K, V>, ops: seq<CacheOp<K, V>>): Cache<K, V>
    decreases |ops|
  {
    if ops == [] then c else DoAll(Do(c, ops[0]), ops[1..])
  }

  /** What an unbounded map that forgets nothing would hold after the same operations. */
  function Reference<K(==), V>(m: map<K, (V, Time)>, ops: seq<CacheOp<K, V>>): map<K, (V, Time)>
    decreases |ops|
  {
    if ops == [] then m
    else Reference(if ops[0].Put? then m[ops[0].key := (ops[0].value, ops[0].now)] else m, ops[1..])
  }

  lemma {:induction false} CacheInsideReference<K(!new), V(!new)>(
      c: Cache<K, V>, m: map<K, (V, Time)>, ops: seq<CacheOp<K, V>>)
    requires Valid(c) && forall k :: k in c.entries ==> k in m && m[k] == c.entries[k]
    ensures var d, r := DoAll(c, ops), Reference(m, ops);
            && Valid(d) && d.capacity == c.capacity && d.ttl == c.ttl
            && forall k :: k in d.entries ==> k in r && r[k] == d.entries[k]
    decreases |ops|
  {
    if ops != [] {
      var op := ops[0];
      match op {
        case Get(k, now) => LookupKeepsValid(c, k, now);
        case Put(k, v, now) =>
          InsertKeepsValid(c, k, v, now);
          if k !in c.entries {
            EvictsExactlyOne(c, k, v, now);
          }
      }
      CacheInsideReference(Do(c, op), if op.Put? then m[op.key := (op.value, op.now)] else m, ops[1..]);
    }
  }

  /** After any operations on a new cache: a hit returns the value last inserted for the key, inserted
      within the time to live, and the cache is within its capacity. */
  lemma HitsAreTrue<K(!new), V(!new)>(capacity: nat, ttl: nat, ops: seq<CacheOp<K, V>>, k: K, now: Time)
    ensures var c := DoAll(NewCache<K, V>(capacity, ttl), ops);
            var m := Reference(map[], ops);
            && |c.entries| <= Max(capacity, 1)
            && (Lookup(c, k, now).Some? ==>
                  && k in m && Lookup(c, k, now) == Some(m[k].0)
                  && (ttl == 0 || SaturatingSub(now, m[k].1) <= ttl))
  {
    CacheInsideReference(NewCache<K, V>(capacity, ttl), map[], ops);
  }

  // ----- survival under pressure -----

  /** `k` is live, with `behind` places queued after the first of its own; its later places, if it came
      back after expiring, are among them. */
  ghost predicate Holds<K(!new), V>(c: Cache<K, V>, k: K, behind: nat) {
    && k in c.entries
    && behind < |c.order|
    && FirstAt(c.order, k, |c.order| - 1 - behind)
  }

  /** `k` stands at position `i` and nowhere before it. */
  ghost predicate FirstAt<K(!new)>(order: seq<K>, k: K, i: nat) {
    i < |order| && order[i] == k && forall j :: 0 <= j < i ==> order[j] != k
  }

  /** How many places are queued after the first one of `k`, if it has any. */
  function Behind<K(==)>(order: seq<K>, k: K): (behind: nat)
    ensures k in order ==>
              && behind < |order| && order[|order| - 1 - behind] == k
              && forall j :: 0 <= j < |order| - 1 - behind ==> order[j] != k
  {
    if order == [] then 0
    else if order[0] == k then |order| - 1
    else Behind(order[1..], k)
  }

  lemma BehindIsUnique<K(!new)>(order: seq<K>, k: K, behind: nat)
    requires behind < |order| && FirstAt(order, k, |order| - 1 - behind)
    ensures Behind(order, k) == behind
  {
  }

  lemma LiveKeyHolds<K(!new), V>(c: Cache<K, V>, k: K)
    requires Valid(c) && k in c.entries
    ensures Holds(c, k, Behind(c.order, k))
  {
  }

  /** A fresh insert of another key costs `k` its life exactly when the cache is full and nothing live is
      queued before the first place of `k`. */
  lemma EvictedExactlyWhenOldest<K(!new), V>(c: Cache<K, V>, k: K, behind: nat, x: K, v: V, now: Time)
    requires Valid(c) && Holds(c, k, behind) && x != k && x !in c.entries
    ensures k !in FreshInsert(c, x, v, now).entries
            <==> |c.entries| == c.capacity && forall i :: 0 <= i < |c.order| - 1 - behind ==> c.order[i] !in c.entries
  {
    var first := |c.order| - 1 - behind;
    var p := FirstLive(c.entries, c.order);
    EvictsExactlyOne(c, x, v, now);
    assert p <= first;
  }

  lemma SetOfSeq<K>(s: seq<K>) returns (m: set<K>)
    ensures forall x :: x in m <==> x in s
    ensures |m| <= |s|
  {
    if s == [] {
      m := {};
    } else {
      var rest := SetOfSeq(s[1..]);
      m := rest + {s[0]};
    }
  }

  /** In a full cache with few keys queued behind `k`, something live is queued before it. */
  lemma SomethingOlderIsLive<K(!new), V>(c: Cache<K, V>, k: K, behind: nat)
    requires Valid(c) && Holds(c, k, behind) && behind + 1 < c.capacity && |c.entries| >= c.capacity
    ensures FirstLive(c.entries, c.order) < |c.order| - 1 - behind
  {
    var i := |c.order| - 1 - behind;
    var p := FirstLive(c.entries, c.order);
    assert p <= i;
    if p == i {
      var queued := SetOfSeq(c.order[i..]);
      assert c.order[i] == k;
      forall y | y in c.entries ensures y in queued {
        var j :| 0 <= j < |c.order| && c.order[j] == y;
        assert c.order[i..][j - i] == y;
      }
      SubsetSize(c.entries.Keys, queued);
      assert false;
    }
  }

  lemma FirstAtShifts<K(!new)>(order: seq<K>, k: K, i: nat, popped: nat, x: K)
    requires FirstAt(order, k, i) && popped <= i
    ensures FirstAt(order[popped..] + [x], k, i - popped)
  {
  }

  lemma EvictingOlderSpares<K(!new), V>(c: Cache<K, V>, k: K, behind: nat, x: K, v: V, now: Time)
    requires Holds(c, k, behind) && x != k
    requires |c.entries| >= c.capacity ==> FirstLive(c.entries, c.order) < |c.order| - 1 - behind
    ensures Holds(FreshInsert(c, x, v, now), k, behind + 1)
    ensures FreshInsert(c, x, v, now).entries[k] == c.entries[k]
  {
    var popped := if |c.entries| >= c.capacity then FirstLive(c.entries, c.order) + 1 else 0;
    assert FreshInsert(c, x, v, now).order == c.order[popped..] + [x];
    FirstAtShifts(c.order, k, |c.order| - 1 - behind, popped, x);
  }

  /** While fewer than `capacity - 1` keys are queued behind `k`, a fresh insert evicts something older. */
  lemma FreshInsertSpares<K(!new), V>(c: Cache<K, V>, k: K, behind: nat, x: K, v: V, now: Time)
    requires Valid(c) && Holds(c, k, behind) && x != k && x !in c.entries && behind + 1 < c.capacity
    ensures Holds(FreshInsert(c, x, v, now), k, behind + 1)
    ensures FreshInsert(c, x, v, now).entries[k] == c.entries[k]
  {
    if |c.entries| >= c.capacity {
      SomethingOlderIsLive(c, k, behind);
    }
    EvictingOlderSpares(c, k, behind, x, v, now);
  }

  lemma SubsetSize<K>(a: set<K>, b: set<K>)
    requires a <= b
    ensures |a| <= |b|
  {
    if a != {} {
      var x :| x in a;
      SubsetSize(a - {x}, b - {x});
    }
  }

  /** 1 for an operation that inserts a key not live at that moment. */
  function Fresh<K(==), V>(c: Cache<K, V>, op: CacheOp<K, V>): nat {
    if op.Put? && op.key !in c.entries then 1 else 0
  }

  /** How many of the operations insert a key that is not live at that moment. */
  function FreshInserts<K(==), V>(c: Cache<K, V>, ops: seq<CacheOp<K, V>>): nat
    decreases |ops|
  {
    if ops == [] then 0 else Fresh(c, ops[0]) + FreshInserts(Do(c, ops[0]), ops[1..])
  }

  /** No operation looks `k` up after it has expired. */
  ghost predicate NeverLapses<K(!new), V>(c: Cache<K, V>, k: K, ops: seq<CacheOp<K, V>>)
    decreases |ops|
  {
    ops == []
    || (!(ops[0].Get? && ops[0].key == k && Expired(c, k, ops[0].now)) && NeverLapses(Do(c, ops[0]), k, ops[1..]))
  }

  lemma DoSpares<K(!new), V(!new)>(c: Cache<K, V>, k: K, behind: nat, op: CacheOp<K, V>)
    requires Valid(c) && Holds(c, k, behind) && behind + Fresh(c, op) < c.capacity
    requires !(op.Get? && op.key == k && Expired(c, k, op.now))
    ensures var d := Do(c, op);
            && Valid(d) && d.capacity == c.capacity
            && Holds(d, k, behind + Fresh(c, op))
            && ((op.Put? && op.key == k) || d.entries[k] == c.entries[k])
  {
    match op
    case Get(x, now) => LookupKeepsValid(c, x, now);
    case Put(x, v, now) =>
      InsertKeepsValid(c, x, v, now);
      if x !in c.entries {
        FreshInsertSpares(c, k, behind, x, v, now);
      }
  }

  /** A live key outlives any operations with fewer than `capacity` fresh inserts since its first place
      in the queue was taken, even when expired entries still clutter the queue; refreshing it in place
      does not move it. For a key queued once that counts from its own insert. */
  lemma {:induction false} SurvivesPressure<K(!new), V(!new)>(
      c: Cache<K, V>, k: K, behind: nat, ops: seq<CacheOp<K, V>>)
    requires Valid(c) && Holds(c, k, behind) && NeverLapses(c, k, ops)
    requires behind + FreshInserts(c, ops) < c.capacity
    ensures Holds(DoAll(c, ops), k, behind + FreshInserts(c, ops))
    decreases |ops|
  {
    if ops != [] {
      var d, more := Do(c, ops[0]), Fresh(c, ops[0]);
      DoSpares(c, k, behind, ops[0]);
      assert DoAll(c, ops) == DoAll(d, ops[1..]) && FreshInserts(c, ops) == more + FreshInserts(d, ops[1..]);
      assert NeverLapses(d, k, ops[1..]);
      SurvivesPressure(d, k, behind + more, ops[1..]);
    }
  }

  /** And, unless it is put again itself, with the value and the time it had. */
  lemma {:induction false} SurvivesUnchanged<K(!new), V(!new)>(
      c: Cache<K, V>, k: K, behind: nat, ops: seq<CacheOp<K, V>>)
    requires Valid(c) && Holds(c, k, behind) && NeverLapses(c, k, ops)
    requires behind + FreshInserts(c, ops) < c.capacity
    requires forall op :: op in ops && op.Put? ==> op.key != k
    ensures k in DoAll(c, ops).entries && DoAll(c, ops).entries[k] == c.entries[k]
    decreases |ops|
  {
    if ops != [] {
      assert ops[0] in ops;
      DoSpares(c, k, behind, ops[0]);
      SurvivesUnchanged(Do(c, ops[0]), k, behind + Fresh(c, ops[0]), ops[1..]);
    }
  }

  /** A key inserted for the first time starts out queued once, with nothing behind it. */
  lemma FirstInsertHolds<K(!new), V>(c: Cache<K, V>, k: K, v: V, now: Time)
    requires Valid(c) && k !in c.order
    ensures Holds(FreshInsert(c, k, v, now), k, 0)
  {
    var p := FirstLive(c.entries, c.order);
    assert forall i :: 0 <= i < |c.order| ==> c.order[i] != k;
  }

  /** Every queued key is live and queued once: nothing has expired since it was queued. */
  ghost predicate Tidy<K(!new), V>(c: Cache<K, V>) {
    && (forall i :: 0 <= i < |c.order| ==> c.order[i] in c.entries)
    && (forall i, j :: 0 <= i < j < |c.order| ==> c.order[i] != c.order[j])
  }

  lemma TidySize<K(!new), V>(c: Cache<K, V>)
    requires Valid(c) && Tidy(c)
    ensures |c.entries| == |c.order|
  {
    DistinctSize(c.order, c.entries.Keys);
    assert |c.entries| == |c.entries.Keys|;
  }

  lemma {:induction false} DistinctSize<K>(s: seq<K>, m: set<K>)
    requires forall x :: x in m <==> x in s
    requires forall i, j :: 0 <= i < j < |s| ==> s[i] != s[j]
    ensures |m| == |s|
  {
    if s == [] {
      assert m == {};
    } else {
      assert forall x :: x in s[1..] <==> x in s && x != s[0];
      DistinctSize(s[1..], m - {s[0]});
    }
  }

  lemma FreshInsertKeepsTidy<K(!new), V>(c: Cache<K, V>, x: K, v: V, now: Time)
    requires Valid(c) && Tidy(c) && x !in c.order
    ensures Tidy(FreshInsert(c, x, v, now))
  {
    if |c.entries| == c.capacity {
      FullQueueIsNotEmpty(c);
      assert FirstLive(c.entries, c.order) == 0;
    }
  }

  /** In a tidy cache a key falls to the next fresh insert exactly when `capacity - 1` keys stand behind it. */
  lemma LastPlaceBeforeEviction<K(!new), V>(c: Cache<K, V>, k: K, behind: nat, x: K, v: V, now: Time)
    requires Valid(c) && Tidy(c) && Holds(c, k, behind) && x != k && x !in c.entries
    ensures k !in FreshInsert(c, x, v, now).entries <==> behind == c.capacity - 1
  {
    TidySize(c);
    EvictedExactlyWhenOldest(c, k, behind, x, v, now);
  }

  /** The operations insert distinct keys that were not queued. */
  ghost predicate AllNew<K(!new), V>(c: Cache<K, V>, ops: seq<CacheOp<K, V>>) {
    && (forall i :: 0 <= i < |ops| ==> ops[i].Put? && ops[i].key !in c.order)
    && (forall i, j :: 0 <= i < j < |ops| ==> ops[i].key != ops[j].key)
  }

  lemma InsertLeavesRestNew<K(!new), V(!new)>(c: Cache<K, V>, ops: seq<CacheOp<K, V>>)
    requires Valid(c) && AllNew(c, ops) && ops != []
    ensures ops[0].key !in c.entries && AllNew(Do(c, ops[0]), ops[1..])
  {
    var d := Do(c, ops[0]);
    assert ops[0].key !in c.order;
    forall i | 0 <= i < |ops[1..]| ensures ops[1..][i].Put? && ops[1..][i].key !in d.order {
      assert ops[i + 1].Put? && ops[i + 1].key !in c.order;
      assert ops[0].key != ops[i + 1].key;
    }
  }

  /** The bound of `SurvivesPressure` is sharp: one more fresh insert than it allows, and the key is gone,
      in every tidy cache and whatever new keys are inserted. */
  lemma {:induction false} PressureBoundIsSharp<K(!new), V(!new)>(
      c: Cache<K, V>, k: K, behind: nat, ops: seq<CacheOp<K, V>>)
    requires Valid(c) && Tidy(c) && Holds(c, k, behind) && AllNew(c, ops)
    requires behind + |ops| == c.capacity && ops != []
    ensures k !in DoAll(c, ops).entries
    decreases |ops|
  {
    var Put(x, v, now) := ops[0];
    InsertLeavesRestNew(c, ops);
    assert x != k && Do(c, ops[0]) == FreshInsert(c, x, v, now);
    if |ops| == 1 {
      LastPlaceBeforeEviction(c, k, behind, x, v, now);
      assert ops[1..] == [];
    } else {
      FreshInsertSpares(c, k, behind, x, v, now);
      FreshInsertKeepsValid(c, x, v, now);
      FreshInsertKeepsTidy(c, x, v, now);
      PressureBoundIsSharp(Do(c, ops[0]), k, behind + 1, ops[1..]);
    }
  }

  /** A key that expired and came back is queued twice, and its older place can cost it its life at the
      very next fresh insert, in a cache of two. */
  lemma ReinsertedKeyDiesEarly()
    ensures var expired := AfterLookup(Insert(NewCache<nat, nat>(2, 5), 1, 0, 0), 1, 9);
            var c := Insert(Insert(Insert(expired, 1, 0, 9), 2, 0, 9), 3, 0, 9);
            1 !in c.entries && 2 in c.entries && 3 in c.entries
  {
    var expired := AfterLookup(Insert(NewCache<nat, nat>(2, 5), 1, 0, 0), 1, 9);
    var c3 := Insert(expired, 1, 0, 9);
    assert c3.order == [1, 1] && c3.entries.Keys == {1};
    var c4 := Insert(c3, 2, 0, 9);
    assert c4.order == [1, 1, 2] && c4.entries.Keys == {1, 2};
    assert |c4.entries| == |c4.entries.Keys| == 2;
  }

  // ----- look up, and insert on a miss -----

  /** One admission: the value already held for the key, or the cache with the new value. */
  function Admit<K(==), V>(c: Cache<K, V>, k: K, v: V, now: Time): (Option<V>, Cache<K, V>) {
    match Lookup(c, k, now)
    case Some(held) => (Some(held), c)
    case None => (None, Insert(AfterLookup(c, k, now), k, v, now))
  }

  lemma AdmitKeepsValid<K(!new), V>(c: Cache<K, V>, k: K, v: V, now: Time)
    requires Valid(c)
    ensures var d := Admit(c, k, v, now).1;
            Valid(d) && d.capacity == c.capacity && d.ttl == c.ttl
  {
    LookupKeepsValid(c, k, now);
    InsertKeepsValid(AfterLookup(c, k, now), k, v, now);
  }

  /** Another key's admission does not disturb a key that few enough places are queued behind. */
  lemma AdmitSpares<K(!new), V>(c: Cache<K, V>, k: K, behind: nat, x: K, v: V, now: Time)
    requires Valid(c) && Holds(c, k, behind) && x != k && behind + 1 < c.capacity
    ensures var d := Admit(c, x, v, now).1;
            && Holds(d, k, behind + if Lookup(c, x, now).None? then 1 else 0)
            && d.entries[k] == c.entries[k]
  {
    if Lookup(c, x, now).None? {
      var looked := AfterLookup(c, x, now);
      LookupKeepsValid(c, x, now);
      assert Holds(looked, k, behind) && looked.entries[k] == c.entries[k];
      FreshInsertSpares(looked, k, behind, x, v, now);
    }
  }

  /** The cache operations an admission performs. */
  function AdmitOps<K(==), V>(c: Cache<K, V>, k: K, v: V, now: Time): seq<CacheOp<K, V>> {
    if Lookup(c, k, now).Some? then [Get(k, now)] else [Get(k, now), Put(k, v, now)]
  }

  lemma AdmitIsGetThenPut<K, V>(c: Cache<K, V>, k: K, v: V, now: Time)
    ensures Admit(c, k, v, now).1 == DoAll(c, AdmitOps(c, k, v, now))
  {
    if Lookup(c, k, now).None? {
      var ops := AdmitOps(c, k, v, now);
      assert ops[1..] == [ops[1]] && [ops[1]][1..] == [];
      assert DoAll(AfterLookup(c, k, now), [ops[1]]) == Insert(AfterLookup(c, k, now), k, v, now);
    }
  }
}

module Dedup {
  import opened Base
  import opened Caches

  datatype Seen = Cursor(cursor: nat) | Handled

  class IdempotencyCache {
    var entries: map<string, (Seen, Time)>
    var order: seq<string>
    var capacity: nat
    var ttlSecs: nat

    ghost function Model(): Cache<string, Seen>
      reads this
    {
      Cache(entries, order, capacity, ttlSecs)
    }

    constructor (capacity: nat, ttlSecs: nat)
      ensures Model() == NewCache(capacity, ttlSecs)
    {
      this.entries, this.order := map[], [];
      this.capacity, this.ttlSecs := Max(capacity, 1), ttlSecs;
    }

    method Get(key: string, now: Time) returns (seen: Option<Seen>)
      modifies this
      ensures seen == Lookup(old(Model()), key, now)
      ensures Model() == AfterLookup(old(Model()), key, now)
    {
      if key !in entries {
        return None;
      }
      var (value, at) := entries[key];
      if ttlSecs != 0 && SaturatingSub(now, at) > ttlSecs {
        entries := entries - {key};
        return None;
      }
      return Some(value);
    }

    method Insert(key: string, seen: Seen, now: Time)
      requires Valid(Model())
      modifies this
      ensures Valid(Model())
      ensures Model() == Caches.Insert(old(Model()), key, seen, now)
    {
      InsertKeepsValid(Model(), key, seen, now);
      if key in entries {
        entries := entries[key := (seen, now)];
        return;
      }
      ghost var c := Model();
      while |entries| >= capacity
        invariant |entries| <= capacity && capacity == c.capacity && ttlSecs == c.ttl
        invariant MakeRoom(Model()) == MakeRoom(c)
        decreases |order|
      {
        if |order| == 0 {
          break;
        }
        PopTowardsRoom(Model());
        var oldest := order[0];
        order := order[1..];
        entries := entries - {oldest};
      }
      order := order + [key];
      entries := entries[key := (seen, now)];
    }
  }

  class TokenSet {
    var entries: map<nat, ((), Time)>
    var order: seq<nat>
    var capacity: nat
    var ttlSecs: nat

    ghost function Model(): Cache<nat, ()>
      reads this
    {
      Cache(entries, order, capacity, ttlSecs)
    }

    constructor (capacity: nat, ttlSecs: nat)
      ensures Model() == NewCache(capacity, ttlSecs)
    {
      this.entries, this.order := map[], [];
      this.capacity, this.ttlSecs := Max(capacity, 1), ttlSecs;
    }

    method Seen(token: nat, now: Time) returns (seen: bool)
      requires Valid(Model())
      modifies this
      ensures Valid(Model())
      ensures var admitted := Admit(old(Model()), token, (), now);
              seen == admitted.0.Some? && Model() == admitted.1
    {
      AdmitKeepsValid(Model(), token, (), now);
      if token in entries {
        var at := entries[token].1;
        if ttlSecs == 0 || SaturatingSub(now, at) <= ttlSecs {
          return true;
        }
        entries := entries - {token};
      }
      ghost var c := Model();
      while |entries| >= capacity
        invariant |entries| <= capacity && capacity == c.capacity && ttlSecs == c.ttl
        invariant MakeRoom(Model()) == MakeRoom(c)
        decreases |order|
      {
        if |order| == 0 {
          break;
        }
        PopTowardsRoom(Model());
        var oldest := order[0];
        order := order[1..];
        entries := entries - {oldest};
      }
      order := order + [token];
      entries := entries[token := ((), now)];
      return false;
    }
  }
}
