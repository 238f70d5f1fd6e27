/** One subscription and the registry of them, as values: what each registry operation and the lease
    planner mean. The classes in module Subscriptions are proved against these definitions. */
module SubscriptionModel {
  import opened Base

  const MAX_ACK_DEADLINE_SECS: nat := 600
  const MAX_LEASE_BATCH: nat := 1_000

  type Cursor = nat

  datatype Policy = Policy(ackDeadlineSecs: nat, maxDeliveryAttempts: nat)

  datatype Lease = Lease(cursor: Cursor, expiresAt: Time, attempts: nat)

  datatype Sub = Sub(
    acked: Cursor,
    leases: map<Cursor, Lease>,
    attempts: map<Cursor, nat>,
    dead: set<Cursor>,
    ackedSet: set<Cursor>,
    policy: Policy)

  type Registry = map<string, Sub>

  datatype SubOp =
    | Create(name: string, policy: Policy)
    | Delete(name: string)
    | ApplyLease(name: string, leased: seq<(Cursor, Time)>, dead: seq<Cursor>, newAcked: Cursor)
    | Ack(name: string, cursor: Cursor)
    | Nack(name: string, cursor: Cursor)

  datatype LeaseOutcome = LeaseOutcome(leased: seq<(Cursor, nat)>, deadLettered: seq<Cursor>)

  datatype PlannedLease = PlannedLease(op: SubOp, outcome: LeaseOutcome)

  function FreshSub(p: Policy): Sub {
    Sub(0, map[], map[], {}, {}, p)
  }

  // ----- the contiguous floor -----

  /** `r` ends the run of members of `handled` that starts right after `k`. */
  ghost predicate IsRunEnd(k: Cursor, handled: set<Cursor>, r: Cursor) {
    && k <= r
    && (forall c :: k < c <= r ==> c in handled)
    && r + 1 !in handled
  }

  function RunEnd(k: Cursor, handled: set<Cursor>): (r: Cursor)
    ensures IsRunEnd(k, handled, r)
    decreases |handled|
  {
    if k + 1 in handled then
      var rest := handled - {k + 1};
      var r := RunEnd(k + 1, rest);
      assert forall c :: k < c <= r ==> c in handled by {
        forall c | k < c <= r ensures c in handled {
          assert c != k + 1 ==> c in rest;
        }
      }
      r
    else k
  }

  lemma RunEndUnique(k: Cursor, handled: set<Cursor>, r: Cursor, q: Cursor)
    requires IsRunEnd(k, handled, r) && IsRunEnd(k, handled, q)
    ensures r == q
  {
    assert r < q ==> r + 1 in handled;
    assert q < r ==> q + 1 in handled;
  }

  /** Fold the contiguous run after the floor into it. A cursor that is in both sets leaves only the
      acked set: the two removals are joined by a short-circuiting `or`. */
  function AdvanceAcked(s: Sub): Sub {
    var r := RunEnd(s.acked, s.ackedSet + s.dead);
    s.(acked := r,
       ackedSet := (set c | c in s.ackedSet && !(s.acked < c <= r)),
       dead := (set c | c in s.dead && (!(s.acked < c <= r) || c in s.ackedSet)))
  }

  /** One turn of the folding loop: take the next cursor out of the acked set, or else of the dead set. */
  function FoldOne(s: Sub): Sub {
    var next := s.acked + 1;
    if next in s.ackedSet then s.(acked := next, ackedSet := s.ackedSet - {next})
    else s.(acked := next, dead := s.dead - {next})
  }

  lemma FoldOneThenAdvance(s: Sub)
    requires s.acked + 1 in s.ackedSet + s.dead
    ensures AdvanceAcked(FoldOne(s)) == AdvanceAcked(s)
  {
    var t := FoldOne(s);
    var all, left := s.ackedSet + s.dead, t.ackedSet + t.dead;
    var r := RunEnd(t.acked, left);
    assert forall c :: c > t.acked ==> (c in left <==> c in all);
    assert IsRunEnd(s.acked, all, r) by {
      forall c | s.acked < c <= r ensures c in all {
        assert c != t.acked ==> c in left;
      }
    }
    RunEndUnique(s.acked, all, r, RunEnd(s.acked, all));
  }

  lemma NothingToFold(s: Sub)
    requires s.acked + 1 !in s.ackedSet && s.acked + 1 !in s.dead
    ensures AdvanceAcked(s) == s
  {
    RunEndUnique(s.acked, s.ackedSet + s.dead, RunEnd(s.acked, s.ackedSet + s.dead), s.acked);
  }

  // ----- the operations on one subscription -----

  function AckSub(s: Sub, c: Cursor): Sub {
    AdvanceAcked(s.(leases := s.leases - {c},
                    attempts := s.attempts - {c},
                    ackedSet := if c > s.acked then s.ackedSet + {c} else s.ackedSet))
  }

  function NackSub(s: Sub, c: Cursor): Sub {
    if c in s.leases then s.(leases := s.leases[c := s.leases[c].(expiresAt := 0)]) else s
  }

  /** Delivery attempts recorded for a cursor so far. */
  function Attempts(s: Sub, c: Cursor): nat {
    if c in s.attempts then s.attempts[c] else 0
  }

  function Bury(s: Sub, dead: seq<Cursor>): Sub {
    s.(dead := s.dead + Elements(dead),
       leases := s.leases - Elements(dead),
       attempts := s.attempts - Elements(dead))
  }

  function GrantOne(s: Sub, c: Cursor, expiresAt: Time): Sub {
    var n := Attempts(s, c) + 1;
    s.(attempts := s.attempts[c := n], leases := s.leases[c := Lease(c, expiresAt, n)])
  }

  function Grant(s: Sub, leased: seq<(Cursor, Time)>): Sub {
    if leased == [] then s
    else
      var last := leased[|leased| - 1];
      GrantOne(Grant(s, leased[..|leased| - 1]), last.0, last.1)
  }

  function RaiseFloor(s: Sub, newAcked: Cursor): Sub {
    if newAcked > s.acked then
      s.(acked := newAcked,
         ackedSet := (set c | c in s.ackedSet && c > newAcked),
         dead := (set c | c in s.dead && c > newAcked))
    else s
  }

  function ApplyLeaseSub(s: Sub, leased: seq<(Cursor, Time)>, dead: seq<Cursor>, newAcked: Cursor): Sub {
    RaiseFloor(Grant(Bury(s, dead), leased), newAcked)
  }

  /** The registry after one replicated operation; operations on a missing subscription do nothing. */
  function ApplyOp(r: Registry, op: SubOp): Registry {
    match op
    case Create(n, p) => if n in r then r[n := r[n].(policy := p)] else r[n := FreshSub(p)]
    case Delete(n) => r - {n}
    case ApplyLease(n, leased, dead, newAcked) =>
      if n in r then r[n := ApplyLeaseSub(r[n], leased, dead, newAcked)] else r
    case Ack(n, c) => if n in r then r[n := AckSub(r[n], c)] else r
    case Nack(n, c) => if n in r then r[n := NackSub(r[n], c)] else r
  }

  // ----- the planner -----

  /** Neither deliverable nor due for dead-lettering now: leased and unexpired, dead, or acked. */
  predicate Blocked(s: Sub, now: Time, c: Cursor) {
    (c in s.leases && s.leases[c].expiresAt > now) || c in s.dead || c in s.ackedSet
  }

  /** One more delivery would exceed the policy's limit (0 means no limit). */
  predicate OverLimit(s: Sub, c: Cursor) {
    s.policy.maxDeliveryAttempts != 0 && Attempts(s, c) + 1 > s.policy.maxDeliveryAttempts
  }

  /** Free now, and poisonous (over the limit) exactly when `poison` says so. */
  predicate Wanted(s: Sub, now: Time, poison: bool, c: Cursor) {
    !Blocked(s, now, c) && OverLimit(s, c) == poison
  }

  ghost predicate Ascending(cs: seq<Cursor>) {
    forall i, j :: 0 <= i < j < |cs| ==> cs[i] < cs[j]
  }

  /** The wanted cursors of `[lo, hi)`, in order. */
  function Select(s: Sub, now: Time, poison: bool, lo: Cursor, hi: Cursor): seq<Cursor>
    decreases hi
  {
    if hi <= lo then []
    else if Wanted(s, now, poison, hi - 1) then Select(s, now, poison, lo, hi - 1) + [hi - 1]
    else Select(s, now, poison, lo, hi - 1)
  }

  lemma {:induction false} SelectIsExact(s: Sub, now: Time, poison: bool, lo: Cursor, hi: Cursor)
    ensures forall c :: c in Select(s, now, poison, lo, hi) <==> lo <= c < hi && Wanted(s, now, poison, c)
    ensures Ascending(Select(s, now, poison, lo, hi))
    decreases hi
  {
    if lo < hi {
      SelectIsExact(s, now, poison, lo, hi - 1);
      var before := Select(s, now, poison, lo, hi - 1);
      assert forall i :: 0 <= i < |before| ==> before[i] in before;
    }
  }

  /** Where a scan that has reached `c` stops: at the first cursor before which `cap` deliverable ones
      were found, or just past `high`. */
  function ScanStop(s: Sub, now: Time, lo: Cursor, c: Cursor, high: Cursor, cap: nat): (stop: Cursor)
    requires lo <= c
    ensures c <= stop <= Max(c, high + 1)
    ensures forall x :: c <= x < stop ==> |Select(s, now, false, lo, x)| < cap
    ensures stop <= high ==> |Select(s, now, false, lo, stop)| >= cap
    decreases high + 1 - c
  {
    if c <= high && |Select(s, now, false, lo, c)| < cap then ScanStop(s, now, lo, c + 1, high, cap) else c
  }

  function Distance(a: nat, b: nat): nat {
    if a <= b then b - a else a - b
  }

  /** The admissible deadline nearest to what the policy says. */
  function Deadline(p: Policy): (d: nat)
    ensures 1 <= d <= MAX_ACK_DEADLINE_SECS
    ensures 1 <= p.ackDeadlineSecs <= MAX_ACK_DEADLINE_SECS ==> d == p.ackDeadlineSecs
    ensures forall x :: 1 <= x <= MAX_ACK_DEADLINE_SECS ==>
              Distance(d, p.ackDeadlineSecs) <= Distance(x, p.ackDeadlineSecs)
  {
    Clamp(p.ackDeadlineSecs, 1, MAX_ACK_DEADLINE_SECS)
  }

  function Stamp(cs: seq<Cursor>, expiresAt: Time): seq<(Cursor, Time)> {
    seq(|cs|, i requires 0 <= i < |cs| => (cs[i], expiresAt))
  }

  function Number(s: Sub, cs: seq<Cursor>): seq<(Cursor, nat)> {
    seq(|cs|, i requires 0 <= i < |cs| => (cs[i], Attempts(s, cs[i]) + 1))
  }

  function ScanStart(s: Sub, floor: Cursor): Cursor {
    Max(s.acked, floor) + 1
  }

  /** The cursors a lease request would deliver, and those it would dead-letter. */
  function Picks(s: Sub, high: Cursor, floor: Cursor, now: Time, max: nat, poison: bool): seq<Cursor> {
    var start := ScanStart(s, floor);
    Select(s, now, poison, start, ScanStop(s, now, start, start, high, Min(max, MAX_LEASE_BATCH)))
  }

  function PlannedFloor(s: Sub, floor: Cursor, dead: seq<Cursor>): (r: Cursor)
    ensures IsRunEnd(Max(s.acked, floor), s.dead + s.ackedSet + Elements(dead), r)
  {
    RunEnd(Max(s.acked, floor), s.dead + s.ackedSet + Elements(dead))
  }

  function PlanSub(s: Sub, name: string, high: Cursor, floor: Cursor, now: Time, max: nat): Option<PlannedLease> {
    var grants := Picks(s, high, floor, now, max, false);
    var dead := Picks(s, high, floor, now, max, true);
    if grants == [] && dead == [] then None
    else
      Some(PlannedLease(
        ApplyLease(name, Stamp(grants, SaturatingAdd(now, Deadline(s.policy))), dead, PlannedFloor(s, floor, dead)),
        LeaseOutcome(Number(s, grants), dead)))
  }

  /** What the picks are, without mentioning the scan: the first `min(max, 1000)` deliverable cursors of
      `(max(acked, floor), high]` in increasing order (all of them if there are fewer), and every
      over-limit free cursor that comes before the place where the batch filled up. */
  lemma PicksAreTheFirstDeliverables(s: Sub, high: Cursor, floor: Cursor, now: Time, max: nat) returns (stop: Cursor)
    ensures var cap := Min(max, MAX_LEASE_BATCH);
            var start := ScanStart(s, floor);
            var grants := Picks(s, high, floor, now, max, false);
            var dead := Picks(s, high, floor, now, max, true);
            && start <= stop <= Max(start, high + 1)
            && Ascending(grants) && Ascending(dead)
            && (forall c :: c in grants <==> start <= c < stop && Wanted(s, now, false, c))
            && (forall c :: c in dead <==> start <= c < stop && Wanted(s, now, true, c))
            && |grants| <= cap
            && (|grants| < cap ==> stop == Max(start, high + 1))
            && (|grants| == cap && cap > 0 ==> grants[cap - 1] + 1 == stop)
            && (cap == 0 ==> stop == start)
  {
    var cap := Min(max, MAX_LEASE_BATCH);
    var start := ScanStart(s, floor);
    stop := ScanStop(s, now, start, start, high, cap);
    SelectIsExact(s, now, false, start, stop);
    SelectIsExact(s, now, true, start, stop);
    if stop > start {
      assert |Select(s, now, false, start, stop - 1)| < cap;
    }
  }

  /** A free cursor is picked as soon as fewer than a batch of deliverable ones come before it. */
  lemma FreeCursorIsPicked(s: Sub, high: Cursor, floor: Cursor, now: Time, max: nat, c: Cursor)
    requires ScanStart(s, floor) <= c <= high && !Blocked(s, now, c)
    requires |Select(s, now, false, ScanStart(s, floor), c)| < Min(max, MAX_LEASE_BATCH)
    ensures c in Picks(s, high, floor, now, max, OverLimit(s, c))
  {
    var start, cap := ScanStart(s, floor), Min(max, MAX_LEASE_BATCH);
    var stop := ScanStop(s, now, start, start, high, cap);
    if stop <= c {
      SelectGrows(s, now, start, stop, c);
    }
    SelectIsExact(s, now, OverLimit(s, c), start, stop);
  }

  /** Within reach of a scan: above the acked floor and retention, published, and met before the batch of
      deliverable cursors is full. */
  ghost predicate Reached(s: Sub, high: Cursor, floor: Cursor, now: Time, max: nat, c: Cursor) {
    && s.acked < c <= high && floor < c
    && |Select(s, now, false, ScanStart(s, floor), c)| < Min(max, MAX_LEASE_BATCH)
  }

  /** A lease picks exactly the free cursors within reach: over the limit to dead-letter, others to deliver. */
  lemma PickedExactlyWhen(s: Sub, high: Cursor, floor: Cursor, now: Time, max: nat, poison: bool, c: Cursor)
    ensures c in Picks(s, high, floor, now, max, poison)
            <==> Reached(s, high, floor, now, max, c) && Wanted(s, now, poison, c)
  {
    var start, cap := ScanStart(s, floor), Min(max, MAX_LEASE_BATCH);
    var stop := ScanStop(s, now, start, start, high, cap);
    SelectIsExact(s, now, poison, start, stop);
    if stop <= c && stop <= high {
      SelectGrows(s, now, start, stop, c);
    }
  }

  lemma {:induction false} SelectGrows(s: Sub, now: Time, lo: Cursor, mid: Cursor, hi: Cursor)
    requires lo <= mid <= hi
    ensures |Select(s, now, false, lo, mid)| <= |Select(s, now, false, lo, hi)|
    decreases hi
  {
    if mid < hi {
      SelectGrows(s, now, lo, mid, hi - 1);
    }
  }
}
