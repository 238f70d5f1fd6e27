/** A subscription with a delivery limit drains: retries cannot go on for ever, and a patient consumer
    that only keeps asking brings the floor to the high-water mark. */
module Draining {
  import opened Base
  import opened SubscriptionModel
  import opened SubscriptionHistory
  import opened DeliveryGuarantees

  /** Deliveries (and the final dead-lettering) cursor `c` may still cost under limit `m`. */
  function Remaining(s: Sub, m: nat, c: Cursor): nat {
    if c <= s.acked || c in s.ackedSet || c in s.dead then 0 else SaturatingSub(m + 1, Attempts(s, c))
  }

  /** The sum of what the cursors 1..high may still cost. */
  function Potential(s: Sub, m: nat, high: Cursor): nat {
    if high == 0 then 0 else Potential(s, m, high - 1) + Remaining(s, m, high)
  }

  lemma {:induction false} PotentialMonotone(s: Sub, t: Sub, m: nat, high: Cursor)
    requires forall c :: Remaining(t, m, c) <= Remaining(s, m, c)
    ensures Potential(t, m, high) <= Potential(s, m, high)
  {
    if high > 0 {
      PotentialMonotone(s, t, m, high - 1);
    }
  }

  lemma {:induction false} PotentialDrops(s: Sub, t: Sub, m: nat, high: Cursor, x: Cursor)
    requires forall c :: Remaining(t, m, c) <= Remaining(s, m, c)
    requires 1 <= x <= high && Remaining(t, m, x) < Remaining(s, m, x)
    ensures Potential(t, m, high) < Potential(s, m, high)
  {
    if x == high {
      PotentialMonotone(s, t, m, high - 1);
    } else {
      PotentialDrops(s, t, m, high - 1, x);
    }
  }

  lemma {:induction false} PotentialBound(s: Sub, m: nat, high: Cursor)
    ensures Potential(s, m, high) <= (m + 1) * SaturatingSub(high, s.acked)
  {
    if high > 0 {
      PotentialBound(s, m, high - 1);
      if high > s.acked {
        assert (m + 1) * (high - s.acked) == (m + 1) * (high - 1 - s.acked) + (m + 1);
      }
    }
  }

  /** The subscription has had limit m, and only m, since its creation. */
  ghost predicate Limited(t: Tracked, m: nat) {
    Inv(t) && m > 0 && t.past.limits == {m}
  }

  /** What the theorems below assume of the start holds in every run whose policies for the subscription,
      since it was created, all say m. */
  lemma ReachableIsLimited(rs: seq<Request>, i: nat, name: string, m: nat)
    requires i <= |rs| && name !in Run(rs[..i]) && name in Run(rs)
    requires LimitSince(rs, i, name, m) && m > 0
    ensures Limited(Run(rs)[name], m)
  {
    ReachableInv(rs, name);
    ConstantLimit(rs, i, name, m);
  }

  /** The action keeps the limit and, if it is a lease, sees no high-water mark above `high`. */
  ghost predicate Within(a: Action, m: nat, high: Cursor) {
    && (a.SetPolicy? ==> a.policy.maxDeliveryAttempts == m)
    && (a.Lease? ==> a.high <= high)
  }

  lemma AttemptsWithinLimit(t: Tracked, m: nat, c: Cursor)
    requires Limited(t, m)
    ensures Attempts(t.sub, c) <= m
  {
    assert c in t.sub.attempts ==> Attempts(t.sub, c) == Count(t.past.granted, c);
  }

  lemma LimitedKept(t: Tracked, a: Action, m: nat, high: Cursor)
    requires Limited(t, m) && Within(a, m, high)
    ensures Limited(Advance(t, a), m)
  {
    AdvanceKeepsInv(t, a);
  }

  lemma AckNeverCosts(s: Sub, c: Cursor, m: nat, x: Cursor)
    requires x != c
    ensures Remaining(AckSub(s, c), m, x) <= Remaining(s, m, x)
  {
    var u := AckSub(s, c);
    var marked := if c > s.acked then s.ackedSet + {c} else s.ackedSet;
    assert IsRunEnd(s.acked, marked + s.dead, u.acked);
  }

  lemma AckedCostsNothing(s: Sub, c: Cursor, m: nat)
    ensures Remaining(AckSub(s, c), m, c) == 0
  {
    var u := AckSub(s, c);
    var marked := if c > s.acked then s.ackedSet + {c} else s.ackedSet;
    assert IsRunEnd(s.acked, marked + s.dead, u.acked);
  }

  lemma CostAfterLease(t: Tracked, g: seq<Cursor>, d: seq<Cursor>, e: Time, u: Sub, m: nat, c: Cursor)
    requires LeaseDid(t.sub, g, d, e, u) && u.acked >= t.sub.acked
    requires c in g || c in d ==> t.sub.acked < c && c !in t.sub.dead && c !in t.sub.ackedSet && Attempts(t.sub, c) <= m
    ensures Remaining(u, m, c) <= Remaining(t.sub, m, c)
    ensures c in g || c in d ==> Remaining(u, m, c) < Remaining(t.sub, m, c)
  {
  }

  /** A committed lease lowers the cost of every cursor it picks, and raises none. */
  lemma LeaseLowersCost(t: Tracked, a: Action, m: nat, c: Cursor)
    requires FloorInv(t) && AccountInv(t) && Attempts(t.sub, c) <= m && Commits(t.sub, a)
    ensures Remaining(LeaseStep(t.sub, a), m, c) <= Remaining(t.sub, m, c)
    ensures c in Chosen(t.sub, a, false) || c in Chosen(t.sub, a, true) ==>
              1 <= c <= a.high && Remaining(LeaseStep(t.sub, a), m, c) < Remaining(t.sub, m, c)
  {
    LeaseEffect(t.sub, a);
    var g, d := Chosen(t.sub, a, false), Chosen(t.sub, a, true);
    if c in g || c in d {
      ChosenAreFree(t.sub, a, c !in g, c);
      ChosenAreUnsettled(t, a);
    }
    CostAfterLease(t, g, d, SaturatingAdd(a.now, Deadline(t.sub.policy)), LeaseStep(t.sub, a), m, c);
  }

  /** Acks, nacks and policy updates never raise the potential; a committed lease strictly lowers it. */
  lemma StepLowersPotential(t: Tracked, a: Action, m: nat, high: Cursor)
    requires Limited(t, m) && Within(a, m, high)
    ensures Potential(Advance(t, a).sub, m, high) + (if Commits(t.sub, a) then 1 else 0) <= Potential(t.sub, m, high)
  {
    var s, u := t.sub, Advance(t, a).sub;
    match a
    case SetPolicy(_) =>
      PotentialMonotone(s, u, m, high);
    case Ack(k) =>
      forall c ensures Remaining(u, m, c) <= Remaining(s, m, c) {
        if c == k {
          AckedCostsNothing(s, k, m);
        } else {
          AckNeverCosts(s, k, m, c);
        }
      }
      PotentialMonotone(s, u, m, high);
    case Nack(_) =>
      PotentialMonotone(s, u, m, high);
    case Lease(_, _, _, _) =>
      if Commits(s, a) {
        forall c ensures Remaining(u, m, c) <= Remaining(s, m, c) {
          AttemptsWithinLimit(t, m, c);
          LeaseLowersCost(t, a, m, c);
        }
        var g, d := Chosen(s, a, false), Chosen(s, a, true);
        var x := if g != [] then g[0] else d[0];
        assert x in g || x in d;
        AttemptsWithinLimit(t, m, x);
        LeaseLowersCost(t, a, m, x);
        PotentialDrops(s, u, m, high, x);
      }
  }

  function After(t: Tracked, acts: seq<Action>): Tracked
    decreases |acts|
  {
    if acts == [] then t else After(Advance(t, acts[0]), acts[1..])
  }

  /** How many leases of the run commit. */
  function Committed(t: Tracked, acts: seq<Action>): nat
    decreases |acts|
  {
    if acts == [] then 0
    else (if Commits(t.sub, acts[0]) then 1 else 0) + Committed(Advance(t, acts[0]), acts[1..])
  }

  lemma {:induction false} CommitsSpendPotential(t: Tracked, acts: seq<Action>, m: nat, high: Cursor)
    requires Limited(t, m) && forall i :: 0 <= i < |acts| ==> Within(acts[i], m, high)
    ensures Limited(After(t, acts), m)
    ensures Committed(t, acts) + Potential(After(t, acts).sub, m, high) <= Potential(t.sub, m, high)
    decreases |acts|
  {
    if acts != [] {
      StepLowersPotential(t, acts[0], m, high);
      LimitedKept(t, acts[0], m, high);
      CommitsSpendPotential(Advance(t, acts[0]), acts[1..], m, high);
    }
  }

  /** However acks, nacks and leases interleave, and whatever retention floors the leases see, at most
      (m + 1) * (high - acked) leases commit. */
  lemma DrainingTerminates(t: Tracked, acts: seq<Action>, m: nat, high: Cursor)
    requires Limited(t, m) && forall i :: 0 <= i < |acts| ==> Within(acts[i], m, high)
    ensures Committed(t, acts) <= (m + 1) * SaturatingSub(high, t.sub.acked)
  {
    CommitsSpendPotential(t, acts, m, high);
    PotentialBound(t.sub, m, high);
  }

  /** The moment is past every outstanding lease's expiry. */
  ghost predicate PastEveryLease(s: Sub, now: Time) {
    forall c :: c in s.leases ==> s.leases[c].expiresAt <= now
  }

  /** Everything published and not pruned below `floor` is acknowledged or dead-lettered. */
  ghost predicate NothingLeft(s: Sub, high: Cursor, floor: Cursor) {
    forall c :: Max(s.acked, floor) < c <= high ==> c in s.ackedSet || c in s.dead
  }

  /** Past every expiry, a lease finds nothing to do exactly when nothing retained is left to handle. */
  lemma IdleExactlyWhenNothingLeft(s: Sub, a: Action)
    requires a.Lease? && a.max >= 1 && PastEveryLease(s, a.now)
    ensures !Commits(s, a) <==> NothingLeft(s, a.high, a.floor)
  {
    var stop := PicksAreTheFirstDeliverables(s, a.high, a.floor, a.now, a.max);
    var g, d := Chosen(s, a, false), Chosen(s, a, true);
    if Commits(s, a) {
      var x := if g != [] then g[0] else d[0];
      assert x in g || x in d;
      ChosenAreFree(s, a, x !in g, x);
    } else {
      forall c | Max(s.acked, a.floor) < c <= a.high ensures c in s.ackedSet || c in s.dead {
        assert Wanted(s, a.now, OverLimit(s, c), c) ==> c in g || c in d;
      }
    }
  }

  /** With no pruned backlog that means drained: the floor has reached the high-water mark. With one, an
      idle subscription's floor lags, since bridging is left to the next lease that finds something. */
  lemma IdleExactlyWhenDrained(t: Tracked, a: Action)
    requires FloorInv(t) && a.Lease? && a.max >= 1 && PastEveryLease(t.sub, a.now)
    ensures a.floor <= t.sub.acked ==> (!Commits(t.sub, a) <==> t.sub.acked >= a.high)
    ensures !Commits(t.sub, a) && a.floor <= a.high ==> (t.sub.acked < a.high <==> t.sub.acked < a.floor)
  {
    IdleExactlyWhenNothingLeft(t.sub, a);
    assert !Handled(t.past, t.sub.acked + 1);
  }

  /** The lag is real: a fresh subscription on a topic whose one message was pruned. */
  lemma IdleFloorCanLag(p: Policy, now: Time, max: nat)
    requires max >= 1
    ensures var s, a := FreshSub(p), Action.Lease(1, 1, now, max);
            !Commits(s, a) && LeaseStep(s, a).acked == 0 < a.high
  {
    IdleExactlyWhenNothingLeft(FreshSub(p), Action.Lease(1, 1, now, max));
  }

  /** Each action is a lease for at least one message, made once all outstanding leases have lapsed, and
      sees a retention floor of at most `floor`. */
  ghost predicate Patient(t: Tracked, acts: seq<Action>, high: Cursor, floor: Cursor)
    decreases |acts|
  {
    acts == [] ||
    (var a := acts[0];
     && a.Lease? && a.high == high && a.max >= 1 && a.floor <= floor && PastEveryLease(t.sub, a.now)
     && Patient(Advance(t, a), acts[1..], high, floor))
  }

  lemma {:induction false} PatientIsWithin(t: Tracked, acts: seq<Action>, m: nat, high: Cursor, floor: Cursor)
    requires Patient(t, acts, high, floor)
    ensures forall i :: 0 <= i < |acts| ==> Within(acts[i], m, high)
    decreases |acts|
  {
    if acts != [] {
      PatientIsWithin(Advance(t, acts[0]), acts[1..], m, high, floor);
      assert forall i :: 1 <= i < |acts| ==> acts[i] == acts[1..][i - 1];
    }
  }

  lemma {:induction false} HandledStays(t: Tracked, acts: seq<Action>, c: Cursor)
    requires Handled(t.past, c)
    ensures Handled(After(t, acts).past, c)
    decreases |acts|
  {
    if acts != [] {
      HandledStays(Advance(t, acts[0]), acts[1..], c);
    }
  }

  /** As long as some retained cursor is not handled, every patient lease commits. */
  lemma {:induction false} PatientCommits(t: Tracked, acts: seq<Action>, m: nat, high: Cursor, floor: Cursor, c: Cursor)
    requires Limited(t, m) && Patient(t, acts, high, floor)
    requires floor < c <= high && !Handled(After(t, acts).past, c)
    ensures Committed(t, acts) == |acts|
    decreases |acts|
  {
    if acts != [] {
      LimitedKept(t, acts[0], m, high);
      PatientCommits(Advance(t, acts[0]), acts[1..], m, high, floor, c);
      if Handled(t.past, c) {
        HandledStays(t, acts, c);
      }
      IdleExactlyWhenNothingLeft(t.sub, acts[0]);
    }
  }

  lemma AfterKeepsLimited(t: Tracked, acts: seq<Action>, m: nat, high: Cursor, floor: Cursor)
    requires Limited(t, m) && Patient(t, acts, high, floor)
    ensures Limited(After(t, acts), m)
  {
    PatientIsWithin(t, acts, m, high, floor);
    CommitsSpendPotential(t, acts, m, high);
  }

  lemma PatientHandles(t: Tracked, acts: seq<Action>, m: nat, high: Cursor, floor: Cursor, c: Cursor)
    requires Limited(t, m) && Patient(t, acts, high, floor) && floor < c <= high
    requires |acts| > (m + 1) * SaturatingSub(high, t.sub.acked)
    ensures Handled(After(t, acts).past, c)
  {
    PatientIsWithin(t, acts, m, high, floor);
    DrainingTerminates(t, acts, m, high);
    if !Handled(After(t, acts).past, c) {
      PatientCommits(t, acts, m, high, floor, c);
    }
  }

  lemma FloorReaches(t: Tracked, floor: Cursor, high: Cursor)
    requires FloorInv(t) && forall c :: floor < c <= high ==> Handled(t.past, c)
    ensures floor <= t.sub.acked ==> t.sub.acked >= high
  {
    assert !Handled(t.past, t.sub.acked + 1);
  }

  /** A consumer that never acknowledges anything, but asks often enough, still sees every message above
      the retention floor handled: retried, then dead-lettered, and never blocking the rest. If the
      floor it ends with is not behind retention, that floor has reached the high-water mark. */
  lemma PatientConsumerDrains(t: Tracked, acts: seq<Action>, m: nat, high: Cursor, floor: Cursor)
    requires Limited(t, m) && Patient(t, acts, high, floor)
    requires |acts| > (m + 1) * SaturatingSub(high, t.sub.acked)
    ensures forall c :: floor < c <= high ==> Handled(After(t, acts).past, c)
    ensures floor <= After(t, acts).sub.acked ==> After(t, acts).sub.acked >= high
  {
    forall c | floor < c <= high ensures Handled(After(t, acts).past, c) {
      PatientHandles(t, acts, m, high, floor, c);
    }
    AfterKeepsLimited(t, acts, m, high, floor);
    FloorReaches(After(t, acts), floor, high);
  }
}
