/** What the registry promises its consumers, over whole runs. */
module DeliveryGuarantees {
  import opened Base
  import opened SubscriptionModel
  import opened SubscriptionHistory

  // ----- the floor -----

  /** `acked` is the longest prefix 1..k of settled or bridged-over cursors, in every reachable state. */
  lemma FloorIsLongestHandledPrefix(rs: seq<Request>, name: string, k: Cursor)
    requires name in Run(rs)
    ensures IsLongestHandledPrefix(Run(rs)[name].past, k) <==> k == Run(rs)[name].sub.acked
  {
    ReachableInv(rs, name);
    var t := Run(rs)[name];
    if IsLongestHandledPrefix(t.past, k) {
      assert !Handled(t.past, k + 1) && !Handled(t.past, t.sub.acked + 1);
    }
  }

  /** An ack may name any cursor, so the floor can pass the topic's high-water mark. From any state, it
      ends up above `high` exactly when every cursor from the floor up to and including `high + 1`, the
      first one not yet published, is already marked or is the one acknowledged now. */
  lemma AckPassesHighExactlyWhen(s: Sub, c: Cursor, high: Cursor)
    ensures AckSub(s, c).acked > high
            <==> forall x :: s.acked < x <= high + 1 ==> x in s.ackedSet || x in s.dead || x == c
  {
    var r := AckSub(s, c).acked;
    var marked := (if c > s.acked then s.ackedSet + {c} else s.ackedSet) + s.dead;
    assert IsRunEnd(s.acked, marked, r);
    forall x | r > high && s.acked < x <= high + 1 ensures x in s.ackedSet || x in s.dead || x == c {
      assert x in marked;
    }
  }

  // ----- structure -----

  /** The maps agree with each other, and stale leases sit only where a retention floor was bridged. */
  ghost predicate MapsAgree(t: Tracked) {
    var s, h := t.sub, t.past;
    && s.leases.Keys == s.attempts.Keys
    && (forall c :: c in s.leases ==> s.leases[c].cursor == c && s.leases[c].attempts == s.attempts[c])
    && s.leases.Keys !! s.ackedSet && s.leases.Keys !! s.dead
    && (forall c :: c in s.leases ==> c > s.acked || 1 <= c <= h.bridged)
    && (forall c :: c in s.ackedSet ==> c > s.acked + 1)
    && s.acked + 1 !in s.dead
  }

  lemma InvMakesMapsAgree(t: Tracked)
    requires Inv(t)
    ensures MapsAgree(t)
  {
    var s, h := t.sub, t.past;
    forall c | c in s.leases ensures c > s.acked || 1 <= c <= h.bridged {
      assert 1 <= c <= s.acked ==> Handled(h, c);
    }
    assert !Handled(h, s.acked + 1);
  }

  lemma MapsAlwaysAgree(rs: seq<Request>, name: string)
    requires name in Run(rs)
    ensures MapsAgree(Run(rs)[name])
  {
    ReachableInv(rs, name);
    InvMakesMapsAgree(Run(rs)[name]);
  }

  // ----- no redelivery -----

  /** Request `r`, arriving in `w`, delivers (or with `poison` dead-letters) cursor `c` of `name`. */
  ghost predicate Touches(w: World, r: Request, name: string, c: Cursor, poison: bool) {
    r.Act? && r.name == name && name in w && c in Chosen(w[name].sub, r.action, poison)
  }

  /** Request `r`, arriving in `w`, acknowledges or dead-letters `c`. */
  ghost predicate Settles(w: World, r: Request, name: string, c: Cursor) {
    (name in w && r == Act(name, Action.Ack(c))) || Touches(w, r, name, c, true)
  }

  ghost predicate Settled(t: Tracked, c: Cursor) {
    c in t.past.acked || c in t.past.dead
  }

  lemma SettlesMakesSettled(w: World, r: Request, name: string, c: Cursor)
    requires Settles(w, r, name, c)
    ensures name in Step(w, r) && Settled(Step(w, r)[name], c)
  {
  }

  lemma SettledKept(w: World, r: Request, name: string, c: Cursor)
    requires name in w && Settled(w[name], c) && r != Request.Delete(name)
    ensures name in Step(w, r) && Settled(Step(w, r)[name], c)
  {
  }

  lemma {:induction false} SettledStays(rs: seq<Request>, i: nat, j: nat, name: string, c: Cursor)
    requires i < j <= |rs| && Settles(Run(rs[..i]), rs[i], name, c)
    requires forall k :: i < k < j ==> rs[k] != Request.Delete(name)
    ensures name in Run(rs[..j]) && Settled(Run(rs[..j])[name], c)
  {
    RunStep(rs, j - 1);
    if i < j - 1 {
      SettledStays(rs, i, j - 1, name, c);
      SettledKept(Run(rs[..j - 1]), rs[j - 1], name, c);
    } else {
      SettlesMakesSettled(Run(rs[..i]), rs[i], name, c);
    }
  }

  /** Once a cursor is acknowledged or dead-lettered, no later lease of the same incarnation delivers it
      or dead-letters it again. */
  lemma NoRedelivery(rs: seq<Request>, i: nat, j: nat, name: string, c: Cursor, poison: bool)
    requires i < j < |rs| && Settles(Run(rs[..i]), rs[i], name, c)
    requires forall k :: i < k < j ==> rs[k] != Request.Delete(name)
    ensures !Touches(Run(rs[..j]), rs[j], name, c, poison)
  {
    SettledStays(rs, i, j, name, c);
    ReachableInv(rs[..j], name);
    if rs[j].Act? && rs[j].name == name {
      ChosenAreUnsettled(Run(rs[..j])[name], rs[j].action);
    }
  }

  // ----- at least once -----

  lemma UnsettledIsFree(t: Tracked, now: Time, c: Cursor)
    requires FloorInv(t) && AccountInv(t) && !Settled(t, c)
    requires c in t.sub.leases ==> t.sub.leases[c].expiresAt <= now
    ensures !Blocked(t.sub, now, c)
  {
  }

  /** A cursor that is neither acknowledged nor dead-lettered, whose lease (if it ever had one) has
      lapsed, is picked by the next lease that reaches it, and then delivered with the next attempt
      number, or dead-lettered if that would exceed the limit. */
  lemma UnsettledIsRedelivered(rs: seq<Request>, name: string, a: Action, c: Cursor)
    requires name in Run(rs) && a.Lease? && !Settled(Run(rs)[name], c)
    requires var s := Run(rs)[name].sub;
             && s.acked < c <= a.high && a.floor < c
             && (c in s.leases ==> s.leases[c].expiresAt <= a.now)
             && |Select(s, a.now, false, ScanStart(s, a.floor), c)| < Min(a.max, MAX_LEASE_BATCH)
    ensures var t := Run(rs)[name];
            var m := t.sub.policy.maxDeliveryAttempts;
            c in Chosen(t.sub, a, m != 0 && Count(t.past.granted, c) >= m)
  {
    var t := Run(rs)[name];
    ReachableInv(rs, name);
    UnsettledIsFree(t, a.now, c);
    FreeCursorIsPicked(t.sub, a.high, a.floor, a.now, a.max, c);
    assert c in t.sub.attempts <==> Count(t.past.granted, c) > 0;
  }

  /** A nack frees a leased cursor at once, whatever the time, and keeps its attempts. */
  lemma NackFreesAtOnce(rs: seq<Request>, name: string, c: Cursor, now: Time)
    requires name in Run(rs) && c in Run(rs)[name].sub.leases
    ensures var t := Run(rs)[name];
            var u := Advance(t, Action.Nack(c));
            && !Blocked(u.sub, now, c)
            && Attempts(u.sub, c) == Attempts(t.sub, c) == Count(t.past.granted, c) > 0
            && forall x :: x != c ==> Blocked(u.sub, now, x) == Blocked(t.sub, now, x)
  {
    ReachableInv(rs, name);
    InvMakesMapsAgree(Run(rs)[name]);
  }

  // ----- delivery accounting -----

  lemma PlannedAttempts(t: Tracked, name: string, a: Action, i: nat)
    requires FloorInv(t) && AccountInv(t) && a.Lease? && i < |Chosen(t.sub, a, false)|
    ensures var plan := PlanSub(t.sub, name, a.high, a.floor, a.now, a.max);
            && plan.Some? && i < |plan.value.outcome.leased|
            && var c := Chosen(t.sub, a, false)[i];
               plan.value.outcome.leased[i] == (c, Count(t.past.granted, c) + 1)
  {
    var g := Chosen(t.sub, a, false);
    assert g[i] in g;
    ChosenAreUnsettled(t, a);
  }

  lemma StoredAttempts(t: Tracked, a: Action, c: Cursor)
    requires FloorInv(t) && AccountInv(t) && a.Lease? && c in Chosen(t.sub, a, false)
    ensures var after := Advance(t, a);
            && Count(after.past.granted, c) == Count(t.past.granted, c) + 1
            && c in after.sub.attempts && after.sub.attempts[c] == Count(after.past.granted, c)
  {
    ChosenAreUnsettled(t, a);
    LeaseEffect(t.sub, a);
    TallyCounts(t.past.granted, Chosen(t.sub, a, false), c);
  }

  /** The attempt number handed to the consumer is one more than the deliveries so far, and is what the
      replicated state stores. */
  lemma AttemptNumbersAreExact(rs: seq<Request>, name: string, a: Action, i: nat)
    requires name in Run(rs) && a.Lease? && i < |Chosen(Run(rs)[name].sub, a, false)|
    ensures var t := Run(rs)[name];
            var plan := PlanSub(t.sub, name, a.high, a.floor, a.now, a.max);
            && plan.Some? && i < |plan.value.outcome.leased|
            && var (c, attempt) := plan.value.outcome.leased[i];
               var after := Advance(t, a);
               && attempt == Count(t.past.granted, c) + 1
               && attempt == Count(after.past.granted, c)
               && c in after.sub.attempts && after.sub.attempts[c] == attempt
  {
    var t := Run(rs)[name];
    ReachableInv(rs, name);
    PlannedAttempts(t, name, a, i);
    StoredAttempts(t, a, Chosen(t.sub, a, false)[i]);
  }

  /** From the i-th request on, every policy given to `name` allows exactly `m` attempts. */
  ghost predicate LimitSince(rs: seq<Request>, i: nat, name: string, m: nat) {
    forall k :: i <= k < |rs| && rs[k].name == name ==>
      (rs[k].Create? ==> rs[k].policy.maxDeliveryAttempts == m)
      && (rs[k].Act? && rs[k].action.SetPolicy? ==> rs[k].action.policy.maxDeliveryAttempts == m)
  }

  /** What an earlier incarnation of the name allowed does not matter. */
  lemma {:induction false} ConstantLimit(rs: seq<Request>, i: nat, name: string, m: nat)
    requires i <= |rs| && name !in Run(rs[..i]) && name in Run(rs)
    requires LimitSince(rs, i, name, m)
    ensures Run(rs)[name].past.limits == {m}
  {
    assert rs[..|rs|] == rs;
    var before, r := rs[..|rs| - 1], rs[|rs| - 1];
    assert r.name == rs[|rs| - 1].name;
    assert before[..i] == rs[..i];
    if name in Run(before) {
      ConstantLimit(before, i, name, m);
    }
  }

  /** What a planned lease tells the owner to send to the dead-letter topic: in order, exactly the free
      over-limit cursors within reach of the scan. They are the ones the operation marks dead, and the ones
      the subscription's history gains. The deliveries it reports are those of the operation, one for one. */
  lemma OutcomeIsExact(rs: seq<Request>, name: string, a: Action, plan: PlannedLease)
    requires name in Run(rs) && a.Lease?
    requires PlanSub(Run(rs)[name].sub, name, a.high, a.floor, a.now, a.max) == Some(plan)
    ensures var t := Run(rs)[name];
            var after := Advance(t, a).past;
            && plan.op.ApplyLease? && plan.outcome.deadLettered == plan.op.dead
            && Ascending(plan.outcome.deadLettered)
            && (forall c :: c in plan.outcome.deadLettered
                            <==> Reached(t.sub, a.high, a.floor, a.now, a.max, c) && Wanted(t.sub, a.now, true, c))
            && (forall c :: c in plan.outcome.deadLettered <==> c in after.dead && c !in t.past.dead)
            && |plan.outcome.leased| == |plan.op.leased|
            && (forall i :: 0 <= i < |plan.op.leased| ==> plan.outcome.leased[i].0 == plan.op.leased[i].0)
  {
    var t := Run(rs)[name];
    ReachableInv(rs, name);
    ChosenAreUnsettled(t, a);
    var stop := PicksAreTheFirstDeliverables(t.sub, a.high, a.floor, a.now, a.max);
    forall c ensures c in Chosen(t.sub, a, true)
                     <==> Reached(t.sub, a.high, a.floor, a.now, a.max, c) && Wanted(t.sub, a.now, true, c)
    {
      PickedExactlyWhen(t.sub, a.high, a.floor, a.now, a.max, true, c);
    }
  }

  /** Under a constant limit m > 0 no cursor is delivered more than m times, none is dead-lettered more
      than once, and only after exactly m deliveries. With m = 0 nothing is ever dead-lettered. */
  lemma DeliveriesAreBounded(rs: seq<Request>, name: string, m: nat, c: Cursor)
    requires name in Run(rs) && Run(rs)[name].past.limits == {m}
    ensures var h := Run(rs)[name].past;
            && (m > 0 ==> Count(h.granted, c) <= m)
            && Count(h.buried, c) <= 1
            && (Count(h.buried, c) == 1 ==> m > 0 && Count(h.granted, c) == m)
  {
    ReachableInv(rs, name);
  }

  /** For cursors not yet settled the stored attempt count is the number of deliveries. */
  lemma AttemptsCountDeliveries(rs: seq<Request>, name: string, c: Cursor)
    requires name in Run(rs) && !Settled(Run(rs)[name], c)
    ensures Attempts(Run(rs)[name].sub, c) == Count(Run(rs)[name].past.granted, c)
  {
    ReachableInv(rs, name);
  }

  // ----- lease exclusivity -----

  /** A delivered cursor is held exactly until its deadline, or until the end of 64-bit time. */
  lemma HeldExactlyUntilDeadline(t: Tracked, a: Action, c: Cursor, now: Time)
    requires c in Chosen(t.sub, a, false)
    ensures var due := a.now + Deadline(t.sub.policy);
            Blocked(Advance(t, a).sub, now, c) <==> now < due && now < U64_MAX
  {
    LeaseEffect(t.sub, a);
    ChosenAreFree(t.sub, a, false, c);
    if c in Chosen(t.sub, a, true) {
      ChosenAreFree(t.sub, a, true, c);
    }
  }

  /** `c` is settled, or still leased at least until `e`. */
  ghost predicate HeldUntil(t: Tracked, c: Cursor, e: Time) {
    Settled(t, c) || (c in t.sub.leases && t.sub.leases[c].expiresAt >= e)
  }

  lemma HeldUntilKept(t: Tracked, a: Action, c: Cursor, e: Time)
    requires Inv(t) && HeldUntil(t, c, e) && a != Action.Nack(c)
    ensures HeldUntil(Advance(t, a), c, e)
  {
    if a.Lease? && Commits(t.sub, a) {
      LeaseEffect(t.sub, a);
      if c in Chosen(t.sub, a, false) {
        ChosenAreFree(t.sub, a, false, c);
        ChosenAreUnsettled(t, a);
      }
    }
  }

  lemma HeldAfterLease(t: Tracked, a: Action, c: Cursor)
    requires c in Chosen(t.sub, a, false)
    ensures HeldUntil(Advance(t, a), c, SaturatingAdd(a.now, Deadline(t.sub.policy)))
  {
    LeaseEffect(t.sub, a);
  }

  lemma HeldUntilKeptInWorld(w: World, r: Request, name: string, c: Cursor, e: Time)
    requires name in w && Inv(w[name]) && HeldUntil(w[name], c, e)
    requires r != Request.Delete(name) && r != Act(name, Action.Nack(c))
    ensures name in Step(w, r) && HeldUntil(Step(w, r)[name], c, e)
  {
    if r.name == name {
      HeldUntilKept(w[name], if r.Create? then SetPolicy(r.policy) else r.action, c, e);
    }
  }

  lemma {:induction false} HeldInRun(rs: seq<Request>, i: nat, j: nat, name: string, c: Cursor, e: Time)
    requires i < j <= |rs|
    requires name in Run(rs[..i + 1]) && HeldUntil(Run(rs[..i + 1])[name], c, e)
    requires forall k :: i < k < j ==> rs[k] != Request.Delete(name) && rs[k] != Act(name, Action.Nack(c))
    ensures name in Run(rs[..j]) && HeldUntil(Run(rs[..j])[name], c, e)
  {
    if i < j - 1 {
      HeldInRun(rs, i, j - 1, name, c, e);
      ReachableInv(rs[..j - 1], name);
      RunStep(rs, j - 1);
      HeldUntilKeptInWorld(Run(rs[..j - 1]), rs[j - 1], name, c, e);
    }
  }

  /** A cursor leased at t1 under deadline d is not leased or dead-lettered again before t1 + d, unless
      it is nacked or the subscription deleted in between. The clock need not be monotone. */
  lemma LeaseIsExclusive(rs: seq<Request>, i: nat, j: nat, name: string, c: Cursor, poison: bool)
    requires i < j < |rs|
    requires Touches(Run(rs[..i]), rs[i], name, c, false)
    requires forall k :: i < k < j ==> rs[k] != Request.Delete(name) && rs[k] != Act(name, Action.Nack(c))
    requires Touches(Run(rs[..j]), rs[j], name, c, poison)
    ensures rs[j].action.now >= SaturatingAdd(rs[i].action.now, Deadline(Run(rs[..i])[name].sub.policy))
  {
    var first := Run(rs[..i])[name];
    RunStep(rs, i);
    HeldAfterLease(first, rs[i].action, c);
    HeldInRun(rs, i, j, name, c, SaturatingAdd(rs[i].action.now, Deadline(first.sub.policy)));
    var t := Run(rs[..j])[name];
    ReachableInv(rs[..j], name);
    ChosenAreUnsettled(t, rs[j].action);
    ChosenAreFree(t.sub, rs[j].action, poison, c);
  }
}
