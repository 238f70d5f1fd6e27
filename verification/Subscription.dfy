/** The registry as the owner runs it: objects whose maps are updated in place and whose planner is a
    scanning loop, proved against the definitions of module SubscriptionModel. */
module Subscriptions {
  import opened Base
  import opened SubscriptionModel

  /** What the scan has collected when it has reached `c`. */
  ghost predicate Collected(s: Sub, now: Time, e: Time, start: Cursor, c: Cursor,
                            stamped: seq<(Cursor, Time)>, numbered: seq<(Cursor, nat)>, dying: seq<Cursor>) {
    && start <= c
    && stamped == Stamp(Select(s, now, false, start, c), e)
    && numbered == Number(s, Select(s, now, false, start, c))
    && dying == Select(s, now, true, start, c)
  }

  /** The scan's three ways to pass a cursor: skip it, grant it, or let it die. */
  lemma PassCursor(s: Sub, now: Time, e: Time, start: Cursor, c: Cursor,
                   stamped: seq<(Cursor, Time)>, numbered: seq<(Cursor, nat)>, dying: seq<Cursor>)
    requires Collected(s, now, e, start, c, stamped, numbered, dying)
    ensures Blocked(s, now, c) ==> Collected(s, now, e, start, c + 1, stamped, numbered, dying)
    ensures Wanted(s, now, false, c) ==>
              Collected(s, now, e, start, c + 1, stamped + [(c, e)], numbered + [(c, Attempts(s, c) + 1)], dying)
    ensures Wanted(s, now, true, c) ==> Collected(s, now, e, start, c + 1, stamped, numbered, dying + [c])
  {
  }

  class SubscriptionState {
    var acked: Cursor
    var leases: map<Cursor, Lease>
    var attempts: map<Cursor, nat>
    var dead: set<Cursor>
    var ackedSet: set<Cursor>
    var policy: Policy

    ghost function Model(): Sub
      reads this
    {
      Sub(acked, leases, attempts, dead, ackedSet, policy)
    }

    constructor (policy: Policy)
      ensures Model() == FreshSub(policy)
    {
      this.acked, this.leases, this.attempts := 0, map[], map[];
      this.dead, this.ackedSet, this.policy := {}, {}, policy;
    }

    method AdvanceAcked()
      modifies this
      ensures Model() == SubscriptionModel.AdvanceAcked(old(Model()))
    {
      ghost var s := Model();
      while true
        invariant SubscriptionModel.AdvanceAcked(Model()) == SubscriptionModel.AdvanceAcked(s)
        decreases |ackedSet| + |dead|
      {
        ghost var before := Model();
        var next := acked + 1;
        if next in ackedSet {
          FoldOneThenAdvance(before);
          ackedSet := ackedSet - {next};
          acked := next;
        } else if next in dead {
          FoldOneThenAdvance(before);
          dead := dead - {next};
          acked := next;
        } else {
          NothingToFold(before);
          break;
        }
        assert Model() == FoldOne(before);
      }
    }

    method Ack(cursor: Cursor)
      modifies this
      ensures Model() == AckSub(old(Model()), cursor)
    {
      leases := leases - {cursor};
      attempts := attempts - {cursor};
      if cursor > acked {
        ackedSet := ackedSet + {cursor};
      }
      AdvanceAcked();
    }

    method Nack(cursor: Cursor)
      modifies this
      ensures Model() == NackSub(old(Model()), cursor)
    {
      if cursor in leases {
        leases := leases[cursor := leases[cursor].(expiresAt := 0)];
      }
    }

    method Scan(high: Cursor, floor: Cursor, now: Time, max: nat)
      returns (leasedStamped: seq<(Cursor, Time)>, leasedOut: seq<(Cursor, nat)>, dying: seq<Cursor>)
      ensures var grants := Picks(Model(), high, floor, now, max, false);
              && leasedStamped == Stamp(grants, SaturatingAdd(now, Deadline(policy)))
              && leasedOut == Number(Model(), grants)
      ensures dying == Picks(Model(), high, floor, now, max, true)
    {
      ghost var m := Model();
      var deadline := Clamp(policy.ackDeadlineSecs, 1, MAX_ACK_DEADLINE_SECS);
      var expiresAt := SaturatingAdd(now, deadline);
      var cap := Min(max, MAX_LEASE_BATCH);

      leasedStamped, leasedOut, dying := [], [], [];
      var start: Cursor := Max(acked, floor) + 1;
      var c: Cursor := start;
      while c <= high && |leasedOut| < cap
        invariant Collected(m, now, expiresAt, start, c, leasedStamped, leasedOut, dying)
        invariant ScanStop(m, now, start, start, high, cap) == ScanStop(m, now, start, c, high, cap)
        decreases high + 1 - c
      {
        PassCursor(m, now, expiresAt, start, c, leasedStamped, leasedOut, dying);
        var leasedUnexpired := c in leases && leases[c].expiresAt > now;
        if leasedUnexpired || c in dead || c in ackedSet {
          c := c + 1;
          continue;
        }
        var nextAttempt: nat := (if c in attempts then attempts[c] else 0) + 1;
        if policy.maxDeliveryAttempts != 0 && nextAttempt > policy.maxDeliveryAttempts {
          dying := dying + [c];
        } else {
          leasedStamped := leasedStamped + [(c, expiresAt)];
          leasedOut := leasedOut + [(c, nextAttempt)];
        }
        c := c + 1;
      }
    }

    method ContiguousFloor(floor: Cursor, dying: seq<Cursor>) returns (newAcked: Cursor)
      ensures newAcked == PlannedFloor(Model(), floor, dying)
    {
      newAcked := Max(acked, floor);
      var handled := dead + ackedSet + Elements(dying);
      ghost var end := RunEnd(newAcked, handled);
      while newAcked + 1 in handled
        invariant Max(acked, floor) <= newAcked <= end
        decreases end - newAcked
      {
        newAcked := newAcked + 1;
      }
    }

    method BuryAll(dying: seq<Cursor>)
      modifies this
      ensures Model() == Bury(old(Model()), dying)
    {
      ghost var s := Model();
      for i := 0 to |dying|
        invariant Model() == Bury(s, dying[..i])
      {
        assert Elements(dying[..i + 1]) == Elements(dying[..i]) + {dying[i]};
        dead := dead + {dying[i]};
        leases := leases - {dying[i]};
        attempts := attempts - {dying[i]};
      }
      assert dying[..|dying|] == dying;
    }

    method GrantAll(leased: seq<(Cursor, Time)>)
      modifies this
      ensures Model() == Grant(old(Model()), leased)
    {
      ghost var s := Model();
      for i := 0 to |leased|
        invariant Model() == Grant(s, leased[..i])
      {
        assert leased[..i + 1][..i] == leased[..i];
        var (c, expiresAt) := leased[i];
        var n: nat := (if c in attempts then attempts[c] else 0) + 1;
        attempts := attempts[c := n];
        leases := leases[c := Lease(c, expiresAt, n)];
      }
      assert leased[..|leased|] == leased;
    }

    method ApplyLease(leased: seq<(Cursor, Time)>, dying: seq<Cursor>, newAcked: Cursor)
      modifies this
      ensures Model() == ApplyLeaseSub(old(Model()), leased, dying, newAcked)
    {
      BuryAll(dying);
      GrantAll(leased);
      if newAcked > acked {
        acked := newAcked;
        ackedSet := set c | c in ackedSet && c > newAcked;
        dead := set c | c in dead && c > newAcked;
      }
    }
  }

  class SubRegistry {
    var subs: map<string, SubscriptionState>

    /** Distinct names hold distinct subscriptions. */
    ghost predicate Valid()
      reads this
    {
      forall m, n :: m in subs && n in subs && m != n ==> subs[m] != subs[n]
    }

    ghost function Model(): Registry
      reads this, subs.Values
    {
      map n | n in subs :: subs[n].Model()
    }

    constructor ()
      ensures Valid() && Model() == map[] && subs.Values == {}
    {
      subs := map[];
    }

    /** Changing one subscription in place changes that entry of the model and no other. */
    twostate lemma OneChanged(name: string)
      requires old(Valid()) && unchanged(this) && name in subs
      requires forall n :: n in subs && n != name ==> unchanged(subs[n])
      ensures Model() == old(Model())[name := subs[name].Model()]
    {
    }

    method Apply(op: SubOp)
      requires Valid()
      modifies this, subs.Values
      ensures Valid() && fresh(subs.Values - old(subs.Values))
      ensures Model() == ApplyOp(old(Model()), op)
    {
      match op
      case Create(name, policy) =>
        if name in subs {
          subs[name].policy := policy;
          OneChanged(name);
        } else {
          Insert(name, policy);
        }
      case Delete(name) =>
        subs := subs - {name};
        assert Model() == old(Model()) - {name};
      case ApplyLease(name, leased, dying, newAcked) =>
        if name in subs {
          subs[name].ApplyLease(leased, dying, newAcked);
          OneChanged(name);
        }
      case Ack(name, cursor) =>
        if name in subs {
          subs[name].Ack(cursor);
          OneChanged(name);
        }
      case Nack(name, cursor) =>
        if name in subs {
          subs[name].Nack(cursor);
          OneChanged(name);
        }
    }

    method Insert(name: string, policy: Policy)
      requires Valid() && name !in subs
      modifies this
      ensures Valid() && fresh(subs.Values - old(subs.Values))
      ensures Model() == old(Model())[name := FreshSub(policy)]
    {
      var s := new SubscriptionState(policy);
      ghost var before := subs;
      subs := subs[name := s];
      forall n | n in before ensures before[n] in old(subs.Values) && subs[n] == before[n] {
      }
    }

    method PlanLease(name: string, high: Cursor, floor: Cursor, now: Time, max: nat)
      returns (plan: Option<PlannedLease>)
      requires Valid()
      ensures plan == if name in subs then PlanSub(subs[name].Model(), name, high, floor, now, max) else None
    {
      if name !in subs {
        return None;
      }
      var s := subs[name];
      var leasedStamped, leasedOut, dying := s.Scan(high, floor, now, max);
      if leasedStamped == [] && dying == [] {
        return None;
      }
      var newAcked := s.ContiguousFloor(floor, dying);
      plan := Some(PlannedLease(
        SubOp.ApplyLease(name, leasedStamped, dying, newAcked), LeaseOutcome(leasedOut, dying)));
    }
  }
}
