/** Every run of the registry, with the history each subscription's summary state stands for.
    The registry itself keeps no history: `acked` and four small maps are all that is left of it. The
    lemmas here say that this is enough. */
module SubscriptionHistory {
  import opened Base
  import opened SubscriptionModel

  // ----- histories and steps -----

  /** What happened to one subscription since it was created. */
  datatype History = History(
    acked: set<Cursor>,            // every cursor ever acknowledged
    dead: set<Cursor>,             // every cursor ever dead-lettered
    granted: map<Cursor, nat>,     // how often each cursor was leased
    buried: map<Cursor, nat>,      // how often each cursor was dead-lettered
    bridged: Cursor,               // the largest retention floor of a committed lease
    limits: set<nat>)              // every max_delivery_attempts the policy has had

  datatype Tracked = Tracked(sub: Sub, past: History)

  datatype Action =
    | SetPolicy(policy: Policy)
    | Ack(cursor: Cursor)
    | Nack(cursor: Cursor)
    | Lease(high: Cursor, floor: Cursor, now: Time, max: nat)

  datatype Request =
    | Create(name: string, policy: Policy)
    | Delete(name: string)
    | Act(name: string, action: Action)

  type World = map<string, Tracked>

  function Begin(p: Policy): Tracked {
    Tracked(FreshSub(p), History({}, {}, map[], map[], 0, {p.maxDeliveryAttempts}))
  }

  function Count(m: map<Cursor, nat>, c: Cursor): nat {
    if c in m then m[c] else 0
  }

  function Tally(m: map<Cursor, nat>, cs: seq<Cursor>): map<Cursor, nat> {
    map c | c in m.Keys + Elements(cs) :: Count(m, c) + if c in cs then 1 else 0
  }

  /** The cursors a lease action delivers (or, with `poison`, dead-letters); none for other actions. */
  function Chosen(s: Sub, a: Action, poison: bool): seq<Cursor> {
    if a.Lease? then Picks(s, a.high, a.floor, a.now, a.max, poison) else []
  }

  /** Plan and commit one lease; a lease that picks nothing is not proposed at all. */
  function LeaseStep(s: Sub, a: Action): Sub
    requires a.Lease?
  {
    var grants := Chosen(s, a, false);
    var dead := Chosen(s, a, true);
    if grants == [] && dead == [] then s
    else ApplyLeaseSub(s, Stamp(grants, SaturatingAdd(a.now, Deadline(s.policy))), dead, PlannedFloor(s, a.floor, dead))
  }

  predicate Commits(s: Sub, a: Action) {
    a.Lease? && (Chosen(s, a, false) != [] || Chosen(s, a, true) != [])
  }

  function SubStep(s: Sub, a: Action): Sub {
    match a
    case SetPolicy(p) => s.(policy := p)
    case Ack(c) => AckSub(s, c)
    case Nack(c) => NackSub(s, c)
    case Lease(_, _, _, _) => LeaseStep(s, a)
  }

  function Remember(s: Sub, h: History, a: Action): History {
    match a
    case SetPolicy(p) => h.(limits := h.limits + {p.maxDeliveryAttempts})
    case Ack(c) => h.(acked := h.acked + {c})
    case Nack(_) => h
    case Lease(_, floor, _, _) =>
      if Commits(s, a) then
        h.(dead := h.dead + Elements(Chosen(s, a, true)),
           granted := Tally(h.granted, Chosen(s, a, false)),
           buried := Tally(h.buried, Chosen(s, a, true)),
           bridged := Max(h.bridged, floor))
      else h
  }

  function Advance(t: Tracked, a: Action): Tracked {
    Tracked(SubStep(t.sub, a), Remember(t.sub, t.past, a))
  }

  function Step(w: World, r: Request): World {
    match r
    case Create(n, p) => if n in w then w[n := Advance(w[n], SetPolicy(p))] else w[n := Begin(p)]
    case Delete(n) => w - {n}
    case Act(n, a) => if n in w then w[n := Advance(w[n], a)] else w
  }

  function Run(rs: seq<Request>): World {
    if rs == [] then map[] else Step(Run(rs[..|rs| - 1]), rs[|rs| - 1])
  }

  lemma RunStep(rs: seq<Request>, k: nat)
    requires k < |rs|
    ensures Run(rs[..k + 1]) == Step(Run(rs[..k]), rs[k])
  {
    assert rs[..k + 1][..k] == rs[..k];
  }

  // ----- the histories are only bookkeeping: forgetting them leaves the replicated registry -----

  function Forget(w: World): Registry {
    map n | n in w :: w[n].sub
  }

  /** The operation the owner proposes for a request, if any. */
  function Proposal(r: Registry, q: Request): Option<SubOp> {
    match q
    case Create(n, p) => Some(SubOp.Create(n, p))
    case Delete(n) => Some(SubOp.Delete(n))
    case Act(n, SetPolicy(p)) => if n in r then Some(SubOp.Create(n, p)) else None
    case Act(n, Ack(c)) => if n in r then Some(SubOp.Ack(n, c)) else None
    case Act(n, Nack(c)) => if n in r then Some(SubOp.Nack(n, c)) else None
    case Act(n, Lease(high, floor, now, max)) =>
      if n !in r then None
      else match PlanSub(r[n], n, high, floor, now, max) case None => None case Some(p) => Some(p.op)
  }

  lemma StepIsProposeAndApply(w: World, q: Request)
    ensures var r := Forget(w);
            Forget(Step(w, q)) == match Proposal(r, q) case None => r case Some(op) => ApplyOp(r, op)
  {
    var r := Forget(w);
    match q
    case Create(n, p) =>
    case Delete(n) =>
    case Act(n, a) =>
      if n in w {
        assert r[n] == w[n].sub;
        assert Forget(Step(w, q)) == r[n := SubStep(w[n].sub, a)];
        if a.Lease? && !Commits(r[n], a) {
          assert r[n := r[n]] == r;
        }
      }
  }

  // ----- the invariant -----

  /** Settled by the consumer or the dead-letter policy, or pruned when a lease bridged over it. */
  ghost predicate Handled(h: History, c: Cursor) {
    c in h.acked || c in h.dead || 1 <= c <= h.bridged
  }

  ghost predicate IsLongestHandledPrefix(h: History, k: Cursor) {
    && (forall c :: 1 <= c <= k ==> Handled(h, c))
    && !Handled(h, k + 1)
  }

  ghost predicate FloorInv(t: Tracked) {
    var s, h := t.sub, t.past;
    && IsLongestHandledPrefix(h, s.acked)
    && h.bridged <= s.acked
    && s.ackedSet <= h.acked
    && s.dead <= h.dead
    && (forall c :: c in s.ackedSet ==> c > s.acked)
    && (forall c :: c in h.acked && c > s.acked ==> c in s.ackedSet)
    && (forall c :: c in h.dead && c > s.acked ==> c in s.dead)
  }

  ghost predicate AccountInv(t: Tracked) {
    var s, h := t.sub, t.past;
    && s.leases.Keys == s.attempts.Keys
    && (forall c :: c in s.leases ==> s.leases[c].cursor == c && s.leases[c].attempts == s.attempts[c])
    && (forall c :: c in s.attempts <==> Count(h.granted, c) > 0 && c !in h.acked && c !in h.dead)
    && (forall c :: c in s.attempts ==> s.attempts[c] == Count(h.granted, c))
    && 0 !in h.granted
    && (forall c :: Count(h.buried, c) == if c in h.dead then 1 else 0)
  }

  /** No more deliveries than some limit in force allowed, and none dead-lettered before some limit. */
  ghost predicate LimitInv(t: Tracked) {
    var s, h := t.sub, t.past;
    && s.policy.maxDeliveryAttempts in h.limits
    && (forall c :: Count(h.granted, c) > 0 ==> exists p :: p in h.limits && (p == 0 || Count(h.granted, c) <= p))
    && (forall c :: c in h.dead ==> exists p :: p in h.limits && p > 0 && Count(h.granted, c) >= p)
  }

  ghost predicate Inv(t: Tracked) {
    FloorInv(t) && AccountInv(t) && LimitInv(t)
  }

  // ----- effects of the operations, cursor by cursor -----

  lemma {:induction false} GrantEffect(s: Sub, cs: seq<Cursor>, e: Time)
    requires Ascending(cs)
    ensures var g := Grant(s, Stamp(cs, e));
            && g == s.(attempts := g.attempts, leases := g.leases)
            && g.attempts.Keys == s.attempts.Keys + Elements(cs)
            && g.leases.Keys == s.leases.Keys + Elements(cs)
            && (forall c :: c in cs ==> g.attempts[c] == Attempts(s, c) + 1
                                        && g.leases[c] == SubscriptionModel.Lease(c, e, Attempts(s, c) + 1))
            && (forall c :: c in s.attempts && c !in cs ==> g.attempts[c] == s.attempts[c])
            && (forall c :: c in s.leases && c !in cs ==> g.leases[c] == s.leases[c])
  {
    if cs != [] {
      var front, last := cs[..|cs| - 1], cs[|cs| - 1];
      assert Stamp(cs, e)[..|cs| - 1] == Stamp(front, e);
      assert cs == front + [last];
      GrantEffect(s, front, e);
      assert last !in front;
    }
  }

  /** `t` is `s` after delivering `g` under expiry `e` and dead-lettering `d`, cursor by cursor. */
  ghost predicate LeaseDid(s: Sub, g: seq<Cursor>, d: seq<Cursor>, e: Time, t: Sub) {
    && t.attempts.Keys == (s.attempts.Keys - Elements(d)) + Elements(g)
    && t.leases.Keys == (s.leases.Keys - Elements(d)) + Elements(g)
    && (forall c :: c in g ==> t.attempts[c] == Attempts(s, c) + 1
                               && t.leases[c] == SubscriptionModel.Lease(c, e, Attempts(s, c) + 1))
    && (forall c :: c in s.attempts && c !in g && c !in d ==> t.attempts[c] == s.attempts[c])
    && (forall c :: c in s.leases && c !in g && c !in d ==> t.leases[c] == s.leases[c])
    && (forall c :: c in t.dead <==> (c in s.dead || c in d) && (t.acked > s.acked ==> c > t.acked))
    && (forall c :: c in t.ackedSet <==> c in s.ackedSet && (t.acked > s.acked ==> c > t.acked))
    && t.policy == s.policy
  }

  /** The cursors chosen by a lease are free ones of `(max(acked, floor), high]`. */
  lemma ChosenAreFree(s: Sub, a: Action, poison: bool, c: Cursor)
    requires c in Chosen(s, a, poison)
    ensures s.acked < c && a.floor < c <= a.high && Wanted(s, a.now, poison, c)
  {
    var stop := PicksAreTheFirstDeliverables(s, a.high, a.floor, a.now, a.max);
  }

  /** What one committed lease does to the state. */
  lemma LeaseEffect(s: Sub, a: Action)
    requires Commits(s, a)
    ensures var t := LeaseStep(s, a);
            && t.acked == PlannedFloor(s, a.floor, Chosen(s, a, true)) >= Max(s.acked, a.floor)
            && LeaseDid(s, Chosen(s, a, false), Chosen(s, a, true), SaturatingAdd(a.now, Deadline(s.policy)), t)
  {
    var g, d := Chosen(s, a, false), Chosen(s, a, true);
    var stop := PicksAreTheFirstDeliverables(s, a.high, a.floor, a.now, a.max);
    GrantEffect(Bury(s, d), g, SaturatingAdd(a.now, Deadline(s.policy)));
    forall c | c in g ensures c !in d && Attempts(Bury(s, d), c) == Attempts(s, c) {
    }
  }

  // ----- preservation -----

  lemma BeginInv(p: Policy)
    ensures Inv(Begin(p))
  {
  }

  lemma AckKeepsFloorInv(t: Tracked, c: Cursor)
    requires FloorInv(t)
    ensures FloorInv(Advance(t, Action.Ack(c)))
  {
    var s, h := t.sub, t.past;
    var u := Advance(t, Action.Ack(c));
    var marked := if c > s.acked then s.ackedSet + {c} else s.ackedSet;
    assert IsRunEnd(s.acked, marked + s.dead, u.sub.acked);
    forall x | 1 <= x <= u.sub.acked ensures Handled(u.past, x) {
      if x <= s.acked {
        assert Handled(h, x);
      } else {
        assert x in marked + s.dead;
      }
    }
    assert u.sub.acked + 1 !in marked + s.dead;
  }

  lemma LeaseKeepsFloorInv(t: Tracked, a: Action)
    requires FloorInv(t) && a.Lease?
    ensures FloorInv(Advance(t, a))
  {
    if Commits(t.sub, a) {
      LeaseEffect(t.sub, a);
      var s, h, u := t.sub, t.past, Advance(t, a);
      var d := Chosen(s, a, true);
      forall c | c in d ensures c > s.acked {
        ChosenAreFree(s, a, true, c);
      }
      var handled := s.dead + s.ackedSet + Elements(d);
      forall x | 1 <= x <= u.sub.acked ensures Handled(u.past, x) {
        if x <= s.acked {
          assert Handled(h, x);
        } else if x > a.floor {
          assert x in handled;
        }
      }
      assert u.sub.acked + 1 !in handled;
      assert !Handled(h, s.acked + 1);
    }
  }

  lemma AckKeepsAccount(t: Tracked, c: Cursor)
    requires AccountInv(t)
    ensures AccountInv(Advance(t, Action.Ack(c)))
  {
  }

  /** Cursors chosen by a lease are not settled, and their recorded attempts are their deliveries. */
  lemma ChosenAreUnsettled(t: Tracked, a: Action)
    requires FloorInv(t) && AccountInv(t)
    ensures forall poison, c :: c in Chosen(t.sub, a, poison) ==>
              c !in t.past.acked && c !in t.past.dead && Attempts(t.sub, c) == Count(t.past.granted, c)
    ensures forall c :: c in Chosen(t.sub, a, false) ==> c !in Chosen(t.sub, a, true)
  {
    forall poison, c | c in Chosen(t.sub, a, poison)
      ensures c !in t.past.acked && c !in t.past.dead && Attempts(t.sub, c) == Count(t.past.granted, c)
    {
      ChosenAreFree(t.sub, a, poison, c);
    }
    forall c | c in Chosen(t.sub, a, false) ensures c !in Chosen(t.sub, a, true) {
      ChosenAreFree(t.sub, a, false, c);
      if c in Chosen(t.sub, a, true) {
        ChosenAreFree(t.sub, a, true, c);
      }
    }
  }

  lemma TallyCounts(m: map<Cursor, nat>, cs: seq<Cursor>, c: Cursor)
    ensures Count(Tally(m, cs), c) == Count(m, c) + if c in cs then 1 else 0
  {
  }

  lemma AccountAfterLease(t: Tracked, g: seq<Cursor>, d: seq<Cursor>, e: Time, u: Tracked)
    requires AccountInv(t)
    requires LeaseDid(t.sub, g, d, e, u.sub)
    requires forall c :: c in g || c in d ==>
               c !in t.past.acked && c !in t.past.dead && Attempts(t.sub, c) == Count(t.past.granted, c)
    requires forall c :: c in g ==> c !in d && c > 0
    requires u.past.acked == t.past.acked && u.past.dead == t.past.dead + Elements(d)
    requires u.past.granted == Tally(t.past.granted, g) && u.past.buried == Tally(t.past.buried, d)
    ensures AccountInv(u)
  {
    assert u.sub.leases.Keys == u.sub.attempts.Keys;
    forall c | c in u.sub.leases
      ensures u.sub.leases[c].cursor == c && u.sub.leases[c].attempts == u.sub.attempts[c]
    {
      assert c in g || (c in t.sub.leases && c in t.sub.attempts && c !in d);
    }
    forall c
      ensures c in u.sub.attempts <==> Count(u.past.granted, c) > 0 && c !in u.past.acked && c !in u.past.dead
      ensures c in u.sub.attempts ==> u.sub.attempts[c] == Count(u.past.granted, c)
    {
      TallyCounts(t.past.granted, g, c);
      assert c in u.sub.attempts <==> c in g || (c in t.sub.attempts && c !in d);
    }
    forall c ensures Count(u.past.buried, c) == if c in u.past.dead then 1 else 0 {
      TallyCounts(t.past.buried, d, c);
    }
  }

  lemma RememberLease(t: Tracked, a: Action)
    requires Commits(t.sub, a)
    ensures var g, d, u := Chosen(t.sub, a, false), Chosen(t.sub, a, true), Advance(t, a);
            && u.sub == LeaseStep(t.sub, a)
            && u.past.acked == t.past.acked && u.past.dead == t.past.dead + Elements(d)
            && u.past.granted == Tally(t.past.granted, g) && u.past.buried == Tally(t.past.buried, d)
  {
  }

  lemma LeaseKeepsAccount(t: Tracked, a: Action)
    requires FloorInv(t) && AccountInv(t) && a.Lease?
    ensures AccountInv(Advance(t, a))
  {
    if Commits(t.sub, a) {
      var g, d, u := Chosen(t.sub, a, false), Chosen(t.sub, a, true), Advance(t, a);
      RememberLease(t, a);
      LeaseEffect(t.sub, a);
      ChosenAreUnsettled(t, a);
      forall c | c in g ensures c > 0 {
        ChosenAreFree(t.sub, a, false, c);
      }
      AccountAfterLease(t, g, d, SaturatingAdd(a.now, Deadline(t.sub.policy)), u);
    }
  }

  lemma LeaseKeepsLimits(t: Tracked, a: Action)
    requires Inv(t) && a.Lease?
    ensures LimitInv(Advance(t, a))
  {
    if Commits(t.sub, a) {
      LeaseEffect(t.sub, a);
      var s, h, u := t.sub, t.past, Advance(t, a);
      var g, d := Chosen(s, a, false), Chosen(s, a, true);
      var m := s.policy.maxDeliveryAttempts;
      ChosenAreUnsettled(t, a);
      forall poison, c | c in Chosen(s, a, poison) ensures Wanted(s, a.now, poison, c) {
        ChosenAreFree(s, a, poison, c);
      }
      forall c | Count(u.past.granted, c) > 0
        ensures exists p :: p in u.past.limits && (p == 0 || Count(u.past.granted, c) <= p)
      {
        if c in g {
          assert m in u.past.limits;
        } else {
          assert Count(u.past.granted, c) == Count(h.granted, c);
        }
      }
      forall c | c in u.past.dead
        ensures exists p :: p in u.past.limits && p > 0 && Count(u.past.granted, c) >= p
      {
        if c in d {
          assert m in u.past.limits && c !in g;
        } else {
          assert c in h.dead && Count(u.past.granted, c) >= Count(h.granted, c);
        }
      }
    }
  }

  lemma AdvanceKeepsInv(t: Tracked, a: Action)
    requires Inv(t)
    ensures Inv(Advance(t, a))
  {
    match a
    case SetPolicy(p) =>
      var u := Advance(t, a);
      assert t.past.limits <= u.past.limits;
      assert forall c :: Handled(u.past, c) == Handled(t.past, c);
    case Ack(c) =>
      AckKeepsFloorInv(t, c);
      AckKeepsAccount(t, c);
    case Nack(c) =>
    case Lease(_, _, _, _) =>
      LeaseKeepsFloorInv(t, a);
      LeaseKeepsAccount(t, a);
      LeaseKeepsLimits(t, a);
  }

  /** Every subscription in every reachable registry satisfies the invariant. */
  lemma {:induction false} ReachableInv(rs: seq<Request>, name: string)
    requires name in Run(rs)
    ensures Inv(Run(rs)[name])
  {
    var before, r := Run(rs[..|rs| - 1]), rs[|rs| - 1];
    if name in before {
      ReachableInv(rs[..|rs| - 1], name);
    }
    match r
    case Create(n, p) =>
      if n == name && n in before {
        AdvanceKeepsInv(before[n], SetPolicy(p));
      } else if n == name {
        BeginInv(p);
      }
    case Delete(n) =>
    case Act(n, a) =>
      if n == name {
        AdvanceKeepsInv(before[n], a);
      }
  }
}
