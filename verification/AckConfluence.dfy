/** Out-of-order acknowledgement: the order in which a set of cursors is acked does not matter, except
    for which dead-letter marks are left behind, and that exactly characterised. */
module AckConfluence {
  import opened Base
  import opened SubscriptionModel
  import opened SubscriptionHistory

  function Acks(s: Sub, cs: seq<Cursor>): Sub
    decreases |cs|
  {
    if cs == [] then s else Acks(AckSub(s, cs[0]), cs[1..])
  }

  /** What every reachable subscription satisfies: the floor cannot advance, acks lie above it. */
  ghost predicate Ready(s: Sub) {
    && s.acked + 1 !in s.ackedSet && s.acked + 1 !in s.dead
    && forall c :: c in s.ackedSet ==> c > s.acked
  }

  lemma ReachableIsReady(rs: seq<Request>, name: string)
    requires name in Run(rs)
    ensures Ready(Run(rs)[name].sub)
  {
    ReachableInv(rs, name);
    assert !Handled(Run(rs)[name].past, Run(rs)[name].sub.acked + 1);
  }

  /** Where the floor stands once all of `cs` are acked. */
  function FinalFloor(s: Sub, cs: seq<Cursor>): Cursor {
    RunEnd(s.acked, s.ackedSet + s.dead + Elements(cs))
  }

  lemma AckOnce(s: Sub, c: Cursor)
    requires Ready(s)
    ensures var t := AckSub(s, c);
            && Ready(t)
            && IsRunEnd(s.acked, s.ackedSet + s.dead + {c}, t.acked)
            && (forall x :: x in t.ackedSet <==> (x in s.ackedSet || x == c) && x > t.acked)
            && (forall x :: x in t.dead <==> x in s.dead && (x <= s.acked || x > t.acked || x in s.ackedSet || x == c))
  {
    var marked := if c > s.acked then s.ackedSet + {c} else s.ackedSet;
    assert IsRunEnd(s.acked, marked + s.dead, AckSub(s, c).acked);
    forall x | s.acked < x <= AckSub(s, c).acked ensures x in s.ackedSet + s.dead + {c} {
      assert x in marked + s.dead;
    }
  }

  /** `t` is `s` with all of `cs` acked, as far as that does not depend on their order. */
  ghost predicate AckedAll(s: Sub, cs: set<Cursor>, floor: Cursor, t: Sub) {
    && Ready(t)
    && t.acked == floor
    && t.ackedSet == (set c | c in s.ackedSet + cs && c > floor)
    && t.leases == s.leases - cs
    && t.attempts == s.attempts - cs
    && t.policy == s.policy
    && t.dead <= s.dead
  }

  lemma AckThenAll(s: Sub, c: Cursor, rest: set<Cursor>, floor: Cursor, t: Sub)
    requires Ready(s) && AckedAll(AckSub(s, c), rest, floor, t) && floor >= AckSub(s, c).acked
    ensures AckedAll(s, {c} + rest, floor, t)
  {
    AckOnce(s, c);
    assert (s.leases - {c}) - rest == s.leases - ({c} + rest);
    assert (s.attempts - {c}) - rest == s.attempts - ({c} + rest);
  }

  /** Everything but the dead marks depends only on the set of acked cursors. */
  lemma {:induction false} AcksClosedForm(s: Sub, cs: seq<Cursor>)
    requires Ready(s)
    ensures AckedAll(s, Elements(cs), FinalFloor(s, cs), Acks(s, cs))
    decreases |cs|
  {
    if cs == [] {
      RunEndUnique(s.acked, s.ackedSet + s.dead + Elements(cs), FinalFloor(s, cs), s.acked);
    } else {
      var c, rest := cs[0], cs[1..];
      AckOnce(s, c);
      AcksClosedForm(AckSub(s, c), rest);
      FloorsCompose(s, c, rest);
      assert cs == [c] + rest;
      assert Elements(cs) == {c} + Elements(rest);
      AckThenAll(s, c, Elements(rest), FinalFloor(s, cs), Acks(s, cs));
    }
  }

  lemma FloorsCompose(s: Sub, c: Cursor, rest: seq<Cursor>)
    requires Ready(s)
    ensures FinalFloor(AckSub(s, c), rest) == FinalFloor(s, [c] + rest)
  {
    var t := AckSub(s, c);
    AckOnce(s, c);
    var all := s.ackedSet + s.dead + Elements([c] + rest);
    var later := t.ackedSet + t.dead + Elements(rest);
    var q := FinalFloor(t, rest);
    forall x | s.acked < x <= q ensures x in all {
      if x <= t.acked {
        assert x in s.ackedSet + s.dead + {c};
      } else {
        assert x in later;
      }
    }
    assert q + 1 !in later;
    assert IsRunEnd(s.acked, all, q);
    RunEndUnique(s.acked, all, q, FinalFloor(s, [c] + rest));
  }

  /** No cursor of `cs` carries a dead mark that the floor will pass over, unless it is acked already. */
  ghost predicate OrderFree(s: Sub, cs: seq<Cursor>) {
    forall c :: c in cs && c in s.dead && c !in s.ackedSet ==> c <= s.acked || c > FinalFloor(s, cs)
  }

  lemma {:induction false} DeadClosedForm(s: Sub, cs: seq<Cursor>)
    requires Ready(s) && OrderFree(s, cs)
    ensures var r := FinalFloor(s, cs);
            Acks(s, cs).dead == (set x | x in s.dead && (x <= s.acked || x > r || x in s.ackedSet))
    decreases |cs|
  {
    if cs == [] {
      AcksClosedForm(s, cs);
    } else {
      var c, rest := cs[0], cs[1..];
      var t := AckSub(s, c);
      AckOnce(s, c);
      FloorsCompose(s, c, rest);
      assert cs == [c] + rest;
      assert OrderFree(t, rest) by {
        forall x | x in rest && x in t.dead && x !in t.ackedSet ensures x <= t.acked || x > FinalFloor(t, rest) {
          assert x in cs;
        }
      }
      DeadClosedForm(t, rest);
    }
  }

  /** Same cursors, any order, any repetitions: same floor, pending acks, leases and attempts; and the
      same state altogether when the set is order-free. */
  lemma AcksCommute(s: Sub, cs: seq<Cursor>, ds: seq<Cursor>)
    requires Ready(s) && Elements(cs) == Elements(ds)
    ensures Acks(s, cs).(dead := {}) == Acks(s, ds).(dead := {})
    ensures OrderFree(s, cs) ==> Acks(s, cs) == Acks(s, ds)
  {
    AcksClosedForm(s, cs);
    AcksClosedForm(s, ds);
    if OrderFree(s, cs) {
      assert forall c :: c in ds ==> c in Elements(cs);
      DeadClosedForm(s, cs);
      DeadClosedForm(s, ds);
    }
  }

  // ----- the exception is real, and exactly this one -----

  lemma {:induction false} AcksAppend(s: Sub, cs: seq<Cursor>, c: Cursor)
    ensures Acks(s, cs + [c]) == AckSub(Acks(s, cs), c)
    decreases |cs|
  {
    if cs != [] {
      assert (cs + [c])[1..] == cs[1..] + [c];
      AcksAppend(AckSub(s, cs[0]), cs[1..], c);
    }
  }

  /** A dead mark on a cursor that is acked (or passed) is never removed by further acks. */
  lemma {:induction false} StaleMarkStays(s: Sub, cs: seq<Cursor>, c: Cursor)
    requires Ready(s) && c in s.dead && (c in s.ackedSet || c <= s.acked)
    ensures c in Acks(s, cs).dead
    decreases |cs|
  {
    if cs != [] {
      AckOnce(s, cs[0]);
      StaleMarkStays(AckSub(s, cs[0]), cs[1..], c);
    }
  }

  /** A dead mark the floor passes before its cursor is acked is removed. */
  lemma {:induction false} PassedMarkGoes(s: Sub, cs: seq<Cursor>, c: Cursor)
    requires Ready(s) && c in s.dead && c !in s.ackedSet && c !in cs
    requires s.acked < c <= Acks(s, cs).acked
    ensures c !in Acks(s, cs).dead
    decreases |cs|
  {
    if cs != [] {
      var t := AckSub(s, cs[0]);
      AckOnce(s, cs[0]);
      if c <= t.acked {
        AcksClosedForm(t, cs[1..]);
      } else {
        PassedMarkGoes(t, cs[1..], c);
      }
    }
  }

  function Without(cs: seq<Cursor>, c: Cursor): (r: seq<Cursor>)
    ensures forall x :: x in r <==> x in cs && x != c
  {
    if cs == [] then []
    else if cs[0] == c then Without(cs[1..], c)
    else [cs[0]] + Without(cs[1..], c)
  }

  lemma AckedFirstLeavesMark(s: Sub, others: seq<Cursor>, c: Cursor)
    requires Ready(s) && c in s.dead && c > s.acked
    ensures c in Acks(s, [c] + others).dead
  {
    AckOnce(s, c);
    RunEndUnique(s.acked, s.ackedSet + s.dead + {c}, AckSub(s, c).acked, s.acked);
    assert ([c] + others)[1..] == others;
    StaleMarkStays(AckSub(s, c), others, c);
  }

  lemma AckedLastLeavesNone(s: Sub, others: seq<Cursor>, c: Cursor)
    requires Ready(s) && c in s.dead && c !in s.ackedSet && c !in others
    requires s.acked < c <= FinalFloor(s, others)
    ensures c !in Acks(s, others + [c]).dead
  {
    AcksClosedForm(s, others);
    PassedMarkGoes(s, others, c);
    AcksAppend(s, others, c);
    AckOnce(Acks(s, others), c);
  }

  lemma TwoOrdersDiffer(s: Sub, cs: seq<Cursor>, c: Cursor)
    requires Ready(s) && c in cs && c in s.dead && c !in s.ackedSet && s.acked < c <= FinalFloor(s, cs)
    ensures var others := Without(cs, c);
            && Elements([c] + others) == Elements(cs) == Elements(others + [c])
            && Acks(s, [c] + others) != Acks(s, others + [c])
  {
    var others := Without(cs, c);
    assert s.ackedSet + s.dead + Elements(others) == s.ackedSet + s.dead + Elements(cs);
    AckedFirstLeavesMark(s, others, c);
    AckedLastLeavesNone(s, others, c);
  }

  /** The order of acks is unobservable exactly when the set is order-free. */
  lemma ConfluentExactlyWhenOrderFree(s: Sub, cs: seq<Cursor>)
    requires Ready(s)
    ensures (forall ds: seq<Cursor> :: Elements(ds) == Elements(cs) ==> Acks(s, ds) == Acks(s, cs))
            <==> OrderFree(s, cs)
  {
    if OrderFree(s, cs) {
      forall ds: seq<Cursor> | Elements(ds) == Elements(cs) ensures Acks(s, ds) == Acks(s, cs) {
        AcksCommute(s, cs, ds);
      }
    } else {
      var c :| c in cs && c in s.dead && c !in s.ackedSet && s.acked < c <= FinalFloor(s, cs);
      TwoOrdersDiffer(s, cs, c);
    }
  }

  /** Deliver 1 and 2 under a limit of one attempt, nack 2, and lease again: 2 is dead-lettered while 1 is
      still out. */
  function DeadBehindLeased(lease: Action): seq<Request> {
    [Request.Create("s", Policy(30, 1)), Act("s", lease), Act("s", Action.Nack(2)), Act("s", lease)]
  }

  /** A lease of up to two messages out of two published, at time 0. */
  predicate LeasesTwo(a: Action) {
    a.Lease? && a.high == 2 && a.floor == 0 && a.now == 0 && a.max == 2
  }

  lemma HeadIsIn(cs: seq<Cursor>)
    ensures cs == [] || cs[0] in cs
  {
  }

  lemma FirstLeaseTakesBoth(s: Sub, a: Action)
    requires s == FreshSub(Policy(30, 1)) && LeasesTwo(a)
    ensures Elements(Chosen(s, a, false)) == {1, 2} && Chosen(s, a, true) == []
  {
    var stop := PicksAreTheFirstDeliverables(s, a.high, a.floor, a.now, a.max);
    var g, d := Chosen(s, a, false), Chosen(s, a, true);
    assert Wanted(s, a.now, false, 1) && Wanted(s, a.now, false, 2);
    HeadIsIn(d);
    if |g| == 2 {
      assert g[0] in g && g[1] in g;
    }
    assert stop == 3;
  }

  lemma SecondLeaseBuries(s: Sub, a: Action)
    requires LeasesTwo(a) && s.acked == 0 && s.ackedSet == {} && s.dead == {} && s.policy == Policy(30, 1)
    requires s.leases.Keys == {1, 2} == s.attempts.Keys
    requires s.leases[1].expiresAt == 30 && s.leases[2].expiresAt == 0 && s.attempts[2] == 1
    ensures Chosen(s, a, false) == [] && Elements(Chosen(s, a, true)) == {2}
  {
    var stop := PicksAreTheFirstDeliverables(s, a.high, a.floor, a.now, a.max);
    var g, d := Chosen(s, a, false), Chosen(s, a, true);
    assert Blocked(s, a.now, 1) && Wanted(s, a.now, true, 2);
    HeadIsIn(g);
  }

  /** A lease whose picks stop short of cursor 1 leaves the floor at 0. */
  lemma LeaseLeavesFloor(s: Sub, a: Action)
    requires Commits(s, a) && a.floor == 0 && s.acked == 0 && s.ackedSet == {} && s.dead == {}
    requires 1 !in Chosen(s, a, true)
    ensures var t := LeaseStep(s, a);
            t.acked == 0 && t.ackedSet == {} && t.dead == Elements(Chosen(s, a, true))
  {
    LeaseEffect(s, a);
    var d := Chosen(s, a, true);
    RunEndUnique(0, s.dead + s.ackedSet + Elements(d), PlannedFloor(s, a.floor, d), 0);
  }

  lemma AfterFirstLease(s: Sub, a: Action)
    requires s == FreshSub(Policy(30, 1)) && LeasesTwo(a)
    ensures var t := LeaseStep(s, a);
            && t.acked == 0 && t.ackedSet == {} && t.dead == {} && t.policy == s.policy
            && t.leases.Keys == {1, 2} == t.attempts.Keys
            && t.leases[1].expiresAt == 30 && t.attempts[2] == 1
  {
    FirstLeaseTakesBoth(s, a);
    assert 1 in Elements(Chosen(s, a, false)) && 2 in Elements(Chosen(s, a, false));
    LeaseLeavesFloor(s, a);
    LeaseEffect(s, a);
  }

  lemma AfterSecondLease(s: Sub, a: Action)
    requires LeasesTwo(a) && s.acked == 0 && s.ackedSet == {} && s.dead == {} && s.policy == Policy(30, 1)
    requires s.leases.Keys == {1, 2} == s.attempts.Keys
    requires s.leases[1].expiresAt == 30 && s.leases[2].expiresAt == 0 && s.attempts[2] == 1
    ensures var t := LeaseStep(s, a);
            t.acked == 0 && t.ackedSet == {} && t.dead == {2}
  {
    SecondLeaseBuries(s, a);
    assert 2 in Elements(Chosen(s, a, true)) && 1 !in Elements(Chosen(s, a, true));
    LeaseLeavesFloor(s, a);
  }

  lemma DeadBehindLeasedRun(a: Action)
    requires LeasesTwo(a)
    ensures var t := Advance(Advance(Begin(Policy(30, 1)), a), Action.Nack(2));
            "s" in Run(DeadBehindLeased(a)) && Run(DeadBehindLeased(a))["s"] == Advance(t, a)
  {
    var rs := DeadBehindLeased(a);
    assert Run(rs[..0]) == map[];
    RunStep(rs, 0);
    RunStep(rs, 1);
    RunStep(rs, 2);
    RunStep(rs, 3);
    assert rs[..4] == rs;
  }

  lemma DeadBehindLeasedState(a: Action)
    requires LeasesTwo(a)
    ensures var w := Run(DeadBehindLeased(a));
            "s" in w && w["s"].sub.acked == 0 && w["s"].sub.ackedSet == {} && w["s"].sub.dead == {2}
  {
    var t1 := Advance(Begin(Policy(30, 1)), a);
    DeadBehindLeasedRun(a);
    AfterFirstLease(FreshSub(Policy(30, 1)), a);
    AfterSecondLease(NackSub(t1.sub, 2), a);
  }

  lemma MarkDependsOnOrder(s: Sub)
    requires Ready(s) && s.acked == 0 && s.ackedSet == {} && s.dead == {2}
    ensures 2 !in Acks(s, [1, 2]).dead && 2 in Acks(s, [2, 1]).dead
  {
    assert s.ackedSet + s.dead + Elements([1]) == {1, 2};
    assert IsRunEnd(0, {1, 2}, 2);
    RunEndUnique(0, {1, 2}, FinalFloor(s, [1]), 2);
    AckedFirstLeavesMark(s, [1], 2);
    AckedLastLeavesNone(s, [1], 2);
    assert [2] + [1] == [2, 1] && [1] + [2] == [1, 2];
  }

  /** In that reachable state acking 1 then 2 clears the dead mark, 2 then 1 leaves it behind. */
  lemma OrderCanBeSeen(a: Action)
    requires LeasesTwo(a)
    ensures "s" in Run(DeadBehindLeased(a))
    ensures var s := Run(DeadBehindLeased(a))["s"].sub;
            2 !in Acks(s, [1, 2]).dead && 2 in Acks(s, [2, 1]).dead
  {
    DeadBehindLeasedState(a);
    ReachableIsReady(DeadBehindLeased(a), "s");
    MarkDependsOnOrder(Run(DeadBehindLeased(a))["s"].sub);
  }
}
