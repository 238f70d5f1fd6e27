/** The owner over whole runs: publishing, pruning, ingest and control in any order, and what the
    subscribers and publishers can rely on. */
module OwnerRuns {
  import opened Base
  import opened Owners
  import S = SubscriptionModel
  import H = SubscriptionHistory
  import L = TopicLogs
  import C = Caches
  import D = Dedup

  /** The owner's state, and what it cannot see: every log operation so far, and for each appended
      message the dedup key it was ingested under (none for the owner's own and concurrent appends). */
  datatype Owner = Owner(
    log: L.LogState,
    subs: H.World,
    dedup: IngestCache,
    tokens: Tokens,
    ops: seq<L.LogOp>,
    origins: seq<Option<string>>)

  datatype Event =
    | Publish(message: L.Message)
    | Prune(upTo: Cursor)
    | IngestFrame(ingest: IngestRequest, now: Time)
    | ControlFrame(token: nat, control: ControlRequest, now: Time)

  const INITIAL: Owner := Owner(
    L.EMPTY,
    map[],
    C.NewCache(DEDUP_CAPACITY, DEDUP_TTL_SECS),
    C.NewCache(DEDUP_CAPACITY, DEDUP_TTL_SECS),
    [],
    [])

  /** One origin for each append among `ops`, all anonymous. */
  function Anonymous(ops: seq<L.LogOp>): seq<Option<string>> {
    if ops == [] then []
    else if ops[|ops| - 1].Append? then Anonymous(ops[..|ops| - 1]) + [None]
    else Anonymous(ops[..|ops| - 1])
  }

  function Extend(o: Owner, more: seq<L.LogOp>, origins: seq<Option<string>>): Owner {
    o.(log := L.ApplyAll(o.log, more), ops := o.ops + more, origins := o.origins + origins)
  }

  function Perform(w: H.World, q: Option<H.Request>): H.World {
    if q.None? then w else H.Step(w, q.value)
  }

  /** The origins an ingest request adds: those of concurrent appends, and its own if it appends. */
  function IngestOrigins(o: Owner, q: IngestRequest, now: Time): seq<Option<string>> {
    if q.Ingest? && C.Lookup(o.dedup, q.Key(), now).None? && q.accepted then
      Anonymous(q.between) + if q.lands then [Some(q.Key())] else []
    else []
  }

  function IngestStep(o: Owner, q: IngestRequest, now: Time): Owner {
    Extend(o.(dedup := DedupAfter(o.log, o.dedup, q, now)),
           IngestOps(o.log, o.dedup, q, now), IngestOrigins(o, q, now))
  }

  /** The state a control request leaves once its proposal, if any, is in. What lands before its reply is
      read is an event of its own. */
  function ControlStep(o: Owner, q: ControlRequest, now: Time): Owner {
    o.(subs := Perform(o.subs, RequestOf(H.Forget(o.subs).Keys, o.log, q, now)))
  }

  function Step(o: Owner, e: Event): Owner {
    match e
    case Publish(m) => Extend(o, [L.Append(m.(cursor := L.High(o.log) + 1))], [None])
    case Prune(upTo) => Extend(o, [L.PruneTo(upTo)], [])
    case IngestFrame(q, now) => IngestStep(o, q, now)
    case ControlFrame(token, q, now) =>
      if C.Lookup(o.tokens, token, now).Some? then o
      else ControlStep(o.(tokens := C.Admit(o.tokens, token, (), now).1), q, now)
  }

  function After(o: Owner, es: seq<Event>): Owner
    decreases |es|
  {
    if es == [] then o else After(Step(o, es[0]), es[1..])
  }

  /** The registry half of a control step is what the owner object proposes. */
  lemma ControlStepIsPropose(o: Owner, q: ControlRequest, now: Time)
    ensures var r := H.Forget(o.subs);
            H.Forget(ControlStep(o, q, now).subs) == Propose(r, RequestOf(r.Keys, o.log, q, now))
  {
    var r := H.Forget(o.subs);
    var request := RequestOf(r.Keys, o.log, q, now);
    if request.Some? {
      H.StepIsProposeAndApply(o.subs, request.value);
    }
  }

  // ----- the invariant -----

  /** A subscription's history speaks only of cursors the log has had, and floors it has reached. */
  ghost predicate WithinLog(h: H.History, l: L.LogState) {
    && h.bridged <= l.floor
    && forall c: Cursor :: c in h.dead || H.Count(h.granted, c) > 0 ==> 1 <= c <= L.High(l)
  }

  ghost predicate SubsInv(w: H.World, l: L.LogState) {
    forall n :: n in w ==> H.Inv(w[n]) && WithinLog(w[n].past, l)
  }

  ghost predicate CachesInv(o: Owner) {
    && C.Valid(o.dedup) && o.dedup.capacity == DEDUP_CAPACITY && o.dedup.ttl == DEDUP_TTL_SECS
    && C.Valid(o.tokens) && o.tokens.capacity == DEDUP_CAPACITY && o.tokens.ttl == DEDUP_TTL_SECS
  }

  ghost predicate LogInv(o: Owner) {
    o.log == L.ApplyAll(L.EMPTY, o.ops)
  }

  ghost predicate Inv(o: Owner) {
    && LogInv(o)
    && |o.origins| == |L.Appended(o.ops)|
    && CachesInv(o)
    && SubsInv(o.subs, o.log)
  }

  lemma {:induction false} AnonymousCount(ops: seq<L.LogOp>, more: seq<L.LogOp>)
    ensures |L.Appended(ops + more)| == |L.Appended(ops)| + |Anonymous(more)|
  {
    if more == [] {
      assert ops + more == ops;
    } else {
      assert (ops + more)[..|ops + more| - 1] == ops + more[..|more| - 1];
      AnonymousCount(ops, more[..|more| - 1]);
    }
  }

  /** Whatever is appended or pruned, the log only moves forward. */
  lemma LogMovesForward(o: Owner, more: seq<L.LogOp>)
    requires LogInv(o)
    ensures L.ApplyAll(o.log, more) == L.ApplyAll(L.EMPTY, o.ops + more)
    ensures o.log.floor <= L.ApplyAll(o.log, more).floor && L.High(o.log) <= L.High(L.ApplyAll(o.log, more))
    ensures L.Appended(o.ops) <= L.Appended(o.ops + more)
  {
    L.ApplyAllAppend(L.EMPTY, o.ops, more);
    L.HistoryGrows(o.ops, more);
    L.LogRefinesHistory(o.ops);
    L.LogRefinesHistory(o.ops + more);
  }

  lemma SubsInvGrows(w: H.World, l: L.LogState, m: L.LogState)
    requires SubsInv(w, l) && l.floor <= m.floor && L.High(l) <= L.High(m)
    ensures SubsInv(w, m)
  {
    forall n | n in w ensures WithinLog(w[n].past, m) {
      assert WithinLog(w[n].past, l);
    }
  }

  lemma ExtendKeepsInv(o: Owner, more: seq<L.LogOp>, origins: seq<Option<string>>)
    requires Inv(o) && |origins| == |Anonymous(more)|
    ensures Inv(Extend(o, more, origins))
  {
    LogMovesForward(o, more);
    SubsInvGrows(o.subs, o.log, L.ApplyAll(o.log, more));
    AnonymousCount(o.ops, more);
  }

  lemma IngestOriginsMatch(o: Owner, q: IngestRequest, now: Time)
    ensures |IngestOrigins(o, q, now)| == |Anonymous(IngestOps(o.log, o.dedup, q, now))|
  {
    var added := IngestOps(o.log, o.dedup, q, now);
    if added != [] && q.lands {
      assert added[..|added| - 1] == q.between;
    } else if added != [] {
      assert added == q.between;
    }
  }

  lemma IngestKeepsInv(o: Owner, q: IngestRequest, now: Time)
    requires Inv(o)
    ensures Inv(IngestStep(o, q, now))
  {
    var after := o.(dedup := DedupAfter(o.log, o.dedup, q, now));
    if q.Ingest? {
      C.AdmitKeepsValid(o.dedup, q.Key(), Outcome(o.log, q), now);
    }
    assert Inv(after);
    IngestOriginsMatch(o, q, now);
    ExtendKeepsInv(after, IngestOps(o.log, o.dedup, q, now), IngestOrigins(o, q, now));
  }

  /** A lease planned against the log bridges, delivers and dead-letters only what the log has had. */
  lemma LeaseStaysWithinLog(t: H.Tracked, a: H.Action, l: L.LogState)
    requires H.Inv(t) && a.Lease? && a.high == L.High(l) && a.floor == l.floor && WithinLog(t.past, l)
    ensures WithinLog(H.Advance(t, a).past, l)
  {
    if H.Commits(t.sub, a) {
      var u := H.Advance(t, a);
      forall c: Cursor | c in u.past.dead || H.Count(u.past.granted, c) > 0 ensures 1 <= c <= L.High(l) {
        H.TallyCounts(t.past.granted, H.Chosen(t.sub, a, false), c);
        if c in H.Chosen(t.sub, a, true) {
          H.ChosenAreFree(t.sub, a, true, c);
        } else if c in H.Chosen(t.sub, a, false) {
          H.ChosenAreFree(t.sub, a, false, c);
        }
      }
    }
  }

  lemma ActionStaysWithinLog(t: H.Tracked, a: H.Action, l: L.LogState)
    requires H.Inv(t) && WithinLog(t.past, l)
    requires a.Lease? ==> a.high == L.High(l) && a.floor == l.floor
    ensures H.Inv(H.Advance(t, a)) && WithinLog(H.Advance(t, a).past, l)
  {
    H.AdvanceKeepsInv(t, a);
    if a.Lease? {
      LeaseStaysWithinLog(t, a, l);
    }
  }

  lemma PerformKeepsSubsInv(w: H.World, l: L.LogState, r: H.Request)
    requires SubsInv(w, l)
    requires r.Act? && r.action.Lease? ==> r.action.high == L.High(l) && r.action.floor == l.floor
    ensures SubsInv(H.Step(w, r), l)
  {
    match r
    case Create(n, p) =>
      if n in w {
        ActionStaysWithinLog(w[n], H.SetPolicy(p), l);
        OneChanges(w, n, H.Advance(w[n], H.SetPolicy(p)), l);
      } else {
        H.BeginInv(p);
        OneChanges(w, n, H.Begin(p), l);
      }
    case Delete(n) =>
    case Act(n, a) =>
      if n in w {
        ActionStaysWithinLog(w[n], a, l);
        OneChanges(w, n, H.Advance(w[n], a), l);
      }
  }

  lemma OneChanges(w: H.World, n: string, t: H.Tracked, l: L.LogState)
    requires SubsInv(w, l) && H.Inv(t) && WithinLog(t.past, l)
    ensures SubsInv(w[n := t], l)
  {
  }

  lemma SubsReplaced(o: Owner, w: H.World)
    requires Inv(o) && SubsInv(w, o.log)
    ensures Inv(o.(subs := w))
  {
  }

  lemma LeasesSeeTheLog(names: set<string>, l: L.LogState, q: ControlRequest, now: Time, r: H.Request)
    requires RequestOf(names, l, q, now) == Some(r)
    ensures r.Act? && r.action.Lease? ==> r.action.high == L.High(l) && r.action.floor == l.floor
  {
  }

  lemma ControlKeepsInv(o: Owner, q: ControlRequest, now: Time)
    requires Inv(o)
    ensures Inv(ControlStep(o, q, now))
  {
    var names := H.Forget(o.subs).Keys;
    var request := RequestOf(names, o.log, q, now);
    if request.Some? {
      LeasesSeeTheLog(names, o.log, q, now, request.value);
      PerformKeepsSubsInv(o.subs, o.log, request.value);
    }
    SubsReplaced(o, Perform(o.subs, request));
  }

  lemma AdmitKeepsInv(o: Owner, token: nat, now: Time)
    requires Inv(o)
    ensures Inv(o.(tokens := C.Admit(o.tokens, token, (), now).1))
  {
    C.AdmitKeepsValid(o.tokens, token, (), now);
  }

  lemma AppendOrPruneKeepsInv(o: Owner, op: L.LogOp)
    requires Inv(o)
    ensures Inv(Extend(o, [op], if op.Append? then [None] else []))
  {
    assert [op][..0] == [] && Anonymous([]) == [];
    ExtendKeepsInv(o, [op], if op.Append? then [None] else []);
  }

  lemma StepKeepsInv(o: Owner, e: Event)
    requires Inv(o)
    ensures Inv(Step(o, e))
  {
    match e
    case Publish(m) => AppendOrPruneKeepsInv(o, L.Append(m.(cursor := L.High(o.log) + 1)));
    case Prune(upTo) => AppendOrPruneKeepsInv(o, L.PruneTo(upTo));
    case IngestFrame(q, now) => IngestKeepsInv(o, q, now);
    case ControlFrame(token, q, now) =>
      if C.Lookup(o.tokens, token, now).None? {
        AdmitKeepsInv(o, token, now);
        ControlKeepsInv(o.(tokens := C.Admit(o.tokens, token, (), now).1), q, now);
      }
  }

  lemma {:induction false} AfterKeepsInv(o: Owner, es: seq<Event>)
    requires Inv(o)
    ensures Inv(After(o, es))
    decreases |es|
  {
    if es != [] {
      StepKeepsInv(o, es[0]);
      AfterKeepsInv(Step(o, es[0]), es[1..]);
    }
  }

  lemma RunInv(es: seq<Event>)
    ensures Inv(After(INITIAL, es))
  {
    AfterKeepsInv(INITIAL, es);
  }

  /** The operations so far are never taken back. */
  lemma {:induction false} OpsGrow(o: Owner, es: seq<Event>)
    ensures o.ops <= After(o, es).ops && o.origins <= After(o, es).origins
    decreases |es|
  {
    if es != [] {
      OpsGrow(Step(o, es[0]), es[1..]);
    }
  }

  lemma HistoryGrowsAfter(o: Owner, es: seq<Event>)
    ensures L.Appended(o.ops) <= L.Appended(After(o, es).ops)
  {
    OpsGrow(o, es);
    var later := After(o, es).ops;
    assert o.ops + later[|o.ops|..] == later;
    L.HistoryGrows(o.ops, later[|o.ops|..]);
  }

  /** The log is its history over any run, whatever else the owner holds. */
  lemma {:induction false} AfterKeepsLog(o: Owner, es: seq<Event>)
    requires LogInv(o)
    ensures LogInv(After(o, es))
    decreases |es|
  {
    if es != [] {
      match es[0] {
        case Publish(m) => LogMovesForward(o, [L.Append(m.(cursor := L.High(o.log) + 1))]);
        case Prune(upTo) => LogMovesForward(o, [L.PruneTo(upTo)]);
        case IngestFrame(q, now) => LogMovesForward(o, IngestOps(o.log, o.dedup, q, now));
        case ControlFrame(_, _, _) =>
      }
      AfterKeepsLog(Step(o, es[0]), es[1..]);
    }
  }

  // ----- no silent loss -----

  /** In every reachable owner, whatever lies at or below a subscription's floor was acknowledged,
      dead-lettered, or is no longer in the log. */
  lemma NoSilentLoss(es: seq<Event>, name: string, c: Cursor)
    requires name in After(INITIAL, es).subs
    requires 1 <= c <= After(INITIAL, es).subs[name].sub.acked
    ensures var o := After(INITIAL, es);
            var h := o.subs[name].past;
            c in h.acked || c in h.dead || c <= o.log.floor
  {
    RunInv(es);
    var t := After(INITIAL, es).subs[name];
    assert H.Inv(t);
    assert H.Handled(t.past, c);
  }

  /** The leased cursors that survive a log's floor, as the messages the history has at those places. */
  function Deliveries(all: seq<L.Message>, floor: Cursor, leased: seq<(Cursor, nat)>): seq<LeasedMessage> {
    if leased == [] then []
    else
      var (c, attempt) := leased[|leased| - 1];
      var front := Deliveries(all, floor, leased[..|leased| - 1]);
      if floor < c <= |all| then front + [LeasedMessage(all[c - 1], attempt)] else front
  }

  lemma {:induction false} ResolveIsDeliveries(ops: seq<L.LogOp>, leased: seq<(Cursor, nat)>)
    ensures var l := L.ApplyAll(L.EMPTY, ops);
            Resolve(l, leased) == Deliveries(L.Appended(ops), l.floor, leased)
  {
    L.LogRefinesHistory(ops);
    if leased != [] {
      ResolveIsDeliveries(ops, leased[..|leased| - 1]);
      L.GetIsTheKthAppended(ops, leased[|leased| - 1].0);
    }
  }

  /** The owner from when a pull's lease is committed until its reply is read, while `es` happen. */
  function MeanwhileOf(o: Owner, token: nat, q: ControlRequest, now: Time, es: seq<Event>): Owner {
    After(Step(o, ControlFrame(token, q, now)), es)
  }

  /** What a pull answers, whatever happens meanwhile: the planned cursors, in order, each with the message
      appended at that position and its attempt number, less those a prune removed meanwhile. */
  lemma PullRepliesWithWhatWasLeased(
      o: Owner, token: nat, q: ControlRequest, now: Time, plan: S.PlannedLease, es: seq<Event>)
    requires LogInv(o) && q.Pull? && q.lands && q.name in o.subs
    requires PlanFor(H.Forget(o.subs), o.log, q.name, now, q.maxMessages) == Some(plan)
    ensures var later := MeanwhileOf(o, token, q, now, es);
            ReplyTo(H.Forget(o.subs), o.log, q, now, later.log)
            == Pulled(Deliveries(L.Appended(later.ops), later.log.floor, plan.outcome.leased))
  {
    AfterKeepsLog(Step(o, ControlFrame(token, q, now)), es);
    var later := MeanwhileOf(o, token, q, now, es);
    ResolveIsDeliveries(later.ops, plan.outcome.leased);
    PullReply(H.Forget(o.subs), o.log, q, now, plan, later.log);
  }

  lemma PullReply(r: S.Registry, l: L.LogState, q: ControlRequest, now: Time, plan: S.PlannedLease, later: L.LogState)
    requires q.Pull? && q.lands && PlanFor(r, l, q.name, now, q.maxMessages) == Some(plan)
    ensures ReplyTo(r, l, q, now, later) == Pulled(Resolve(later, plan.outcome.leased))
  {
  }

  /** Every cursor planned for delivery is above the floor and exists. */
  lemma PlannedAreRetained(
      s: S.Sub, name: string, high: Cursor, floor: Cursor, now: Time, max: nat, plan: S.PlannedLease)
    requires S.PlanSub(s, name, high, floor, now, max) == Some(plan)
    ensures forall i :: 0 <= i < |plan.outcome.leased| ==> floor < plan.outcome.leased[i].0 <= high
  {
    var stop := S.PicksAreTheFirstDeliverables(s, high, floor, now, max);
    var grants := S.Picks(s, high, floor, now, max, false);
    assert plan.outcome.leased == S.Number(s, grants);
    forall i | 0 <= i < |grants| ensures floor < grants[i] <= high {
      assert grants[i] in grants;
    }
  }

  /** The leased messages, one for one, as originally appended. */
  ghost predicate AllOriginal(all: seq<L.Message>, leased: seq<(Cursor, nat)>, messages: seq<LeasedMessage>) {
    && |messages| == |leased|
    && forall i :: 0 <= i < |leased| ==>
         1 <= leased[i].0 <= |all| && messages[i] == LeasedMessage(all[leased[i].0 - 1], leased[i].1)
  }

  function Originals(all: seq<L.Message>, leased: seq<(Cursor, nat)>): (r: seq<LeasedMessage>)
    requires forall i :: 0 <= i < |leased| ==> 1 <= leased[i].0 <= |all|
    ensures AllOriginal(all, leased, r)
  {
    if leased == [] then []
    else
      var (c, attempt) := leased[|leased| - 1];
      Originals(all, leased[..|leased| - 1]) + [LeasedMessage(all[c - 1], attempt)]
  }

  lemma {:induction false} DeliveriesAreOriginals(
      before: seq<L.Message>, all: seq<L.Message>, floor: Cursor, leased: seq<(Cursor, nat)>)
    requires before <= all && forall i :: 0 <= i < |leased| ==> floor < leased[i].0 <= |before|
    ensures Deliveries(all, floor, leased) == Originals(before, leased)
  {
    if leased != [] {
      DeliveriesAreOriginals(before, all, floor, leased[..|leased| - 1]);
      assert all[leased[|leased| - 1].0 - 1] == before[leased[|leased| - 1].0 - 1];
    }
  }

  lemma LeasedExist(ops: seq<L.LogOp>, s: S.Sub, name: string, now: Time, max: nat, plan: S.PlannedLease)
    requires var l := L.ApplyAll(L.EMPTY, ops); S.PlanSub(s, name, L.High(l), l.floor, now, max) == Some(plan)
    ensures forall i :: 0 <= i < |plan.outcome.leased| ==>
              L.ApplyAll(L.EMPTY, ops).floor < plan.outcome.leased[i].0 <= |L.Appended(ops)|
  {
    var l := L.ApplyAll(L.EMPTY, ops);
    L.LogRefinesHistory(ops);
    PlannedAreRetained(s, name, L.High(l), l.floor, now, max, plan);
  }

  lemma LeasedAreDelivered(
      o: Owner, s: S.Sub, name: string, now: Time, max: nat, plan: S.PlannedLease, later: seq<L.Message>)
    requires LogInv(o) && S.PlanSub(s, name, L.High(o.log), o.log.floor, now, max) == Some(plan)
    requires L.Appended(o.ops) <= later
    ensures AllOriginal(L.Appended(o.ops), plan.outcome.leased, Deliveries(later, o.log.floor, plan.outcome.leased))
  {
    LeasedExist(o.ops, s, name, now, max, plan);
    DeliveriesAreOriginals(L.Appended(o.ops), later, o.log.floor, plan.outcome.leased);
  }

  /** When no prune raises the floor meanwhile, every leased message is in the reply, one for one, as it
      was originally appended. */
  lemma NothingLeasedIsLost(o: Owner, token: nat, q: ControlRequest, now: Time, plan: S.PlannedLease, es: seq<Event>)
    requires LogInv(o) && q.Pull? && q.lands && q.name in o.subs
    requires PlanFor(H.Forget(o.subs), o.log, q.name, now, q.maxMessages) == Some(plan)
    requires MeanwhileOf(o, token, q, now, es).log.floor == o.log.floor
    ensures var reply := ReplyTo(H.Forget(o.subs), o.log, q, now, MeanwhileOf(o, token, q, now, es).log);
            reply.Pulled? && AllOriginal(L.Appended(o.ops), plan.outcome.leased, reply.messages)
  {
    HistoryGrowsAfter(Step(o, ControlFrame(token, q, now)), es);
    PullRepliesWithWhatWasLeased(o, token, q, now, plan, es);
    ControlAppendsNothing(o, token, q, now);
    var later := L.Appended(MeanwhileOf(o, token, q, now, es).ops);
    LeasedAreDelivered(o, o.subs[q.name].sub, q.name, now, q.maxMessages, plan, later);
  }

  lemma ControlAppendsNothing(o: Owner, token: nat, q: ControlRequest, now: Time)
    ensures Step(o, ControlFrame(token, q, now)).ops == o.ops
  {
  }

  // ----- the append race -----

  predicate NoAppends(ops: seq<L.LogOp>) {
    forall i :: 0 <= i < |ops| ==> ops[i].PruneTo?
  }

  lemma {:induction false} AnonymousExactlyForAppends(ops: seq<L.LogOp>)
    ensures |Anonymous(ops)| == 0 <==> NoAppends(ops)
  {
    if ops != [] {
      var front := ops[..|ops| - 1];
      AnonymousExactlyForAppends(front);
      assert NoAppends(ops) ==> NoAppends(front);
      assert NoAppends(front) && ops[|ops| - 1].PruneTo? ==> NoAppends(ops);
    }
  }

  /** The cursor is read in one step and the append proposed in another. The cursor handed back is where
      the message is stored exactly when no other append landed in between; prunes do no harm. */
  lemma ReturnedCursorIsStoredExactlyWhen(o: Owner, m: L.Message, between: seq<L.LogOp>)
    requires Inv(o)
    ensures var cursor := L.High(o.log) + 1;
            var all := L.Appended(o.ops + (between + [L.Append(m.(cursor := cursor))]));
            && |all| > 0 && all[|all| - 1] == m.(cursor := |all|)
            && (cursor == |all| <==> NoAppends(between))
  {
    var cursor := L.High(o.log) + 1;
    var added := between + [L.Append(m.(cursor := cursor))];
    assert (o.ops + added)[..|o.ops + added| - 1] == o.ops + between;
    L.LogRefinesHistory(o.ops);
    AnonymousCount(o.ops, between);
    AnonymousExactlyForAppends(between);
  }

  /** On an empty topic, a message that another one overtakes is stored at 2 and reported as 1. */
  lemma ReturnedCursorCanBeAnothers(m: L.Message, other: L.Message)
    ensures var all := L.Appended([L.Append(other), L.Append(m.(cursor := L.High(L.EMPTY) + 1))]);
            L.High(L.EMPTY) + 1 == 1 && all == [other.(cursor := 1), m.(cursor := 2)]
  {
    var first, second := L.Append(other), L.Append(m.(cursor := 1));
    assert [first, second][..1] == [first] && [first][..0] == [];
    assert L.Appended([first]) == [other.(cursor := 1)];
  }

  // ----- ingest is idempotent within the horizon -----

  /** If `seen` is a cursor, it is the last place of a message ingested under key `k`. */
  ghost predicate Names(origins: seq<Option<string>>, k: string, seen: D.Seen) {
    seen.Cursor? ==>
      && 1 <= seen.cursor <= |origins| && origins[seen.cursor - 1] == Some(k)
      && forall p :: seen.cursor <= p < |origins| ==> origins[p] != Some(k)
  }

  /** Every live entry that remembers a cursor names the last message ingested under that very key. */
  ghost predicate Provenance(o: Owner) {
    forall k :: k in o.dedup.entries ==> Names(o.origins, k, o.dedup.entries[k].0)
  }

  /** No other append slips between an ingest's reading of the cursor and its append. */
  ghost predicate Atomic(e: Event) {
    e.IngestFrame? && e.ingest.Ingest? ==> NoAppends(e.ingest.between)
  }

  ghost predicate AllAtomic(es: seq<Event>) {
    forall e :: e in es ==> Atomic(e)
  }

  lemma AdmitEntries(c: IngestCache, k: string, v: D.Seen, now: Time)
    requires C.Valid(c)
    ensures var d := C.Admit(c, k, v, now).1;
            if C.Lookup(c, k, now).Some? then d == c
            else k in d.entries && d.entries[k] == (v, now)
                 && forall x :: x in d.entries && x != k ==> x in c.entries && d.entries[x] == c.entries[x]
  {
    if C.Lookup(c, k, now).None? {
      C.LookupKeepsValid(c, k, now);
      C.EvictsExactlyOne(C.AfterLookup(c, k, now), k, v, now);
    }
  }

  lemma {:induction false} AnonymousIsNone(ops: seq<L.LogOp>)
    ensures forall p :: 0 <= p < |Anonymous(ops)| ==> Anonymous(ops)[p] == None
  {
    if ops != [] {
      AnonymousIsNone(ops[..|ops| - 1]);
    }
  }

  /** Whatever a request adds under a key is its own key's, and comes last. */
  lemma OriginsAreOwn(o: Owner, q: IngestRequest, now: Time, p: nat)
    requires p < |IngestOrigins(o, q, now)|
    ensures var added := IngestOrigins(o, q, now);
            added[p].Some? ==> q.Ingest? && C.Lookup(o.dedup, q.Key(), now).None? && added[p] == Some(q.Key())
                               && q.accepted && q.lands && p == |added| - 1
  {
    AnonymousIsNone(q.between);
  }

  /** What is remembered of a new request names the message it appended, if any. */
  lemma OutcomeIsNamed(o: Owner, q: IngestRequest, now: Time)
    requires LogInv(o) && |o.origins| == |L.Appended(o.ops)| && q.Ingest? && NoAppends(q.between)
    requires C.Lookup(o.dedup, q.Key(), now).None?
    ensures Names(o.origins + IngestOrigins(o, q, now), q.Key(), Outcome(o.log, q))
  {
    AnonymousExactlyForAppends(q.between);
    L.LogRefinesHistory(o.ops);
  }

  lemma IngestKeepsProvenance(o: Owner, q: IngestRequest, now: Time)
    requires LogInv(o) && |o.origins| == |L.Appended(o.ops)| && C.Valid(o.dedup)
    requires Provenance(o) && (q.Ingest? ==> NoAppends(q.between))
    ensures Provenance(IngestStep(o, q, now))
  {
    if q.Ingest? && C.Lookup(o.dedup, q.Key(), now).None? {
      var p := IngestStep(o, q, now);
      AdmitEntries(o.dedup, q.Key(), Outcome(o.log, q), now);
      OutcomeIsNamed(o, q, now);
      forall k | k in p.dedup.entries ensures Names(p.origins, k, p.dedup.entries[k].0) {
        if k != q.Key() {
          assert Names(o.origins, k, o.dedup.entries[k].0);
          forall i | |o.origins| <= i < |p.origins| ensures p.origins[i] != Some(k) {
            OriginsAreOwn(o, q, now, i - |o.origins|);
          }
        }
      }
    }
  }

  lemma StepKeepsProvenance(o: Owner, e: Event)
    requires Inv(o) && Provenance(o) && Atomic(e)
    ensures Provenance(Step(o, e))
  {
    match e
    case Publish(m) => AnonymousKeepsProvenance(o, Step(o, e));
    case Prune(_) => AnonymousKeepsProvenance(o, Step(o, e));
    case IngestFrame(q, now) => IngestKeepsProvenance(o, q, now);
    case ControlFrame(_, _, _) => AnonymousKeepsProvenance(o, Step(o, e));
  }

  lemma AnonymousKeepsProvenance(o: Owner, p: Owner)
    requires Provenance(o) && p.dedup == o.dedup && (p.origins == o.origins || p.origins == o.origins + [None])
    ensures Provenance(p)
  {
    forall k | k in p.dedup.entries ensures Names(p.origins, k, p.dedup.entries[k].0) {
      assert Names(o.origins, k, o.dedup.entries[k].0);
    }
  }

  lemma {:induction false} AfterKeepsProvenance(o: Owner, es: seq<Event>)
    requires Inv(o) && Provenance(o) && AllAtomic(es)
    ensures Provenance(After(o, es))
    decreases |es|
  {
    if es != [] {
      assert es[0] in es;
      StepKeepsInv(o, es[0]);
      StepKeepsProvenance(o, es[0]);
      AfterKeepsProvenance(Step(o, es[0]), es[1..]);
    }
  }

  lemma InitialProvenance()
    ensures Inv(INITIAL) && Provenance(INITIAL)
  {
  }

  lemma RunProvenance(es: seq<Event>)
    requires AllAtomic(es)
    ensures Provenance(After(INITIAL, es))
  {
    InitialProvenance();
    AfterKeepsProvenance(INITIAL, es);
  }

  /** A duplicate within the time to live changes nothing, and is answered with the cursor of the last
      message that key produced, if it produced any. */
  ghost predicate AnsweredFromCache(o: Owner, q: IngestRequest, now: Time)
    requires q.Ingest?
  {
    && IngestStep(o, q, now) == o
    && var reply := IngestReplyTo(o.log, o.dedup, q, now);
       reply.Accepted? ==> Names(o.origins, q.Key(), D.Seen.Cursor(reply.cursor))
  }

  lemma DuplicateIsAnswered(o: Owner, q: IngestRequest, now: Time)
    requires Provenance(o) && q.Ingest? && C.Lookup(o.dedup, q.Key(), now).Some?
    ensures AnsweredFromCache(o, q, now)
  {
    HitChangesNothing(o, q, now);
    assert Names(o.origins, q.Key(), o.dedup.entries[q.Key()].0);
  }

  /** In every run in which ingest requests append atomically. */
  lemma DuplicatesNameTheirOwnMessage(es: seq<Event>, q: IngestRequest, now: Time)
    requires AllAtomic(es)
    requires q.Ingest? && C.Lookup(After(INITIAL, es).dedup, q.Key(), now).Some?
    ensures AnsweredFromCache(After(INITIAL, es), q, now)
  {
    RunProvenance(es);
    DuplicateIsAnswered(After(INITIAL, es), q, now);
  }

  lemma HitChangesNothing(o: Owner, q: IngestRequest, now: Time)
    requires q.Ingest? && C.Lookup(o.dedup, q.Key(), now).Some?
    ensures IngestStep(o, q, now) == o
  {
    assert o.ops + [] == o.ops && o.origins + [] == o.origins;
  }

  // ----- two appends for one key -----

  lemma StepKeepsCaches(o: Owner, e: Event)
    requires CachesInv(o)
    ensures CachesInv(Step(o, e))
  {
    if e.IngestFrame? && e.ingest.Ingest? {
      C.AdmitKeepsValid(o.dedup, e.ingest.Key(), Outcome(o.log, e.ingest), e.now);
    } else if e.ControlFrame? {
      C.AdmitKeepsValid(o.tokens, e.token, (), e.now);
    }
  }

  lemma {:induction false} AfterKeepsCaches(o: Owner, es: seq<Event>)
    requires CachesInv(o)
    ensures CachesInv(After(o, es))
    decreases |es|
  {
    if es != [] {
      StepKeepsCaches(o, es[0]);
      AfterKeepsCaches(Step(o, es[0]), es[1..]);
    }
  }

  /** Event `e` finds the entry of key `k` too old. */
  ghost predicate Lapses(o: Owner, e: Event, k: string) {
    && e.IngestFrame? && e.ingest.Ingest? && e.ingest.Key() == k
    && C.Expired(o.dedup, k, e.now)
  }

  /** Event `e` ingests another key that misses the full cache while `k` is the first live key queued. */
  ghost predicate Evicts(o: Owner, e: Event, k: string) {
    && e.IngestFrame? && e.ingest.Ingest? && e.ingest.Key() != k
    && C.Lookup(o.dedup, e.ingest.Key(), e.now).None?
    && var c := C.AfterLookup(o.dedup, e.ingest.Key(), e.now);
       var p := C.FirstLive(c.entries, c.order);
       |c.entries| == DEDUP_CAPACITY && p < |c.order| && c.order[p] == k
  }

  /** An entry that is neither found too old nor evicted stays as it is, and nothing is appended under
      its key. */
  lemma KeptUnlessLost(o: Owner, e: Event, k: string)
    requires CachesInv(o) && k in o.dedup.entries && !Lapses(o, e, k) && !Evicts(o, e, k)
    ensures k in Step(o, e).dedup.entries && Step(o, e).dedup.entries[k] == o.dedup.entries[k]
    ensures forall p :: |o.origins| <= p < |Step(o, e).origins| ==> Step(o, e).origins[p] != Some(k)
  {
    if e.IngestFrame? && e.ingest.Ingest? {
      var q, now := e.ingest, e.now;
      forall p | |o.origins| <= p < |Step(o, e).origins| ensures Step(o, e).origins[p] != Some(k) {
        OriginsAreOwn(o, q, now, p - |o.origins|);
      }
      if C.Lookup(o.dedup, q.Key(), now).None? {
        C.LookupKeepsValid(o.dedup, q.Key(), now);
        C.EvictsExactlyOne(C.AfterLookup(o.dedup, q.Key(), now), q.Key(), Outcome(o.log, q), now);
      }
    }
  }

  lemma AfterOneMore(o: Owner, es: seq<Event>, i: nat)
    requires i < |es|
    ensures After(o, es[..i + 1]) == After(Step(o, es[0]), es[1..][..i])
  {
    assert es[..i + 1][0] == es[0] && es[..i + 1][1..] == es[1..][..i];
  }

  /** An event that adds a message under key `k` ingests it, and leaves a fresh entry in the cache. */
  lemma AppendUnderKey(o: Owner, e: Event, p: nat, k: string)
    requires CachesInv(o) && |o.origins| <= p < |Step(o, e).origins| && Step(o, e).origins[p] == Some(k)
    ensures e.IngestFrame? && e.ingest.Ingest? && e.ingest.Key() == k && p == |Step(o, e).origins| - 1
    ensures var after := Step(o, e).dedup;
            k in after.entries && after.entries[k] == (D.Seen.Cursor(L.High(o.log) + 1), e.now)
  {
    assert e.IngestFrame?;
    var q := e.ingest;
    OriginsAreOwn(o, q, e.now, p - |o.origins|);
    AdmitEntries(o.dedup, k, Outcome(o.log, q), e.now);
  }

  /** The event that appended the message at position `p`, and what it left in the cache. */
  lemma {:induction false} FindAppend(o: Owner, es: seq<Event>, p: nat, k: string) returns (i: nat)
    requires CachesInv(o) && |o.origins| <= p < |After(o, es).origins| && After(o, es).origins[p] == Some(k)
    ensures i < |es| && es[i].IngestFrame? && es[i].ingest.Ingest? && es[i].ingest.Key() == k
    ensures var at, done := After(o, es[..i]), After(o, es[..i + 1]);
            && |at.origins| <= p == |done.origins| - 1
            && k in done.dedup.entries
            && done.dedup.entries[k] == (D.Seen.Cursor(L.High(at.log) + 1), es[i].now)
    decreases |es|
  {
    var o1 := Step(o, es[0]);
    OpsGrow(o1, es[1..]);
    AfterOneMore(o, es, 0);
    if p < |o1.origins| {
      i := 0;
      AppendUnderKey(o, es[0], p, k);
    } else {
      StepKeepsCaches(o, es[0]);
      var j := FindAppend(o1, es[1..], p, k);
      i := j + 1;
      AfterOneMore(o, es, j);
      AfterOneMore(o, es, j + 1);
    }
  }

  /** If a message is appended under a key that is in the cache, the entry is lost first. */
  lemma {:induction false} FindLoss(o: Owner, es: seq<Event>, p: nat, k: string) returns (m: nat)
    requires CachesInv(o) && k in o.dedup.entries
    requires |o.origins| <= p < |After(o, es).origins| && After(o, es).origins[p] == Some(k)
    ensures m < |es|
    ensures var at := After(o, es[..m]);
            && |at.origins| <= p
            && k in at.dedup.entries && at.dedup.entries[k] == o.dedup.entries[k]
            && (Lapses(at, es[m], k) || Evicts(at, es[m], k))
    decreases |es|
  {
    if Lapses(o, es[0], k) || Evicts(o, es[0], k) {
      m := 0;
    } else {
      var o1 := Step(o, es[0]);
      KeptUnlessLost(o, es[0], k);
      OpsGrow(o1, es[1..]);
      StepKeepsCaches(o, es[0]);
      var j := FindLoss(o1, es[1..], p, k);
      m := j + 1;
      AfterOneMore(o, es, j);
    }
  }

  lemma {:induction false} AfterSplit(o: Owner, es: seq<Event>, i: nat)
    requires i <= |es|
    ensures After(o, es) == After(After(o, es[..i]), es[i..])
    decreases |es|
  {
    if i > 0 {
      AfterSplit(Step(o, es[0]), es[1..], i - 1);
      AfterOneMore(o, es, i - 1);
      assert es[1..][i - 1..] == es[i..];
    } else {
      assert es[..0] == [] && es[0..] == es;
    }
  }

  lemma LossAfter(o: Owner, es: seq<Event>, n: nat, q: nat, k: string) returns (m: nat)
    requires CachesInv(o) && n <= |es|
    requires k in After(o, es[..n]).dedup.entries
    requires |After(o, es[..n]).origins| <= q < |After(o, es).origins| && After(o, es).origins[q] == Some(k)
    ensures n <= m < |es|
    ensures var done, at := After(o, es[..n]), After(o, es[..m]);
            && |done.origins| <= |at.origins| <= q
            && k in at.dedup.entries && at.dedup.entries[k] == done.dedup.entries[k]
            && (Lapses(at, es[m], k) || Evicts(at, es[m], k))
  {
    var done := After(o, es[..n]);
    AfterKeepsCaches(o, es[..n]);
    AfterSplit(o, es, n);
    var j := FindLoss(done, es[n..], q, k);
    m := n + j;
    assert es[..m][..n] == es[..n] && es[..m][n..] == es[n..][..j];
    AfterSplit(o, es[..m], n);
    OpsGrow(done, es[n..][..j]);
  }

  /** In no run are two messages appended under one key unless its entry was lost in between: the first
      append, at event `i`, left an entry, and some event `m` after it, no later than the second append,
      found that very entry older than the time to live, or evicted it. The run may start anywhere. */
  lemma TwoAppendsNeedALoss(o: Owner, es: seq<Event>, p: nat, q: nat, k: string) returns (i: nat, m: nat)
    requires CachesInv(o) && |o.origins| <= p < q < |After(o, es).origins|
    requires After(o, es).origins[p] == Some(k) == After(o, es).origins[q]
    ensures i < m < |es| && es[i].IngestFrame? && es[i].ingest.Ingest? && es[i].ingest.Key() == k
    ensures |After(o, es[..i]).origins| <= p < |After(o, es[..i + 1]).origins|
    ensures var at := After(o, es[..m]);
            && p < |at.origins| <= q
            && k in at.dedup.entries && at.dedup.entries[k].1 == es[i].now
            && (Lapses(at, es[m], k) || Evicts(at, es[m], k))
  {
    i := FindAppend(o, es, p, k);
    m := LossAfter(o, es, i + 1, q, k);
  }

  lemma InitialCaches()
    ensures CachesInv(INITIAL) && INITIAL.origins == []
  {
  }

  // ----- retries within the horizon -----

  /** 1 for an ingest request that is not answered from the cache. */
  function Missed(o: Owner, e: Event): nat {
    if e.IngestFrame? && e.ingest.Ingest? && C.Lookup(o.dedup, e.ingest.Key(), e.now).None? then 1 else 0
  }

  /** How many ingest requests of the run are not answered from the cache. */
  function Misses(o: Owner, es: seq<Event>): nat
    decreases |es|
  {
    if es == [] then 0 else Missed(o, es[0]) + Misses(Step(o, es[0]), es[1..])
  }

  /** If this is a retry of `key`, it comes within the time to live counted from `at`. */
  ghost predicate RetryInTime(e: Event, key: string, at: Time) {
    e.IngestFrame? && e.ingest.Ingest? && e.ingest.Key() == key ==> SaturatingSub(e.now, at) <= DEDUP_TTL_SECS
  }

  ghost predicate RetriesInTime(es: seq<Event>, key: string, at: Time) {
    forall e :: e in es ==> RetryInTime(e, key, at)
  }

  lemma StepSparesKey(o: Owner, e: Event, key: string, behind: nat)
    requires CachesInv(o) && C.Holds(o.dedup, key, behind) && behind + Missed(o, e) < DEDUP_CAPACITY
    requires RetryInTime(e, key, o.dedup.entries[key].1)
    ensures C.Holds(Step(o, e).dedup, key, behind + Missed(o, e))
    ensures Step(o, e).dedup.entries[key] == o.dedup.entries[key]
  {
    if Missed(o, e) == 1 {
      C.AdmitSpares(o.dedup, key, behind, e.ingest.Key(), Outcome(o.log, e.ingest), e.now);
    }
  }

  lemma {:induction false} KeyStaysKnown(o: Owner, es: seq<Event>, key: string, behind: nat)
    requires CachesInv(o) && C.Holds(o.dedup, key, behind) && behind + Misses(o, es) < DEDUP_CAPACITY
    requires RetriesInTime(es, key, o.dedup.entries[key].1)
    ensures key in After(o, es).dedup.entries && After(o, es).dedup.entries[key] == o.dedup.entries[key]
    decreases |es|
  {
    if es != [] {
      assert es[0] in es;
      StepKeepsCaches(o, es[0]);
      StepSparesKey(o, es[0], key, behind);
      KeyStaysKnown(Step(o, es[0]), es[1..], key, behind + Missed(o, es[0]));
    }
  }

  lemma MissIsRemembered(o: Owner, q: IngestRequest, at: Time)
    requires CachesInv(o) && q.Ingest? && C.Lookup(o.dedup, q.Key(), at).None?
    ensures var o1 := IngestStep(o, q, at);
            && CachesInv(o1) && q.Key() in o1.dedup.entries && q.Key() in o1.dedup.order
            && C.Holds(o1.dedup, q.Key(), C.Behind(o1.dedup.order, q.Key()))
            && o1.dedup.entries[q.Key()] == (Outcome(o.log, q), at)
            && IngestReplyTo(o.log, o.dedup, q, at) == ReplyFor(Outcome(o.log, q))
  {
    var k, v := q.Key(), Outcome(o.log, q);
    AdmitEntries(o.dedup, k, v, at);
    C.AdmitKeepsValid(o.dedup, k, v, at);
    var d := IngestStep(o, q, at).dedup;
    assert d == C.Admit(o.dedup, k, v, at).1;
    C.LiveKeyHolds(d, k);
  }

  lemma KnownKeyIsAnswered(o: Owner, q: IngestRequest, seen: D.Seen, at: Time, now: Time)
    requires CachesInv(o) && q.Ingest? && q.Key() in o.dedup.entries && o.dedup.entries[q.Key()] == (seen, at)
    requires SaturatingSub(now, at) <= DEDUP_TTL_SECS
    ensures IngestReplyTo(o.log, o.dedup, q, now) == ReplyFor(seen) && IngestStep(o, q, now) == o
  {
    HitChangesNothing(o, q, now);
  }

  /** Ingest appends once per horizon. After a request that misses the cache, let anything happen in which
      the key's retries come within the time to live and fewer other requests miss the cache than leave
      room: 16384 less the places queued behind the key's first one (none for a key queued once). A
      further retry in time, whatever it carries, is answered as the first was, and nothing changes. */
  lemma IngestAppendsOncePerHorizon(
      o: Owner, q: IngestRequest, at: Time, es: seq<Event>, retry: IngestRequest, now: Time)
    requires CachesInv(o) && q.Ingest? && C.Lookup(o.dedup, q.Key(), at).None?
    requires retry.Ingest? && retry.Key() == q.Key() && SaturatingSub(now, at) <= DEDUP_TTL_SECS
    requires var o1 := IngestStep(o, q, at);
             && RetriesInTime(es, q.Key(), at)
             && C.Behind(o1.dedup.order, q.Key()) + Misses(o1, es) < DEDUP_CAPACITY
    ensures var first := IngestReplyTo(o.log, o.dedup, q, at);
            var later := After(IngestStep(o, q, at), es);
            && first == (if q.accepted && q.lands then Accepted(L.High(o.log) + 1) else IngestRejected)
            && IngestReplyTo(later.log, later.dedup, retry, now) == first
            && IngestStep(later, retry, now) == later
  {
    var o1 := IngestStep(o, q, at);
    MissIsRemembered(o, q, at);
    KeyStaysKnown(o1, es, q.Key(), C.Behind(o1.dedup.order, q.Key()));
    AfterKeepsCaches(o1, es);
    KnownKeyIsAnswered(After(o1, es), retry, Outcome(o.log, q), at, now);
  }

  /** A key that is not queued any more, or never was, starts with nothing behind it. */
  lemma NewKeyHasNoneBehind(o: Owner, q: IngestRequest, at: Time)
    requires CachesInv(o) && q.Ingest? && q.Key() !in o.dedup.order
    ensures C.Lookup(o.dedup, q.Key(), at).None?
    ensures var order := IngestStep(o, q, at).dedup.order;
            q.Key() in order && C.Behind(order, q.Key()) == 0
  {
    var k := q.Key();
    assert k !in o.dedup.entries;
    C.FirstInsertHolds(o.dedup, k, Outcome(o.log, q), at);
    var c := IngestStep(o, q, at).dedup;
    assert c == C.FreshInsert(o.dedup, k, Outcome(o.log, q), at);
    C.BehindIsUnique(c.order, k, 0);
  }

  // ----- a control frame is handled once -----

  /** 1 for a control frame whose token is not answered from the token set. */
  function NewToken(o: Owner, e: Event): nat {
    if e.ControlFrame? && C.Lookup(o.tokens, e.token, e.now).None? then 1 else 0
  }

  /** How many control frames of the run carry a token not answered from the token set. */
  function NewTokens(o: Owner, es: seq<Event>): nat
    decreases |es|
  {
    if es == [] then 0 else NewToken(o, es[0]) + NewTokens(Step(o, es[0]), es[1..])
  }

  /** If this frame carries `token`, it comes within the time to live counted from `at`. */
  ghost predicate FrameInTime(e: Event, token: nat, at: Time) {
    e.ControlFrame? && e.token == token ==> SaturatingSub(e.now, at) <= DEDUP_TTL_SECS
  }

  ghost predicate RedeliveredInTime(es: seq<Event>, token: nat, at: Time) {
    forall e :: e in es ==> FrameInTime(e, token, at)
  }

  lemma StepSparesToken(o: Owner, e: Event, token: nat, behind: nat)
    requires CachesInv(o) && C.Holds(o.tokens, token, behind) && behind + NewToken(o, e) < DEDUP_CAPACITY
    requires FrameInTime(e, token, o.tokens.entries[token].1)
    ensures C.Holds(Step(o, e).tokens, token, behind + NewToken(o, e))
    ensures Step(o, e).tokens.entries[token] == o.tokens.entries[token]
  {
    if NewToken(o, e) == 1 {
      C.AdmitSpares(o.tokens, token, behind, e.token, (), e.now);
      assert Step(o, e).tokens == C.Admit(o.tokens, e.token, (), e.now).1;
    }
  }

  lemma {:induction false} TokenStaysKnown(o: Owner, es: seq<Event>, token: nat, behind: nat)
    requires CachesInv(o) && C.Holds(o.tokens, token, behind) && behind + NewTokens(o, es) < DEDUP_CAPACITY
    requires RedeliveredInTime(es, token, o.tokens.entries[token].1)
    ensures token in After(o, es).tokens.entries && After(o, es).tokens.entries[token] == o.tokens.entries[token]
    decreases |es|
  {
    if es != [] {
      assert es[0] in es;
      StepKeepsCaches(o, es[0]);
      StepSparesToken(o, es[0], token, behind);
      TokenStaysKnown(Step(o, es[0]), es[1..], token, behind + NewToken(o, es[0]));
    }
  }

  lemma NewFrameIsRemembered(o: Owner, token: nat, q: ControlRequest, at: Time)
    requires CachesInv(o) && C.Lookup(o.tokens, token, at).None?
    ensures var o1 := Step(o, ControlFrame(token, q, at));
            && CachesInv(o1) && token in o1.tokens.order
            && C.Holds(o1.tokens, token, C.Behind(o1.tokens.order, token))
            && o1.tokens.entries[token] == ((), at)
  {
    StepKeepsCaches(o, ControlFrame(token, q, at));
    assert Step(o, ControlFrame(token, q, at)).tokens == C.Admit(o.tokens, token, (), at).1;
    C.LiveKeyHolds(Step(o, ControlFrame(token, q, at)).tokens, token);
  }

  lemma KnownTokenIsDropped(o: Owner, token: nat, q: ControlRequest, at: Time, now: Time)
    requires CachesInv(o) && token in o.tokens.entries && o.tokens.entries[token] == ((), at)
    requires SaturatingSub(now, at) <= DEDUP_TTL_SECS
    ensures Step(o, ControlFrame(token, q, now)) == o
  {
  }

  /** A re-delivered control frame, a lease above all, is dropped: it changes nothing, as long as it comes
      within the time to live and fewer new tokens came in between than leave room behind its own. */
  lemma ControlFrameHandledOnce(
      o: Owner, token: nat, q: ControlRequest, at: Time, es: seq<Event>, again: ControlRequest, now: Time)
    requires CachesInv(o) && C.Lookup(o.tokens, token, at).None? && SaturatingSub(now, at) <= DEDUP_TTL_SECS
    requires RedeliveredInTime(es, token, at)
    requires var o1 := Step(o, ControlFrame(token, q, at));
             && C.Behind(o1.tokens.order, token) + NewTokens(o1, es) < DEDUP_CAPACITY
    ensures var later := After(Step(o, ControlFrame(token, q, at)), es);
            Step(later, ControlFrame(token, again, now)) == later
  {
    var o1 := Step(o, ControlFrame(token, q, at));
    NewFrameIsRemembered(o, token, q, at);
    TokenStaysKnown(o1, es, token, C.Behind(o1.tokens.order, token));
    AfterKeepsCaches(o1, es);
    KnownTokenIsDropped(After(o1, es), token, again, at, now);
  }

  // ----- the floor and the high-water mark -----

  /** Every acknowledgement so far named a cursor that existed when it came. */
  ghost predicate AcksExist(o: Owner) {
    forall n, c :: n in o.subs && c in o.subs[n].past.acked ==> c <= L.High(o.log)
  }

  /** If this frame is an acknowledgement, it names an existing cursor. */
  ghost predicate AcksExisting(o: Owner, e: Event) {
    e.ControlFrame? && e.control.AckMessage? ==> e.control.cursor <= L.High(o.log)
  }

  ghost predicate AllAckExisting(o: Owner, es: seq<Event>)
    decreases |es|
  {
    es == [] || (AcksExisting(o, es[0]) && AllAckExisting(Step(o, es[0]), es[1..]))
  }

  lemma PerformAcks(w: H.World, r: H.Request, n: string, c: Cursor)
    requires n in H.Step(w, r) && c in H.Step(w, r)[n].past.acked
    ensures (n in w && c in w[n].past.acked) || r == H.Act(n, H.Action.Ack(c))
  {
  }

  lemma ControlKeepsAcksExist(o: Owner, q: ControlRequest, now: Time)
    requires LogInv(o) && AcksExist(o) && (q.AckMessage? ==> q.cursor <= L.High(o.log))
    ensures AcksExist(ControlStep(o, q, now))
  {
    var r := H.Forget(o.subs);
    var request := RequestOf(r.Keys, o.log, q, now);
    var w := Perform(o.subs, request);
    forall n, c | n in w && c in w[n].past.acked ensures c <= L.High(o.log) {
      if request.Some? {
        PerformAcks(o.subs, request.value, n, c);
      }
    }
  }

  lemma StepKeepsAcksExist(o: Owner, e: Event)
    requires LogInv(o) && AcksExist(o) && AcksExisting(o, e)
    ensures AcksExist(Step(o, e))
  {
    match e
    case Publish(m) => LogMovesForward(o, [L.Append(m.(cursor := L.High(o.log) + 1))]);
    case Prune(upTo) => LogMovesForward(o, [L.PruneTo(upTo)]);
    case IngestFrame(q, now) => LogMovesForward(o, IngestOps(o.log, o.dedup, q, now));
    case ControlFrame(token, q, now) =>
      if C.Lookup(o.tokens, token, now).None? {
        ControlKeepsAcksExist(o.(tokens := C.Admit(o.tokens, token, (), now).1), q, now);
      }
  }

  lemma {:induction false} AfterKeepsAcksExist(o: Owner, es: seq<Event>)
    requires Inv(o) && AcksExist(o) && AllAckExisting(o, es)
    ensures AcksExist(After(o, es))
    decreases |es|
  {
    if es != [] {
      StepKeepsInv(o, es[0]);
      StepKeepsAcksExist(o, es[0]);
      AfterKeepsAcksExist(Step(o, es[0]), es[1..]);
    }
  }

  /** The cursor after the last was acknowledged, and none before it is outstanding. */
  ghost predicate AckedAhead(h: H.History, high: Cursor) {
    && high + 1 in h.acked
    && forall c: Cursor :: 1 <= c <= high ==> c in h.acked || c in h.dead || c <= h.bridged
  }

  lemma FloorAboveHighExactlyWhen(t: H.Tracked, l: L.LogState)
    requires H.FloorInv(t) && WithinLog(t.past, l) && l.floor <= L.High(l)
    ensures t.sub.acked > L.High(l) <==> AckedAhead(t.past, L.High(l))
  {
    var high := L.High(l);
    assert !H.Handled(t.past, t.sub.acked + 1);
    if t.sub.acked > high {
      assert H.Handled(t.past, high + 1);
      forall c: Cursor | 1 <= c <= high ensures c in t.past.acked || c in t.past.dead || c <= t.past.bridged {
        assert H.Handled(t.past, c);
      }
    }
  }

  /** Over every run: a floor is past the high-water mark exactly when the next cursor to be published is
      among those ever acknowledged and everything published is acknowledged, dead-lettered or bridged. */
  lemma FloorPassesHighExactlyWhen(es: seq<Event>, name: string)
    requires name in After(INITIAL, es).subs
    ensures var o := After(INITIAL, es);
            o.subs[name].sub.acked > L.High(o.log) <==> AckedAhead(o.subs[name].past, L.High(o.log))
  {
    RunInv(es);
    FloorAboveHighExactlyWhen(After(INITIAL, es).subs[name], After(INITIAL, es).log);
  }

  lemma NewFrameIsHandled(o: Owner, token: nat, q: ControlRequest, now: Time)
    requires token !in o.tokens.entries
    ensures var o1 := Step(o, ControlFrame(token, q, now));
            && o1.log == o.log
            && o1.subs == Perform(o.subs, RequestOf(H.Forget(o.subs).Keys, o.log, q, now))
            && o1.tokens.entries.Keys <= o.tokens.entries.Keys + {token}
  {
  }

  lemma NewFrameCreates(o: Owner, token: nat, name: string, p: S.Policy, now: Time)
    requires token !in o.tokens.entries && ValidPolicy(p) && o.subs == map[]
    ensures var o1 := Step(o, ControlFrame(token, CreateSubscription(name, p, true, true), now));
            && o1.log == o.log && o1.subs == map[name := H.Begin(p)]
            && o1.tokens.entries.Keys <= o.tokens.entries.Keys + {token}
  {
    NewFrameIsHandled(o, token, CreateSubscription(name, p, true, true), now);
    assert H.Forget(o.subs).Keys == {};
  }

  lemma NewFrameAcks(o: Owner, token: nat, name: string, c: Cursor, now: Time)
    requires token !in o.tokens.entries && name in o.subs
    ensures var o1 := Step(o, ControlFrame(token, AckMessage(name, c, true), now));
            && o1.log == o.log
            && name in o1.subs && o1.subs[name].sub == S.AckSub(o.subs[name].sub, c)
            && o1.tokens.entries.Keys <= o.tokens.entries.Keys + {token}
  {
    NewFrameIsHandled(o, token, AckMessage(name, c, true), now);
  }

  lemma AckOfFresh(p: S.Policy)
    ensures var t := S.AckSub(S.FreshSub(p), 2);
            && t.acked == 0 && t.dead == {} && t.ackedSet == {2}
            && S.AckSub(t, 1).acked == 2
  {
    var t := S.AckSub(S.FreshSub(p), 2);
    S.RunEndUnique(0, {2} + {}, t.acked, 0);
    var u := S.AckSub(t, 1);
    assert S.IsRunEnd(0, {1, 2}, 2);
    assert t.ackedSet + {1} + t.dead == {1, 2};
    S.RunEndUnique(0, {1, 2}, u.acked, 2);
  }

  /** One message published, 2 acknowledged ahead of time, then 1: the floor is at 2, the high mark at 1,
      although the ack that moved it named an existing cursor. */
  function AckAheadEvents(p: S.Policy, m: L.Message): seq<Event> {
    [ControlFrame(1, CreateSubscription("s", p, true, true), 0),
     ControlFrame(2, AckMessage("s", 2, true), 0),
     Publish(m),
     ControlFrame(3, AckMessage("s", 1, true), 0)]
  }

  lemma AfterFour(o: Owner, a: Event, b: Event, c: Event, d: Event)
    ensures After(o, [a, b, c, d]) == Step(Step(Step(Step(o, a), b), c), d)
  {
    var es := [a, b, c, d];
    assert es[1..] == [b, c, d] && [b, c, d][1..] == [c, d] && [c, d][1..] == [d] && [d][1..] == [];
    assert After(Step(Step(Step(o, a), b), c), [d]) == After(Step(Step(Step(Step(o, a), b), c), d), []);
    assert After(Step(Step(o, a), b), [c, d]) == After(Step(Step(Step(o, a), b), c), [d]);
    assert After(Step(o, a), [b, c, d]) == After(Step(Step(o, a), b), [c, d]);
  }

  lemma FloorCanPassHigh(p: S.Policy, m: L.Message)
    requires ValidPolicy(p)
    ensures var o := After(INITIAL, AckAheadEvents(p, m));
            "s" in o.subs && o.subs["s"].sub.acked == 2 && L.High(o.log) == 1
  {
    var es := AckAheadEvents(p, m);
    AfterFour(INITIAL, es[0], es[1], es[2], es[3]);
    var o1 := Step(INITIAL, es[0]);
    var o2 := Step(o1, es[1]);
    var o3 := Step(o2, es[2]);
    NewFrameCreates(INITIAL, 1, "s", p, 0);
    NewFrameAcks(o1, 2, "s", 2, 0);
    OneMessage(o2, m);
    NewFrameAcks(o3, 3, "s", 1, 0);
    AckOfFresh(p);
  }

  lemma OneMessage(o: Owner, m: L.Message)
    requires o.log == L.EMPTY
    ensures var o1 := Step(o, Publish(m)); L.High(o1.log) == 1 && o1.subs == o.subs && o1.tokens == o.tokens
  {
    var op := L.Append(m.(cursor := 1));
    assert [op][..0] == [];
    assert L.ApplyAll(L.EMPTY, [op]) == L.ApplyOp(L.EMPTY, op);
  }

  /** In particular, never in a run whose acks name existing cursors. */
  lemma FloorStaysWithinLog(es: seq<Event>, name: string)
    requires AllAckExisting(INITIAL, es) && name in After(INITIAL, es).subs
    ensures After(INITIAL, es).subs[name].sub.acked <= L.High(After(INITIAL, es).log)
  {
    AfterKeepsAcksExist(INITIAL, es);
    FloorPassesHighExactlyWhen(es, name);
  }

  // ----- the subscription limit -----

  lemma PerformBoundsNames(w: H.World, l: L.LogState, q: ControlRequest, now: Time)
    requires |w| <= MAX_SUBSCRIPTIONS
    ensures |Perform(w, RequestOf(H.Forget(w).Keys, l, q, now))| <= MAX_SUBSCRIPTIONS
  {
    var names := H.Forget(w).Keys;
    assert names == w.Keys;
    var v := Perform(w, RequestOf(names, l, q, now));
    if q.CreateSubscription? {
      assert v.Keys == w.Keys || (v.Keys == w.Keys + {q.name} && |w.Keys| < MAX_SUBSCRIPTIONS);
    } else if q.DeleteSubscription? {
      assert v.Keys == w.Keys || v.Keys == w.Keys - {q.name};
    } else {
      assert v.Keys == w.Keys;
    }
    assert |v| == |v.Keys| && |w| == |w.Keys|;
  }

  /** No run ever holds more than 10000 subscriptions. */
  lemma {:induction false} SubscriptionsAreBounded(o: Owner, es: seq<Event>)
    requires |o.subs| <= MAX_SUBSCRIPTIONS
    ensures |After(o, es).subs| <= MAX_SUBSCRIPTIONS
    decreases |es|
  {
    if es != [] {
      if es[0].ControlFrame? {
        PerformBoundsNames(o.subs, o.log, es[0].control, es[0].now);
      }
      SubscriptionsAreBounded(Step(o, es[0]), es[1..]);
    }
  }
}
