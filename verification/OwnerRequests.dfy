/** What each request does, as the one who sent it sees it: its reply, what it changes, and that it
    changes nothing else. Stated on the owner's histories, not on the steps that handle the request. */
module OwnerRequests {
  import opened Base
  import opened Owners
  import opened OwnerRuns
  import S = SubscriptionModel
  import H = SubscriptionHistory
  import A = AckConfluence
  import L = TopicLogs
  import C = Caches
  import D = Dedup

  // ----- publishing -----

  /** The owner's own publish stores the message as it is, under the next cursor. */
  lemma PublishIsStored(o: Owner, m: L.Message)
    requires LogInv(o)
    ensures var p := Step(o, Publish(m));
            var all := L.Appended(o.ops);
            && L.Appended(p.ops) == all + [m.(cursor := |all| + 1)] && p.log.floor == o.log.floor
            && LogInv(p) && p == o.(log := p.log, ops := p.ops, origins := p.origins)
  {
    var op := L.Append(m.(cursor := L.High(o.log) + 1));
    LogMovesForward(o, [op]);
    assert (o.ops + [op])[..|o.ops|] == o.ops;
    L.LogRefinesHistory(o.ops);
    L.LogRefinesHistory(o.ops + [op]);
  }

  /** A prune forgets no message and raises the floor as far as there are messages. */
  lemma PruneRaisesFloor(o: Owner, upTo: Cursor)
    requires LogInv(o)
    ensures var p := Step(o, Prune(upTo));
            && L.Appended(p.ops) == L.Appended(o.ops)
            && p.log.floor == Max(o.log.floor, Min(upTo, |L.Appended(o.ops)|))
            && LogInv(p) && p == o.(log := p.log, ops := p.ops)
  {
    var op := L.PruneTo(upTo);
    LogMovesForward(o, [op]);
    assert (o.ops + [op])[..|o.ops|] == o.ops;
    L.LogRefinesHistory(o.ops);
    L.LogRefinesHistory(o.ops + [op]);
    assert o.origins + [] == o.origins;
  }

  /** Nothing but the ingest cache differs. */
  predicate OnlyCache(o: Owner, p: Owner) {
    p == o.(dedup := p.dedup)
  }

  /** A new, accepted request whose append lands: its own message is stored last, whatever came in between,
      and the reply names the cursor it is stored at if nothing was appended in between. */
  lemma AcceptedIsStored(o: Owner, q: IngestRequest, now: Time)
    requires LogInv(o) && q.Ingest? && C.Lookup(o.dedup, q.Key(), now).None? && q.accepted && q.lands
    ensures var p := IngestStep(o, q, now);
            var before, all := L.Appended(o.ops + q.between), L.Appended(p.ops);
            && all == before + [q.body.(cursor := |before| + 1)]
            && p.origins == o.origins + (Anonymous(q.between) + [Some(q.Key())])
            && IngestReplyTo(o.log, o.dedup, q, now) == Accepted(|L.Appended(o.ops)| + 1)
            && (NoAppends(q.between) ==> IngestReplyTo(o.log, o.dedup, q, now) == Accepted(|all|))
            && p.subs == o.subs && p.tokens == o.tokens
  {
    NewRequest(o, q, now);
    OwnAppendComesLast(o.ops, q.between, q.body.(cursor := L.High(o.log) + 1));
    HighCountsAppends(o);
    AppendsLengthen(o.ops, q.between);
  }

  lemma HighCountsAppends(o: Owner)
    requires LogInv(o)
    ensures L.High(o.log) == |L.Appended(o.ops)|
  {
    L.LogRefinesHistory(o.ops);
  }

  lemma AppendsLengthen(ops: seq<L.LogOp>, between: seq<L.LogOp>)
    ensures |L.Appended(ops + between)| == |L.Appended(ops)| <==> NoAppends(between)
  {
    AnonymousCount(ops, between);
    AnonymousExactlyForAppends(between);
  }

  lemma NewRequest(o: Owner, q: IngestRequest, now: Time)
    requires q.Ingest? && C.Lookup(o.dedup, q.Key(), now).None? && q.accepted && q.lands
    ensures var p := IngestStep(o, q, now);
            && p.ops == o.ops + (q.between + [L.Append(q.body.(cursor := L.High(o.log) + 1))])
            && p.origins == o.origins + (Anonymous(q.between) + [Some(q.Key())])
            && p.subs == o.subs && p.tokens == o.tokens
            && IngestReplyTo(o.log, o.dedup, q, now) == Accepted(L.High(o.log) + 1)
  {
  }

  lemma OwnAppendComesLast(ops: seq<L.LogOp>, between: seq<L.LogOp>, m: L.Message)
    ensures var before := L.Appended(ops + between);
            L.Appended(ops + (between + [L.Append(m)])) == before + [m.(cursor := |before| + 1)]
  {
    var all := ops + (between + [L.Append(m)]);
    assert all[..|all| - 1] == ops + between;
  }

  /** Any other request stores nothing of its own: a duplicate changes nothing at all; a refused or
      malformed one is rejected and leaves the log alone; one whose append fails is rejected too. */
  lemma OthersStoreNothing(o: Owner, q: IngestRequest, now: Time)
    requires LogInv(o)
    requires q.Ingest? && C.Lookup(o.dedup, q.Key(), now).None? ==> !(q.accepted && q.lands)
    ensures var p, reply := IngestStep(o, q, now), IngestReplyTo(o.log, o.dedup, q, now);
            if q.BadRequest? then p == o && reply == IngestRejected
            else if C.Lookup(o.dedup, q.Key(), now).Some? then p == o
            else if q.accepted then
              && reply == IngestRejected
              && p.ops == o.ops + q.between && p.origins == o.origins + Anonymous(q.between)
              && p.subs == o.subs && p.tokens == o.tokens
            else OnlyCache(o, p) && reply == IngestRejected
  {
    assert o.ops + [] == o.ops && o.origins + [] == o.origins;
    assert q.Ingest? ==> q.between + [] == q.between && Anonymous(q.between) + [] == Anonymous(q.between);
  }

  /** Whatever happens later, the log has the request's own message at the cursor in the reply, until it is
      pruned; and a retry within the horizon is pointed to that same cursor. */
  lemma AcceptedStaysStored(o: Owner, q: IngestRequest, now: Time, es: seq<Event>)
    requires LogInv(o) && q.Ingest? && C.Lookup(o.dedup, q.Key(), now).None? && q.accepted && q.lands
    requires NoAppends(q.between)
    ensures var later := After(IngestStep(o, q, now), es);
            var reply := IngestReplyTo(o.log, o.dedup, q, now);
            && reply.Accepted?
            && L.Get(later.log, reply.cursor)
               == if later.log.floor < reply.cursor then Some(q.body.(cursor := reply.cursor)) else None
  {
    var p := IngestStep(o, q, now);
    AcceptedIsStored(o, q, now);
    LogMovesForward(o, IngestOps(o.log, o.dedup, q, now));
    AfterKeepsLog(p, es);
    HistoryGrowsAfter(p, es);
    var later := After(p, es);
    LastStaysStored(p.ops, later.ops);
  }

  lemma LastStaysStored(ops: seq<L.LogOp>, more: seq<L.LogOp>)
    requires L.Appended(ops) != [] && L.Appended(ops) <= L.Appended(more)
    ensures var l, all, c := L.ApplyAll(L.EMPTY, more), L.Appended(ops), |L.Appended(ops)|;
            L.Get(l, c) == if l.floor < c then Some(all[c - 1]) else None
  {
    L.GetIsTheKthAppended(more, |L.Appended(ops)|);
    L.LogRefinesHistory(more);
  }

  // ----- control requests -----

  /** Nothing but the set of handled tokens differs. */
  predicate OnlyToken(o: Owner, p: Owner) {
    p == o.(tokens := p.tokens)
  }

  /** Besides the token, at most the subscription `name` differs. */
  ghost predicate OnlySub(o: Owner, p: Owner, name: string) {
    && p == o.(tokens := p.tokens, subs := p.subs)
    && forall n :: n != name ==> (n in p.subs <==> n in o.subs) && (n in o.subs ==> p.subs[n] == o.subs[n])
  }

  /** A frame with a token not seen before, what it leaves, and its answer once `later` has come. */
  ghost predicate NewFrame(o: Owner, token: nat, q: ControlRequest, now: Time, p: Owner) {
    C.Lookup(o.tokens, token, now).None? && p == Step(o, ControlFrame(token, q, now))
  }

  function AnswerTo(o: Owner, q: ControlRequest, now: Time, later: Owner): ControlReply {
    ReplyTo(H.Forget(o.subs), o.log, q, now, later.log)
  }

  /** A frame that leads to an action on an existing subscription takes that action, and does nothing else. */
  lemma ActStep(o: Owner, token: nat, q: ControlRequest, now: Time, p: Owner, name: string, a: H.Action)
    requires NewFrame(o, token, q, now, p) && name in o.subs
    requires RequestOf(H.Forget(o.subs).Keys, o.log, q, now) == Some(H.Act(name, a))
    ensures OnlySub(o, p, name) && name in p.subs && p.subs[name] == H.Advance(o.subs[name], a)
  {
  }

  /** Reading requests change nothing and tell the truth; an undecodable or unauthorised one is rejected. */
  lemma ReadsChangeNothing(o: Owner, token: nat, q: ControlRequest, now: Time, p: Owner, later: Owner)
    requires NewFrame(o, token, q, now, p) && LogInv(o) && (q.Refused? || q.HighCursor? || q.ListSubscriptions?)
    ensures OnlyToken(o, p)
    ensures q.Refused? ==> AnswerTo(o, q, now, later) == Rejected
    ensures q.HighCursor? ==> AnswerTo(o, q, now, later) == High(|L.Appended(o.ops)|)
    ensures q.ListSubscriptions? ==>
              AnswerTo(o, q, now, later).Subscriptions?
              && forall n :: n in AnswerTo(o, q, now, later).names <==> n in o.subs
  {
    L.LogRefinesHistory(o.ops);
  }

  /** Acks, nacks and pulls of an unknown subscription are rejected and change nothing. */
  lemma UnknownIsRejected(o: Owner, token: nat, q: ControlRequest, now: Time, p: Owner, later: Owner)
    requires NewFrame(o, token, q, now, p) && (q.AckMessage? || q.NackMessage? || q.Pull?) && q.name !in o.subs
    ensures OnlyToken(o, p) && AnswerTo(o, q, now, later) == Rejected
  {
  }

  /** So are requests whose proposal is refused, except pulls that have nothing to propose. */
  lemma RefusedProposalIsRejected(o: Owner, token: nat, q: ControlRequest, now: Time, p: Owner, later: Owner)
    requires NewFrame(o, token, q, now, p)
    requires match q
             case CreateSubscription(_, _, _, lands) => !lands
             case DeleteSubscription(_, lands) => !lands
             case Pull(_, _, lands) => !lands
             case AckMessage(_, _, lands) => !lands
             case NackMessage(_, _, lands) => !lands
             case _ => false
    ensures OnlyToken(o, p)
    ensures AnswerTo(o, q, now, later) == Rejected || (q.Pull? && AnswerTo(o, q, now, later) == Pulled([]))
  {
  }

  /** A subscription may be created if its deadline is within 1..600 seconds, its name is well formed, and
      there is room for it or it exists already. */
  predicate Admissible(o: Owner, name: string, policy: S.Policy, validName: bool) {
    1 <= policy.ackDeadlineSecs <= 600 && validName && (name in o.subs || |o.subs| < 10_000)
  }

  /** A create is accepted exactly when it is admissible. Then the new policy is in force: in a
      subscription with nothing acked, leased or dead if the name was free, and otherwise in the
      subscription as it stood. */
  lemma CreateTakesEffect(
      o: Owner, token: nat, name: string, policy: S.Policy, validName: bool, now: Time, p: Owner, later: Owner)
    requires NewFrame(o, token, CreateSubscription(name, policy, validName, true), now, p)
    ensures var ok := Admissible(o, name, policy, validName);
            && AnswerTo(o, CreateSubscription(name, policy, validName, true), now, later)
               == (if ok then Ok else Rejected)
            && (if !ok then OnlyToken(o, p)
                else
                  && OnlySub(o, p, name) && name in p.subs
                  && p.subs[name].sub.policy == policy
                  && (name in o.subs ==> p.subs[name].sub == o.subs[name].sub.(policy := policy))
                  && (name !in o.subs ==>
                        p.subs[name].sub == S.Sub(0, map[], map[], {}, {}, policy)))
  {
    assert H.Forget(o.subs).Keys == o.subs.Keys;
    assert |o.subs| == |o.subs.Keys|;
  }

  /** After a delete the subscription is gone, and only it; deleting an unknown name is no error. */
  lemma DeleteTakesEffect(o: Owner, token: nat, name: string, now: Time, p: Owner, later: Owner)
    requires NewFrame(o, token, DeleteSubscription(name, true), now, p)
    ensures AnswerTo(o, DeleteSubscription(name, true), now, later) == Ok
    ensures OnlySub(o, p, name) && name !in p.subs
  {
  }

  /** `t` is what an ack of `c` makes of `s`: the cursor is never due again; its lease and attempts are
      dropped, and no other cursor's; and the floor stands at the end of the run of marked cursors that
      `c` may have completed. */
  ghost predicate Acknowledged(s: S.Sub, c: Cursor, t: S.Sub) {
    && t.leases == s.leases - {c} && t.attempts == s.attempts - {c} && t.policy == s.policy
    && S.IsRunEnd(s.acked, s.ackedSet + s.dead + {c}, t.acked)
    && (c <= t.acked || c in t.ackedSet)
    && (forall x :: x in t.ackedSet <==> x > t.acked && (x in s.ackedSet || x == c))
    && (forall x :: x > t.acked ==> (x in t.dead <==> x in s.dead))
  }

  lemma AckDoes(t: H.Tracked, c: Cursor)
    requires H.FloorInv(t)
    ensures Acknowledged(t.sub, c, H.Advance(t, H.Action.Ack(c)).sub)
  {
    assert !H.Handled(t.past, t.sub.acked + 1);
    A.AckOnce(t.sub, c);
  }

  lemma AckTakesEffect(o: Owner, token: nat, name: string, c: Cursor, now: Time, p: Owner, later: Owner)
    requires name in o.subs && H.Inv(o.subs[name]) && NewFrame(o, token, AckMessage(name, c, true), now, p)
    ensures AnswerTo(o, AckMessage(name, c, true), now, later) == Ok
    ensures OnlySub(o, p, name) && name in p.subs && Acknowledged(o.subs[name].sub, c, p.subs[name].sub)
  {
    ActStep(o, token, AckMessage(name, c, true), now, p, name, H.Action.Ack(c));
    AckDoes(o.subs[name], c);
  }

  /** `t` is what a nack of `c` makes of `s`: if leased, `c` is free at any time from now on; whether and
      until when any other cursor is held, and all else, stays as it was. */
  ghost predicate Released(s: S.Sub, c: Cursor, t: S.Sub) {
    && t.(leases := s.leases) == s && t.leases.Keys == s.leases.Keys
    && (forall x :: x in s.leases && x != c ==> t.leases[x] == s.leases[x])
    && (c in s.leases ==> forall at :: !S.Blocked(t, at, c))
  }

  lemma NackDoes(t: H.Tracked, c: Cursor)
    requires H.FloorInv(t) && H.AccountInv(t)
    ensures Released(t.sub, c, H.Advance(t, H.Action.Nack(c)).sub)
  {
  }

  lemma NackTakesEffect(o: Owner, token: nat, name: string, c: Cursor, now: Time, p: Owner, later: Owner)
    requires name in o.subs && H.Inv(o.subs[name]) && NewFrame(o, token, NackMessage(name, c, true), now, p)
    ensures AnswerTo(o, NackMessage(name, c, true), now, later) == Ok
    ensures OnlySub(o, p, name) && name in p.subs && Released(o.subs[name].sub, c, p.subs[name].sub)
  {
    ActStep(o, token, NackMessage(name, c, true), now, p, name, H.Action.Nack(c));
    NackDoes(o.subs[name], c);
  }

  /** What a pull plans for subscription `s` against a log with so many appended messages and that floor:
      `granted` and `dying` are, in order, the free cursors within reach below and over the limit. */
  ghost predicate Due(s: S.Sub, high: Cursor, floor: Cursor, now: Time, max: nat,
                      granted: seq<Cursor>, dying: seq<Cursor>) {
    && S.Ascending(granted) && S.Ascending(dying)
    && (forall c :: c in granted <==> S.Reached(s, high, floor, now, max, c) && S.Wanted(s, now, false, c))
    && (forall c :: c in dying <==> S.Reached(s, high, floor, now, max, c) && S.Wanted(s, now, true, c))
  }

  /** Each granted cursor with the number of this delivery attempt. */
  function Numbered(s: S.Sub, granted: seq<Cursor>): seq<(Cursor, nat)> {
    seq(|granted|, i requires 0 <= i < |granted| => (granted[i], S.Attempts(s, granted[i]) + 1))
  }

  lemma PicksAreDue(s: S.Sub, high: Cursor, floor: Cursor, now: Time, max: nat)
    ensures Due(s, high, floor, now, max,
                S.Picks(s, high, floor, now, max, false), S.Picks(s, high, floor, now, max, true))
  {
    var stop := S.PicksAreTheFirstDeliverables(s, high, floor, now, max);
    forall poison, c
      ensures c in S.Picks(s, high, floor, now, max, poison)
              <==> S.Reached(s, high, floor, now, max, c) && S.Wanted(s, now, poison, c)
    {
      S.PickedExactlyWhen(s, high, floor, now, max, poison, c);
    }
  }

  /** A pull looks at the whole log as it is, at the time it comes, for as many messages as it asks. If
      nothing is due it returns nothing and changes nothing. Otherwise exactly the due cursors are leased
      or dead-lettered, the floor bridges retention and what is then marked, and the reply has the leased
      messages, numbered by attempt, that the log still retains when it is read. */
  lemma PullTakesEffect(o: Owner, token: nat, name: string, max: nat, now: Time, p: Owner, later: Owner)
    returns (granted: seq<Cursor>, dying: seq<Cursor>)
    requires LogInv(o) && name in o.subs && NewFrame(o, token, Pull(name, max, true), now, p)
    requires LogInv(later)
    ensures var s := o.subs[name].sub;
            && Due(s, |L.Appended(o.ops)|, L.Cut(o.ops), now, max, granted, dying)
            && AnswerTo(o, Pull(name, max, true), now, later)
               == Pulled(Deliveries(L.Appended(later.ops), L.Cut(later.ops), Numbered(s, granted)))
            && (if granted == [] && dying == [] then OnlyToken(o, p)
                else
                  && OnlySub(o, p, name) && name in p.subs
                  && var t := p.subs[name].sub;
                     && H.LeaseDid(s, granted, dying, SaturatingAdd(now, S.Deadline(s.policy)), t)
                     && S.IsRunEnd(Max(s.acked, L.Cut(o.ops)), s.dead + s.ackedSet + Elements(dying), t.acked))
  {
    var t := o.subs[name];
    var a := H.Lease(L.High(o.log), o.log.floor, now, max);
    L.LogRefinesHistory(o.ops);
    L.LogRefinesHistory(later.ops);
    PicksAreDue(t.sub, a.high, a.floor, now, max);
    granted, dying := H.Chosen(t.sub, a, false), H.Chosen(t.sub, a, true);
    ResolveIsDeliveries(later.ops, Numbered(t.sub, granted));
    PullStep(o, token, name, max, now, p);
    PullAnswer(o, name, max, now, later, granted, dying);
    if H.Commits(t.sub, a) {
      H.LeaseEffect(t.sub, a);
    }
  }

  lemma PullStep(o: Owner, token: nat, name: string, max: nat, now: Time, p: Owner)
    requires name in o.subs && NewFrame(o, token, Pull(name, max, true), now, p)
    ensures var a := H.Lease(L.High(o.log), o.log.floor, now, max);
            && OnlySub(o, p, name) && name in p.subs && p.subs[name].sub == H.LeaseStep(o.subs[name].sub, a)
            && (!H.Commits(o.subs[name].sub, a) ==> OnlyToken(o, p))
  {
    var a := H.Lease(L.High(o.log), o.log.floor, now, max);
    ActStep(o, token, Pull(name, max, true), now, p, name, a);
    if !H.Commits(o.subs[name].sub, a) {
      IdleAdvances(o.subs[name], a);
      assert p.subs == o.subs;
    }
  }

  lemma IdleAdvances(t: H.Tracked, a: H.Action)
    requires a.Lease? && !H.Commits(t.sub, a)
    ensures H.Advance(t, a) == t
  {
  }

  lemma PullAnswer(o: Owner, name: string, max: nat, now: Time, later: Owner, granted: seq<Cursor>, dying: seq<Cursor>)
    requires name in o.subs
    requires granted == S.Picks(o.subs[name].sub, L.High(o.log), o.log.floor, now, max, false)
    requires dying == S.Picks(o.subs[name].sub, L.High(o.log), o.log.floor, now, max, true)
    ensures AnswerTo(o, Pull(name, max, true), now, later)
            == Pulled(Resolve(later.log, Numbered(o.subs[name].sub, granted)))
  {
    var s := o.subs[name].sub;
    assert H.Forget(o.subs)[name] == s;
    assert Numbered(s, granted) == S.Number(s, granted);
  }
}
