/** The topic owner: one log, one registry, one ingest cache, one set of handled control tokens, and the
    order in which a request reads and writes them. Steps that other tasks may slip between two of the
    owner's own are given as `between`, the log operations that land there; whether the replication layer
    accepts what a request proposes is given as `lands`. */
module Owners {
  import opened Base
  import S = SubscriptionModel
  import H = SubscriptionHistory
  import R = Subscriptions
  import L = TopicLogs
  import C = Caches
  import D = Dedup

  const DEDUP_CAPACITY: nat := 16_384
  const DEDUP_TTL_SECS: nat := 3_600
  const MAX_SUBSCRIPTIONS: nat := 10_000
  const DIGITS: string := "0123456789"

  type Cursor = nat
  type IngestCache = C.Cache<string, D.Seen>
  type Tokens = C.Cache<nat, ()>

  // ----- requests and replies -----

  function Decimal(n: nat): string {
    if n < 10 then [DIGITS[n]] else Decimal(n / 10) + [DIGITS[n % 10]]
  }

  /** `accepted` is the verdict of authorisation and the size checks. */
  datatype IngestRequest =
    | BadRequest
    | Ingest(idempotencyKey: Option<string>, token: nat, accepted: bool, lands: bool,
             body: L.Message, between: seq<L.LogOp>)
  {
    /** What the request is deduplicated by: the publisher's key, or else the token of its frame. */
    function Key(): string
      requires Ingest?
    {
      match idempotencyKey
      case Some(k) => k
      case None => "tok:" + Decimal(token)
    }
  }

  function Value(s: string): int {
    if s == "" then 0 else 10 * Value(s[..|s| - 1]) + (s[|s| - 1] as int - '0' as int)
  }

  /** The decimal form of a number is read back as that number, and has no leading zero. */
  lemma {:induction false} DecimalReads(n: nat)
    ensures Decimal(n) != "" && Value(Decimal(n)) == n
    ensures n > 0 ==> Decimal(n)[0] != '0'
  {
    var s := Decimal(n);
    if n >= 10 {
      DecimalReads(n / 10);
      assert s[..|s| - 1] == Decimal(n / 10);
    } else {
      assert s[..0] == "";
    }
  }

  /** Requests are duplicates of each other exactly when their keys agree or, having none, when their
      frames carry the same token; and a key stands for a token exactly when it reads `tok:` and the token. */
  lemma SameKeyExactlyWhen(q: IngestRequest, r: IngestRequest)
    requires q.Ingest? && r.Ingest?
    ensures q.Key() == r.Key() <==>
            match (q.idempotencyKey, r.idempotencyKey)
            case (Some(k), Some(j)) => k == j
            case (Some(k), None) => k == "tok:" + Decimal(r.token)
            case (None, Some(j)) => j == "tok:" + Decimal(q.token)
            case (None, None) => q.token == r.token
  {
    DecimalReads(q.token);
    DecimalReads(r.token);
    if q.idempotencyKey.None? && r.idempotencyKey.None? && q.Key() == r.Key() {
      assert q.Key()[4..] == Decimal(q.token) && r.Key()[4..] == Decimal(r.token);
    }
  }

  datatype IngestReply = Accepted(cursor: Cursor) | IngestRejected

  datatype ControlRequest =
    | Refused                       // undecodable or unauthorised
    | HighCursor
    | ListSubscriptions
    | CreateSubscription(name: string, policy: S.Policy, validName: bool, lands: bool)
    | DeleteSubscription(name: string, lands: bool)
    | Pull(name: string, maxMessages: nat, lands: bool)
    | AckMessage(name: string, cursor: Cursor, lands: bool)
    | NackMessage(name: string, cursor: Cursor, lands: bool)

  datatype LeasedMessage = LeasedMessage(message: L.Message, deliveryAttempt: nat)

  datatype ControlReply =
    | Ok
    | Rejected
    | High(cursor: Cursor)
    | Subscriptions(names: set<string>)
    | Pulled(messages: seq<LeasedMessage>)

  // ----- what each request means -----

  predicate ValidPolicy(p: S.Policy) {
    1 <= p.ackDeadlineSecs <= S.MAX_ACK_DEADLINE_SECS
  }

  predicate AtCapacity(names: set<string>, name: string) {
    name !in names && |names| >= MAX_SUBSCRIPTIONS
  }

  predicate MayCreate(names: set<string>, q: ControlRequest)
    requires q.CreateSubscription?
  {
    ValidPolicy(q.policy) && q.validName && !AtCapacity(names, q.name)
  }

  /** The registry request a control request leads to, given the log it is read against. */
  function RequestOf(names: set<string>, l: L.LogState, q: ControlRequest, now: Time): Option<H.Request> {
    match q
    case CreateSubscription(n, p, _, lands) =>
      if MayCreate(names, q) && lands then Some(H.Request.Create(n, p)) else None
    case DeleteSubscription(n, lands) => if lands then Some(H.Request.Delete(n)) else None
    case Pull(n, max, lands) =>
      if lands then Some(H.Act(n, H.Lease(L.High(l), l.floor, now, max))) else None
    case AckMessage(n, c, lands) => if lands then Some(H.Act(n, H.Action.Ack(c))) else None
    case NackMessage(n, c, lands) => if lands then Some(H.Act(n, H.Action.Nack(c))) else None
    case _ => None
  }

  function Propose(r: S.Registry, q: Option<H.Request>): S.Registry {
    if q.None? then r
    else match H.Proposal(r, q.value) case None => r case Some(op) => S.ApplyOp(r, op)
  }

  /** Each leased cursor that the log still retains, as the message to deliver. */
  function Resolve(l: L.LogState, leased: seq<(Cursor, nat)>): seq<LeasedMessage> {
    if leased == [] then []
    else
      var last := leased[|leased| - 1];
      var front := Resolve(l, leased[..|leased| - 1]);
      match L.Get(l, last.0)
      case Some(m) => front + [LeasedMessage(m, last.1)]
      case None => front
  }

  function PlanFor(r: S.Registry, l: L.LogState, name: string, now: Time, max: nat): Option<S.PlannedLease> {
    if name in r then S.PlanSub(r[name], name, L.High(l), l.floor, now, max) else None
  }

  /** Of the operations waiting to land between planning a lease and reading the leased messages, those
      that do: all or, when there is nothing to read, none. */
  function Interleaved(r: S.Registry, l: L.LogState, q: ControlRequest, now: Time, between: seq<L.LogOp>):
      seq<L.LogOp>
  {
    if q.Pull? && q.lands && PlanFor(r, l, q.name, now, q.maxMessages).Some? then between else []
  }

  /** The answer to a request that finds registry `r` and log `l`; leased messages are read from `later`. */
  function ReplyTo(r: S.Registry, l: L.LogState, q: ControlRequest, now: Time, later: L.LogState): ControlReply {
    match q
    case Refused => Rejected
    case HighCursor => High(L.High(l))
    case ListSubscriptions => Subscriptions(r.Keys)
    case CreateSubscription(_, _, _, lands) => if MayCreate(r.Keys, q) && lands then Ok else Rejected
    case DeleteSubscription(_, lands) => if lands then Ok else Rejected
    case Pull(n, max, lands) =>
      if n !in r then Rejected
      else (match PlanFor(r, l, n, now, max)
            case None => Pulled([])
            case Some(p) => if lands then Pulled(Resolve(later, p.outcome.leased)) else Rejected)
    case AckMessage(n, _, lands) => if n in r && lands then Ok else Rejected
    case NackMessage(n, _, lands) => if n in r && lands then Ok else Rejected
  }

  /** A pull proposes what was planned, and its reply is read from the log after the concurrent operations. */
  lemma PullProposes(r: S.Registry, l: L.LogState, q: ControlRequest, now: Time, between: seq<L.LogOp>)
    requires q.Pull?
    ensures var plan := PlanFor(r, l, q.name, now, q.maxMessages);
            var commits := plan.Some? && q.lands;
            && Propose(r, RequestOf(r.Keys, l, q, now)) == (if commits then S.ApplyOp(r, plan.value.op) else r)
            && Interleaved(r, l, q, now, between) == (if commits then between else [])
            && forall later ::
                 (ReplyTo(r, l, q, now, later) ==
                  if plan.None? && q.name in r then Pulled([])
                  else if plan.None? || !q.lands then Rejected
                  else Pulled(Resolve(later, plan.value.outcome.leased)))
  {
  }

  /** The operation a control request other than a pull proposes. */
  function DirectOp(names: set<string>, q: ControlRequest): Option<S.SubOp> {
    match q
    case CreateSubscription(n, p, _, _) => if MayCreate(names, q) then Some(S.SubOp.Create(n, p)) else None
    case DeleteSubscription(n, _) => Some(S.SubOp.Delete(n))
    case AckMessage(n, c, _) => if n in names then Some(S.SubOp.Ack(n, c)) else None
    case NackMessage(n, c, _) => if n in names then Some(S.SubOp.Nack(n, c)) else None
    case _ => None
  }

  /** Whether the replication layer accepts what the request proposes. */
  predicate Lands(q: ControlRequest) {
    match q
    case CreateSubscription(_, _, _, lands) => lands
    case DeleteSubscription(_, lands) => lands
    case Pull(_, _, lands) => lands
    case AckMessage(_, _, lands) => lands
    case NackMessage(_, _, lands) => lands
    case _ => false
  }

  lemma DirectProposes(r: S.Registry, l: L.LogState, q: ControlRequest, now: Time)
    requires !q.Pull?
    ensures var op := DirectOp(r.Keys, q);
            && Propose(r, RequestOf(r.Keys, l, q, now)) == (if op.Some? && Lands(q) then S.ApplyOp(r, op.value) else r)
            && forall later ::
                 (ReplyTo(r, l, q, now, later) ==
                  if q.HighCursor? then High(L.High(l))
                  else if q.ListSubscriptions? then Subscriptions(r.Keys)
                  else if op.Some? && Lands(q) then Ok
                  else Rejected)
  {
  }

  /** The log operations an ingest request performs, interleaved ones included. */
  function IngestOps(l: L.LogState, d: IngestCache, q: IngestRequest, now: Time): seq<L.LogOp> {
    if q.Ingest? && C.Lookup(d, q.Key(), now).None? && q.accepted then
      q.between + if q.lands then [L.Append(q.body.(cursor := L.High(l) + 1))] else []
    else []
  }

  /** What is remembered about a request that was not a duplicate. */
  function Outcome(l: L.LogState, q: IngestRequest): D.Seen {
    if q.Ingest? && q.accepted && q.lands then D.Seen.Cursor(L.High(l) + 1) else D.Handled
  }

  function DedupAfter(l: L.LogState, d: IngestCache, q: IngestRequest, now: Time): IngestCache {
    if q.BadRequest? then d else C.Admit(d, q.Key(), Outcome(l, q), now).1
  }

  function ReplyFor(outcome: D.Seen): IngestReply {
    match outcome
    case Cursor(c) => Accepted(c)
    case Handled => IngestRejected
  }

  function IngestReplyTo(l: L.LogState, d: IngestCache, q: IngestRequest, now: Time): IngestReply {
    if q.BadRequest? then IngestRejected
    else
      var held := C.Lookup(d, q.Key(), now);
      ReplyFor(if held.Some? then held.value else Outcome(l, q))
  }

  /** Request `q`, arriving at registry `r` and log `l`, is answered with `reply` and leaves `r2` and `l2`. */
  ghost predicate Answers(r: S.Registry, l: L.LogState, q: ControlRequest, now: Time, between: seq<L.LogOp>,
                          reply: ControlReply, r2: S.Registry, l2: L.LogState) {
    && reply == ReplyTo(r, l, q, now, l2)
    && r2 == Propose(r, RequestOf(r.Keys, l, q, now))
    && l2 == L.ApplyAll(l, Interleaved(r, l, q, now, between))
  }

  // ----- the owner as an object -----

  class Topic {
    const writer: L.TopicLog
    const subs: R.SubRegistry
    const dedup: D.IdempotencyCache

    constructor ()
      ensures fresh(writer) && fresh(subs) && fresh(dedup) && Valid()
      ensures writer.Model() == L.EMPTY && subs.Model() == map[]
      ensures dedup.Model() == C.NewCache(DEDUP_CAPACITY, DEDUP_TTL_SECS)
    {
      writer := new L.TopicLog();
      subs := new R.SubRegistry();
      dedup := new D.IdempotencyCache(DEDUP_CAPACITY, DEDUP_TTL_SECS);
    }

    ghost predicate Valid()
      reads subs, dedup
    {
      subs.Valid() && C.Valid(dedup.Model())
    }

    /** What other tasks append and prune meanwhile. */
    method Meanwhile(between: seq<L.LogOp>)
      modifies writer
      ensures writer.Model() == L.ApplyAll(old(writer.Model()), between)
    {
      ghost var l := writer.Model();
      for i := 0 to |between|
        invariant writer.Model() == L.ApplyAll(l, between[..i])
      {
        writer.Apply(between[i]);
        assert between[..i + 1][..i] == between[..i];
      }
      assert between[..|between|] == between;
    }

    /** Read the next cursor, stamp, and propose the append; the two steps are not one. */
    method AppendAndFanout(msg: L.Message, between: seq<L.LogOp>, lands: bool) returns (stored: Option<Cursor>)
      modifies writer
      ensures var cursor := L.High(old(writer.Model())) + 1;
              && stored == (if lands then Some(cursor) else None)
              && writer.Model() == L.ApplyAll(
                   old(writer.Model()), between + if lands then [L.Append(msg.(cursor := cursor))] else [])
    {
      var cursor := writer.NextCursor();
      ghost var l := writer.Model();
      Meanwhile(between);
      if !lands {
        assert between + [] == between;
        return None;
      }
      writer.Apply(L.Append(msg.(cursor := cursor)));
      ghost var ops := between + [L.Append(msg.(cursor := cursor))];
      assert ops[..|ops| - 1] == between;
      return Some(cursor);
    }

    method HandleIngest(q: IngestRequest, now: Time) returns (reply: IngestReply)
      requires Valid()
      modifies writer, dedup
      ensures Valid()
      ensures reply == IngestReplyTo(old(writer.Model()), old(dedup.Model()), q, now)
      ensures var ops := IngestOps(old(writer.Model()), old(dedup.Model()), q, now);
              writer.Model() == L.ApplyAll(old(writer.Model()), ops)
      ensures dedup.Model() == DedupAfter(old(writer.Model()), old(dedup.Model()), q, now)
    {
      if q.BadRequest? {
        return IngestRejected;
      }
      var key := q.Key();
      C.LookupKeepsValid(dedup.Model(), key, now);
      var seen := dedup.Get(key, now);
      if seen.Some? {
        return ReplyFor(seen.value);
      }
      var outcome := D.Handled;
      if q.accepted {
        var stored := AppendAndFanout(q.body, q.between, q.lands);
        if stored.Some? {
          outcome := D.Seen.Cursor(stored.value);
        }
      }
      dedup.Insert(key, outcome, now);
      reply := ReplyFor(outcome);
    }

    method ResolveAll(leased: seq<(Cursor, nat)>) returns (messages: seq<LeasedMessage>)
      ensures messages == Resolve(writer.Model(), leased)
    {
      messages := [];
      for i := 0 to |leased|
        invariant messages == Resolve(writer.Model(), leased[..i])
      {
        assert leased[..i + 1][..i] == leased[..i];
        var m := L.Get(L.LogState(writer.messages, writer.floor), leased[i].0);
        if m.Some? {
          messages := messages + [LeasedMessage(m.value, leased[i].1)];
        }
      }
      assert leased[..|leased|] == leased;
    }

    /** Read the leased messages once the concurrent log operations have landed. */
    method Deliver(leased: seq<(Cursor, nat)>, between: seq<L.LogOp>) returns (messages: seq<LeasedMessage>)
      modifies writer
      ensures writer.Model() == L.ApplyAll(old(writer.Model()), between)
      ensures messages == Resolve(writer.Model(), leased)
    {
      Meanwhile(between);
      messages := ResolveAll(leased);
    }

    /** Plan against the log as it is now, and propose what was planned, if anything. */
    method CommitLease(name: string, max: nat, lands: bool, now: Time) returns (plan: Option<S.PlannedLease>)
      requires Valid() && name in subs.subs
      modifies subs, subs.subs.Values
      ensures Valid() && fresh(subs.subs.Values - old(subs.subs.Values))
      ensures plan == PlanFor(old(subs.Model()), writer.Model(), name, now, max)
      ensures var r := old(subs.Model());
              subs.Model() == if plan.Some? && lands then S.ApplyOp(r, plan.value.op) else r
    {
      var high, floor := writer.HighCursor(), writer.floor;
      plan := subs.PlanLease(name, high, floor, now, max);
      if plan.Some? && lands {
        subs.Apply(plan.value.op);
      }
    }

    method HandleLease(q: ControlRequest, between: seq<L.LogOp>, now: Time) returns (reply: ControlReply)
      requires Valid() && q.Pull?
      modifies writer, subs, subs.subs.Values
      ensures Valid() && fresh(subs.subs.Values - old(subs.subs.Values))
      ensures Answers(old(subs.Model()), old(writer.Model()), q, now, between, reply, subs.Model(), writer.Model())
    {
      ghost var r, l := subs.Model(), writer.Model();
      PullProposes(r, l, q, now, between);
      if q.name !in subs.subs {
        return Rejected;
      }
      var plan := CommitLease(q.name, q.maxMessages, q.lands, now);
      assert writer.Model() == l;
      if plan.None? {
        return Pulled([]);
      }
      if !q.lands {
        return Rejected;
      }
      ghost var r2 := subs.Model();
      var messages := Deliver(plan.value.outcome.leased, between);
      assert subs.Model() == r2;
      reply := Pulled(messages);
      assert Answers(r, l, q, now, between, reply, subs.Model(), writer.Model());
    }

    /** The control requests other than a pull. */
    method HandleRegistry(q: ControlRequest, now: Time) returns (reply: ControlReply)
      requires Valid() && !q.Pull?
      modifies subs, subs.subs.Values
      ensures Valid() && fresh(subs.subs.Values - old(subs.subs.Values))
      ensures reply == ReplyTo(old(subs.Model()), writer.Model(), q, now, writer.Model())
      ensures var r := old(subs.Model());
              subs.Model() == Propose(r, RequestOf(r.Keys, writer.Model(), q, now))
    {
      ghost var r, l := subs.Model(), writer.Model();
      DirectProposes(r, l, q, now);
      var names := subs.subs.Keys;
      assert r.Keys == names;
      var op := DirectOp(names, q);
      var done := op.Some? && Lands(q);
      if done {
        subs.Apply(op.value);
      }
      assert subs.Model() == Propose(r, RequestOf(r.Keys, l, q, now)) && writer.Model() == l;
      match q
      case HighCursor =>
        reply := High(writer.HighCursor());
      case ListSubscriptions =>
        reply := Subscriptions(names);
      case _ =>
        reply := if done then Ok else Rejected;
    }

    /** One frame of the control loop: nothing at all if its token was handled before. */
    method ServeControl(handled: D.TokenSet, token: nat, q: ControlRequest, between: seq<L.LogOp>, now: Time)
      returns (reply: Option<ControlReply>)
      requires Valid() && C.Valid(handled.Model())
      modifies handled, writer, subs, subs.subs.Values
      ensures Valid() && C.Valid(handled.Model()) && fresh(subs.subs.Values - old(subs.subs.Values))
      ensures handled.Model() == C.Admit(old(handled.Model()), token, (), now).1
      ensures C.Lookup(old(handled.Model()), token, now).Some? ==>
                reply == None && subs.Model() == old(subs.Model()) && writer.Model() == old(writer.Model())
      ensures C.Lookup(old(handled.Model()), token, now).None? ==>
                reply.Some?
                && Answers(old(subs.Model()), old(writer.Model()), q, now, between,
                           reply.value, subs.Model(), writer.Model())
    {
      var seen := MarkHandled(handled, token, now);
      if seen {
        return None;
      }
      ghost var t := handled.Model();
      var answer := HandleControl(q, between, now);
      assert handled.Model() == t;
      reply := Some(answer);
    }

    /** Consult the token set; nothing of the topic changes. */
    method MarkHandled(handled: D.TokenSet, token: nat, now: Time) returns (seen: bool)
      requires Valid() && C.Valid(handled.Model())
      modifies handled
      ensures Valid() && C.Valid(handled.Model())
      ensures handled.Model() == C.Admit(old(handled.Model()), token, (), now).1
      ensures seen == C.Lookup(old(handled.Model()), token, now).Some?
      ensures subs.Model() == old(subs.Model()) && writer.Model() == old(writer.Model())
      ensures subs.subs == old(subs.subs)
    {
      seen := handled.Seen(token, now);
    }

    method HandleControl(q: ControlRequest, between: seq<L.LogOp>, now: Time) returns (reply: ControlReply)
      requires Valid()
      modifies writer, subs, subs.subs.Values
      ensures Valid() && fresh(subs.subs.Values - old(subs.subs.Values))
      ensures Answers(old(subs.Model()), old(writer.Model()), q, now, between, reply, subs.Model(), writer.Model())
    {
      if q.Pull? {
        reply := HandleLease(q, between, now);
      } else {
        reply := HandleRegistry(q, now);
      }
    }
  }
}
