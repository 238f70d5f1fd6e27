/** Durable pull: a replica of some prefix of the owner's operations, convergence to the owner's
    high-water mark, and paging. */
module Replays {
  import opened Base
  import opened TopicLogs

  const MAX_PULL_LIMIT: nat := 100_000

  datatype Replay = Replay(
    messages: seq<Message>,
    high: Cursor,
    next: Cursor,
    target: Option<Cursor>,
    converged: bool,
    truncated: bool,
    floor: Cursor,
    missing: nat)

  /** What the convergence loop sees in one round: the replica, whether the deadline has passed, and the
      replica once more. */
  datatype Poll = Poll(first: LogState, expired: bool, second: LogState)

  /** The page cut from `rest`, the messages after `from`, of a replica with these bounds. */
  function PageOf(rest: seq<Message>, high: Cursor, floor: Cursor,
                  from: Cursor, limit: nat, target: Option<Cursor>, converged: bool): Replay {
    var cap := Clamp(limit, 1, MAX_PULL_LIMIT);
    var page := if |rest| > cap then rest[..cap] else rest;
    Replay(page, high, if page == [] then from else page[|page| - 1].cursor, target, converged, |rest| > cap, floor,
           if target.Some? then SaturatingSub(target.value, high) else 0)
  }

  /** One page read from the replica state `l`. */
  function Page(l: LogState, from: Cursor, limit: nat, target: Option<Cursor>, converged: bool): Replay {
    PageOf(Since(l, from), High(l), l.floor, from, limit, target, converged)
  }

  /** No look at the replica before round `i` found its high-water mark at `t`, and the deadline had not
      passed by then. */
  ghost predicate StillWaiting(polls: seq<Poll>, t: Cursor, i: nat) {
    i < |polls| && forall k :: 0 <= k < i ==> High(polls[k].first) < t && !polls[k].expired
  }

  /** The wait ends in round `i`, with the replica seen at `t` or beyond: at the first look, or at the last
      one, past the deadline. */
  ghost predicate ReachedIn(polls: seq<Poll>, t: Cursor, i: nat) {
    && StillWaiting(polls, t, i)
    && (High(polls[i].first) >= t || (polls[i].expired && High(polls[i].second) >= t))
  }

  /** The wait ends in round `i`, past the deadline and with the replica never seen at `t`. */
  ghost predicate GaveUpIn(polls: seq<Poll>, t: Cursor, i: nat) {
    && StillWaiting(polls, t, i)
    && High(polls[i].first) < t && polls[i].expired && High(polls[i].second) < t
  }

  /** The wait ends in one round only, and in one way. */
  lemma OneOutcome(polls: seq<Poll>, t: Cursor, i: nat, j: nat)
    requires ReachedIn(polls, t, i)
    ensures !GaveUpIn(polls, t, j) && (ReachedIn(polls, t, j) && High(polls[j].first) < t ==> polls[j].expired)
  {
  }

  /** The convergence loop, over the observations it makes; the deadline passes in the end. Without a
      target it only waits for a quiet moment and reports no convergence. */
  method ConvergeTo(polls: seq<Poll>, target: Option<Cursor>) returns (converged: bool)
    requires polls != [] && polls[|polls| - 1].expired
    ensures converged ==> target.Some? && exists i :: ReachedIn(polls, target.value, i)
    ensures target.Some? && !converged ==> exists i :: GaveUpIn(polls, target.value, i)
  {
    if target.None? {
      return false;
    }
    var t := target.value;
    var i := 0;
    while true
      invariant 0 <= i < |polls|
      invariant forall k :: 0 <= k < i ==> High(polls[k].first) < t && !polls[k].expired
      decreases |polls| - i
    {
      assert StillWaiting(polls, t, i);
      if High(polls[i].first) >= t {
        assert ReachedIn(polls, t, i);
        return true;
      }
      if polls[i].expired {
        assert if High(polls[i].second) >= t then ReachedIn(polls, t, i) else GaveUpIn(polls, t, i);
        return High(polls[i].second) >= t;
      }
      i := i + 1;
    }
  }

  /** Converge, then read one page from the replica as it is afterwards. */
  method PullLimited(polls: seq<Poll>, replica: LogState, target: Option<Cursor>, from: Cursor, limit: nat)
    returns (replay: Replay)
    requires polls != [] && polls[|polls| - 1].expired
    ensures replay == Page(replica, from, limit, target, replay.converged)
    ensures replay.converged ==> target.Some? && exists i :: ReachedIn(polls, target.value, i)
    ensures target.Some? && !replay.converged ==> exists i :: GaveUpIn(polls, target.value, i)
  {
    var cap := Clamp(limit, 1, MAX_PULL_LIMIT);
    var converged := ConvergeTo(polls, target);
    var messages, high, floor := Since(replica, from), High(replica), replica.floor;
    var truncated := |messages| > cap;
    if truncated {
      messages := messages[..cap];
    }
    var next := if messages == [] then from else messages[|messages| - 1].cursor;
    var missing := if target.Some? then SaturatingSub(target.value, high) else 0;
    replay := Replay(messages, high, next, target, converged, truncated, floor, missing);
  }

  // ----- honest convergence -----

  /** A replica is the result of a prefix of the owner's operations. */
  function ReplicaAt(ops: seq<LogOp>, version: nat): LogState
    requires version <= |ops|
  {
    ApplyAll(EMPTY, ops[..version])
  }

  lemma ReplicasGrow(ops: seq<LogOp>, i: nat, j: nat)
    requires i <= j <= |ops|
    ensures Appended(ops[..i]) <= Appended(ops[..j])
    ensures High(ReplicaAt(ops, i)) <= High(ReplicaAt(ops, j))
    ensures ReplicaAt(ops, i).floor <= ReplicaAt(ops, j).floor
  {
    assert ops[..j] == ops[..i] + ops[i..j];
    HistoryGrows(ops[..i], ops[i..j]);
    LogRefinesHistory(ops[..i]);
    LogRefinesHistory(ops[..j]);
  }

  /** Two replicas of one owner, however far apart, agree on every cursor both retain. */
  lemma ReplicasAgree(ops: seq<LogOp>, i: nat, j: nat, k: Cursor)
    requires i <= |ops| && j <= |ops|
    requires Get(ReplicaAt(ops, i), k).Some? && Get(ReplicaAt(ops, j), k).Some?
    ensures 1 <= k <= |Appended(ops)|
    ensures Get(ReplicaAt(ops, i), k) == Get(ReplicaAt(ops, j), k) == Some(Appended(ops)[k - 1])
  {
    assert ops[..|ops|] == ops;
    ReplicasGrow(ops, i, |ops|);
    ReplicasGrow(ops, j, |ops|);
    GetIsTheKthAppended(ops[..i], k);
    GetIsTheKthAppended(ops[..j], k);
  }

  /** The owner answered with its high mark at version `asked`; the loop saw the replica at version `seen`
      reach it; the page was read at a version `read` not before that. Then nothing is missing, and an
      untruncated page holds every cursor up to the target with the owner's content, except those the
      page itself reports as pruned. */
  lemma ConvergedMeansComplete(ops: seq<LogOp>, asked: nat, seen: nat, read: nat, from: Cursor, limit: nat, c: Cursor)
    requires asked <= |ops| && seen <= read <= |ops|
    requires High(ReplicaAt(ops, seen)) >= High(ReplicaAt(ops, asked))
    ensures var target := High(ReplicaAt(ops, asked));
            var replay := Page(ReplicaAt(ops, read), from, limit, Some(target), true);
            && replay.missing == 0
            && (from < c <= target && !replay.truncated ==>
                  c <= replay.floor || (c <= |Appended(ops)| && Appended(ops)[c - 1] in replay.messages))
  {
    assert ops[..|ops|] == ops;
    ReplicasGrow(ops, seen, read);
    ReplicasGrow(ops, read, |ops|);
    var all := Appended(ops[..read]);
    LogRefinesHistory(ops[..read]);
    SinceIsTheTail(ops[..read], from);
    var l := ReplicaAt(ops, read);
    var lo := Min(Max(l.floor, from), |all|);
    if from < c <= High(ReplicaAt(ops, asked)) && c > l.floor {
      assert all[lo..][c - 1 - lo] == all[c - 1];
    }
  }

  /** The polls looked at the owner's log as of the given versions, none later than `read`. */
  ghost predicate PolledAt(ops: seq<LogOp>, polls: seq<Poll>, versions: seq<(nat, nat)>, read: nat)
    requires read <= |ops|
  {
    && |versions| == |polls|
    && forall i :: 0 <= i < |polls| ==>
         && versions[i].0 <= read && versions[i].1 <= read
         && polls[i].first == ReplicaAt(ops, versions[i].0)
         && polls[i].second == ReplicaAt(ops, versions[i].1)
  }

  /** What a caller may conclude from `converged`, whatever the replica did while it was polled. */
  lemma PullIsHonest(ops: seq<LogOp>, asked: nat, polls: seq<Poll>, versions: seq<(nat, nat)>, read: nat,
                     from: Cursor, limit: nat, c: Cursor)
    requires asked <= |ops| && read <= |ops| && PolledAt(ops, polls, versions, read)
    requires exists i :: ReachedIn(polls, High(ReplicaAt(ops, asked)), i)
    ensures var target := High(ReplicaAt(ops, asked));
            var replay := Page(ReplicaAt(ops, read), from, limit, Some(target), true);
            && replay.missing == 0
            && (from < c <= target && !replay.truncated ==>
                  c <= replay.floor || (c <= |Appended(ops)| && Appended(ops)[c - 1] in replay.messages))
  {
    var t := High(ReplicaAt(ops, asked));
    var i: nat :| ReachedIn(polls, t, i);
    var seen := if High(polls[i].first) >= t then versions[i].0 else versions[i].1;
    ConvergedMeansComplete(ops, asked, seen, read, from, limit, c);
  }

  /** Every message on a page is the owner's, under its own cursor, above `from` and in order. */
  lemma PageIsHonest(
      ops: seq<LogOp>, read: nat, from: Cursor, limit: nat, target: Option<Cursor>, converged: bool, i: nat)
    requires read <= |ops|
    requires i < |Page(ReplicaAt(ops, read), from, limit, target, converged).messages|
    ensures var p := Page(ReplicaAt(ops, read), from, limit, target, converged);
            var c := Max(p.floor, from) + 1 + i;
            && c <= |Appended(ops)|
            && p.messages[i] == Appended(ops)[c - 1]
            && p.messages[i].cursor == c
  {
    assert ops[..|ops|] == ops;
    ReplicasGrow(ops, read, |ops|);
    LogRefinesHistory(ops[..read]);
    PageOfHistory(Appended(ops[..read]), Appended(ops), ReplicaAt(ops, read), from, limit, target, converged, i);
  }

  lemma PageOfHistory(all: seq<Message>, whole: seq<Message>, l: LogState,
                      from: Cursor, limit: nat, target: Option<Cursor>, converged: bool, i: nat)
    requires Retains(l, all) && all <= whole
    requires i < |Page(l, from, limit, target, converged).messages|
    ensures var p := Page(l, from, limit, target, converged);
            var c := Max(p.floor, from) + 1 + i;
            c <= |whole| && p.messages[i] == whole[c - 1] && p.messages[i].cursor == c
  {
    PageByPosition(all, l, from, limit, target, converged);
    SliceAt(all, whole, l.floor, from, Page(l, from, limit, target, converged).messages, i);
  }

  lemma SliceAt(all: seq<Message>, whole: seq<Message>, floor: Cursor, from: Cursor, slice: seq<Message>, i: nat)
    requires Stamped(all) && all <= whole && i < |slice|
    requires var lo := Min(Max(floor, from), |all|);
             lo + |slice| <= |all| && slice == all[lo..lo + |slice|]
    ensures var c := Max(floor, from) + 1 + i;
            c <= |whole| && slice[i] == whole[c - 1] && slice[i].cursor == c
  {
    var lo := Min(Max(floor, from), |all|);
    assert slice[i] == all[lo + i] == whole[lo + i];
  }

  // ----- what is missing -----

  /** Some message the replica has had by that version stood at cursor `c`. */
  ghost predicate Had(ops: seq<LogOp>, version: nat, c: Cursor)
    requires version <= |ops|
  {
    exists m :: m in Appended(ops[..version]) && m.cursor == c
  }

  lemma HadExactlyWhen(ops: seq<LogOp>, version: nat, c: Cursor)
    requires version <= |ops|
    ensures Had(ops, version, c) <==> 1 <= c <= High(ReplicaAt(ops, version))
  {
    var all := Appended(ops[..version]);
    LogRefinesHistory(ops[..version]);
    if 1 <= c <= |all| {
      assert all[c - 1] in all;
    }
  }

  /** The cursors up to `t` that the replica has not had by that version. */
  ghost function Lacking(ops: seq<LogOp>, version: nat, t: Cursor): set<Cursor>
    requires version <= |ops|
  {
    set c: Cursor | 1 <= c <= t && !Had(ops, version, c)
  }

  lemma {:induction false} CountLacking(ops: seq<LogOp>, version: nat, t: Cursor)
    requires version <= |ops|
    ensures |Lacking(ops, version, t)| == SaturatingSub(t, High(ReplicaAt(ops, version)))
  {
    if t > 0 {
      CountLacking(ops, version, t - 1);
      HadExactlyWhen(ops, version, t);
      assert Lacking(ops, version, t)
             == Lacking(ops, version, t - 1) + if Had(ops, version, t) then {} else {t};
    }
  }

  /** With a target, `missing` counts the cursors up to it that the replica has not had. So it is 0 exactly
      when the replica has had all of them, and together with the replica's high-water mark it makes up
      the target, whenever the replica is not beyond it. Without a target it is 0. */
  lemma MissingCountsTheShortfall(
      ops: seq<LogOp>, read: nat, from: Cursor, limit: nat, target: Option<Cursor>, converged: bool)
    requires read <= |ops|
    ensures var p := Page(ReplicaAt(ops, read), from, limit, target, converged);
            match target
            case None => p.missing == 0
            case Some(t) =>
              && p.missing == |Lacking(ops, read, t)|
              && (p.missing == 0 <==> forall c: Cursor :: 1 <= c <= t ==> Had(ops, read, c))
              && p.high + p.missing >= t
              && (p.high + p.missing == t <==> p.high <= t)
  {
    if target.Some? {
      var t := target.value;
      CountLacking(ops, read, t);
      forall c: Cursor | 1 <= c <= t ensures Had(ops, read, c) <==> c <= High(ReplicaAt(ops, read)) {
        HadExactlyWhen(ops, read, c);
      }
      assert t > High(ReplicaAt(ops, read)) ==> !Had(ops, read, t);
    }
  }

  /** The other fields of a page: the number of messages ever appended and the furthest prune, as of the
      version read, and what was asked and found about convergence. */
  lemma PageReportsItsVersion(
      ops: seq<LogOp>, read: nat, from: Cursor, limit: nat, target: Option<Cursor>, converged: bool)
    requires read <= |ops|
    ensures var p := Page(ReplicaAt(ops, read), from, limit, target, converged);
            && p.high == |Appended(ops[..read])| && p.floor == Cut(ops[..read])
            && p.target == target && p.converged == converged
  {
    LogRefinesHistory(ops[..read]);
  }

  // ----- the continuation cursor -----

  /** The documentation says an untruncated page ends at the high-water mark. It does exactly when the
      page is not empty or the caller was already there; otherwise `next` stays where it was. */
  lemma NextIsHighExactlyWhen(ops: seq<LogOp>, from: Cursor, limit: nat)
    requires !Page(ApplyAll(EMPTY, ops), from, limit, None, false).truncated
    ensures var l := ApplyAll(EMPTY, ops);
            Page(l, from, limit, None, false).next == High(l) <==> from == High(l) || Max(l.floor, from) < High(l)
  {
    LogRefinesHistory(ops);
    SinceIsTheTail(ops, from);
  }

  /** Everything pruned: a pull from 0 returns nothing and does not move the cursor. */
  lemma NextCanLag(m: Message)
    ensures var l := ApplyAll(EMPTY, [Append(m), PruneTo(1)]);
            High(l) == 1 && !Page(l, 0, 10, None, false).truncated && Page(l, 0, 10, None, false).next == 0
  {
    var ops := [Append(m), PruneTo(1)];
    assert ops[..1] == [Append(m)] && [Append(m)][..0] == [];
    assert Appended([Append(m)]) == [m.(cursor := 1)] && Cut([Append(m)]) == 0;
    assert Appended(ops) == [m.(cursor := 1)] && Cut(ops) == 1;
    LogRefinesHistory(ops);
    SinceIsTheTail(ops, 0);
  }

  // ----- paging -----

  function NextPage(l: LogState, from: Cursor, limit: nat): Replay {
    Page(l, from, limit, None, false)
  }

  /** A page of a log, by position in its history, whatever is known about convergence. */
  lemma PageByPosition(
      all: seq<Message>, l: LogState, from: Cursor, limit: nat, target: Option<Cursor>, converged: bool)
    requires Retains(l, all)
    ensures var p := Page(l, from, limit, target, converged);
            var lo := Min(Max(l.floor, from), |all|);
            var hi := Min(lo + Clamp(limit, 1, MAX_PULL_LIMIT), |all|);
            && p.messages == all[lo..hi]
            && (p.truncated <==> hi < |all|)
            && p.next == if lo < hi then hi else from
  {
    var lo := Min(Max(l.floor, from), |all|);
    NewerIsSlice(all, l.floor, from);
    PageOfTail(all, lo, High(l), l.floor, from, limit, target, converged);
  }

  lemma PageOfTail(all: seq<Message>, lo: nat, high: Cursor, floor: Cursor,
                   from: Cursor, limit: nat, target: Option<Cursor>, converged: bool)
    requires Stamped(all) && lo <= |all|
    ensures var p := PageOf(all[lo..], high, floor, from, limit, target, converged);
            var hi := Min(lo + Clamp(limit, 1, MAX_PULL_LIMIT), |all|);
            && p.messages == all[lo..hi]
            && (p.truncated <==> hi < |all|)
            && p.next == if lo < hi then hi else from
  {
    TakeOfTail(all, lo, Clamp(limit, 1, MAX_PULL_LIMIT));
  }

  /** The first `cap` messages after position `lo`, and the last cursor among them. */
  lemma TakeOfTail(all: seq<Message>, lo: nat, cap: nat)
    requires Stamped(all) && lo <= |all| && cap >= 1
    ensures var rest := all[lo..];
            var page := if |rest| > cap then rest[..cap] else rest;
            var hi := Min(lo + cap, |all|);
            && page == all[lo..hi] && |page| == hi - lo
            && (|rest| > cap <==> hi < |all|)
            && (lo < hi ==> page[|page| - 1].cursor == hi)
  {
  }

  /** A slice of the history above cursor and floor, followed by what comes after its last cursor. */
  lemma SliceSplitsSince(all: seq<Message>, l: LogState, from: Cursor, lo: nat, hi: nat, next: Cursor)
    requires Retains(l, all) && lo == Min(Max(l.floor, from), |all|) <= hi <= |all| && (lo == hi ==> lo == |all|)
    requires next == if lo < hi then hi else from
    ensures Since(l, from) == all[lo..hi] + Since(l, next) && Since(l, next) == all[hi..]
    ensures hi < |all| ==> from < next <= |all|
  {
    NewerIsSlice(all, l.floor, from);
    NewerIsSlice(all, l.floor, next);
    SliceConcat(all, lo, hi);
  }

  lemma SliceConcat(all: seq<Message>, lo: nat, hi: nat)
    requires lo <= hi <= |all|
    ensures all[lo..] == all[lo..hi] + all[hi..]
  {
  }

  lemma PageSplitsSince(all: seq<Message>, l: LogState, from: Cursor, limit: nat)
    requires Retains(l, all)
    ensures var p := NextPage(l, from, limit);
            && Since(l, from) == p.messages + Since(l, p.next)
            && (p.truncated ==> from < p.next <= |all|)
            && (!p.truncated ==> Since(l, p.next) == [])
  {
    var p := NextPage(l, from, limit);
    var lo := Min(Max(l.floor, from), |all|);
    var hi := Min(lo + Clamp(limit, 1, MAX_PULL_LIMIT), |all|);
    PageByPosition(all, l, from, limit, None, false);
    SliceSplitsSince(all, l, from, lo, hi, p.next);
  }

  /** All pages of a fixed log, following `next` until a page is not truncated. */
  function AllPages(all: seq<Message>, l: LogState, from: Cursor, limit: nat): seq<Message>
    requires Retains(l, all)
    decreases SaturatingSub(|all|, from)
  {
    var p := NextPage(l, from, limit);
    PageSplitsSince(all, l, from, limit);
    if p.truncated then p.messages + AllPages(all, l, p.next, limit) else p.messages
  }

  /** Following `next` to the end gives the one untruncated replay, whatever the page limit. */
  lemma {:induction false} PagesConcatenateToSince(all: seq<Message>, l: LogState, from: Cursor, limit: nat)
    requires Retains(l, all)
    ensures AllPages(all, l, from, limit) == Since(l, from)
    decreases SaturatingSub(|all|, from)
  {
    var p := NextPage(l, from, limit);
    PageSplitsSince(all, l, from, limit);
    if p.truncated {
      PagesConcatenateToSince(all, l, p.next, limit);
    }
  }

  /** Where the caller stands after pages read at the given replica versions. */
  function Position(ops: seq<LogOp>, versions: seq<nat>, from: Cursor, limit: nat): Cursor
    requires forall k :: 0 <= k < |versions| ==> versions[k] <= |ops|
  {
    if versions == [] then from
    else
      var before := versions[..|versions| - 1];
      NextPage(ReplicaAt(ops, versions[|versions| - 1]), Position(ops, before, from, limit), limit).next
  }

  /** The messages those pages returned, concatenated. */
  function Pages(ops: seq<LogOp>, versions: seq<nat>, from: Cursor, limit: nat): seq<Message>
    requires forall k :: 0 <= k < |versions| ==> versions[k] <= |ops|
  {
    if versions == [] then []
    else
      var before := versions[..|versions| - 1];
      Pages(ops, before, from, limit)
      + NextPage(ReplicaAt(ops, versions[|versions| - 1]), Position(ops, before, from, limit), limit).messages
  }

  /** One page, read while the log may have moved on since the previous one: its cursors follow on from
      `from` without gaps other than pruned ones, and end at `next`. */
  lemma PageCoversItsSpan(ops: seq<LogOp>, v: nat, from: Cursor, limit: nat)
    requires v <= |ops|
    ensures var l := ReplicaAt(ops, v);
            var p := NextPage(l, from, limit);
            && from <= p.next
            && (p.messages != [] ==> |p.messages| == p.next - Max(l.floor, from) && p.next <= |Appended(ops)|)
            && (p.messages == [] ==> p.next == from)
            && (forall i :: 0 <= i < |p.messages| ==>
                  && Max(l.floor, from) + i < |Appended(ops)|
                  && p.messages[i] == Appended(ops)[Max(l.floor, from) + i]
                  && p.messages[i].cursor == Max(l.floor, from) + 1 + i)
  {
    var p := NextPage(ReplicaAt(ops, v), from, limit);
    forall i | 0 <= i < |p.messages|
      ensures Max(p.floor, from) + i < |Appended(ops)| && p.messages[i] == Appended(ops)[Max(p.floor, from) + i]
      ensures p.messages[i].cursor == Max(p.floor, from) + 1 + i
    {
      PageIsHonest(ops, v, from, limit, None, false, i);
    }
  }

  /** Strictly increasing cursors in `(lo, hi]`. */
  ghost predicate OrderedWithin(ms: seq<Message>, lo: Cursor, hi: Cursor) {
    && lo <= hi
    && (forall i :: 0 <= i < |ms| ==> lo < ms[i].cursor <= hi)
    && (forall i, j :: 0 <= i < j < |ms| ==> ms[i].cursor < ms[j].cursor)
  }

  lemma OrderedConcat(a: seq<Message>, b: seq<Message>, lo: Cursor, mid: Cursor, hi: Cursor)
    requires OrderedWithin(a, lo, mid) && OrderedWithin(b, mid, hi)
    ensures OrderedWithin(a + b, lo, hi)
  {
  }

  /** With appends and prunes between pages the cursors returned stay strictly increasing, beyond `from`,
      and up to the position reached. */
  lemma {:induction false} PagesStayInOrder(ops: seq<LogOp>, versions: seq<nat>, from: Cursor, limit: nat)
    requires forall k :: 0 <= k < |versions| ==> versions[k] <= |ops|
    ensures OrderedWithin(Pages(ops, versions, from, limit), from, Position(ops, versions, from, limit))
  {
    if versions != [] {
      var before, v := versions[..|versions| - 1], versions[|versions| - 1];
      var mid := Position(ops, before, from, limit);
      PagesStayInOrder(ops, before, from, limit);
      PageCoversItsSpan(ops, v, mid, limit);
      var page := NextPage(ReplicaAt(ops, v), mid, limit);
      OrderedConcat(Pages(ops, before, from, limit), page.messages, from, mid, page.next);
    }
  }

  /** The page that moved the caller past `c` holds it, or reports it pruned. */
  lemma PageAccounts(ops: seq<LogOp>, v: nat, from: Cursor, limit: nat, c: Cursor)
    requires v <= |ops| && from < c <= NextPage(ReplicaAt(ops, v), from, limit).next
    ensures c <= ReplicaAt(ops, v).floor
            || (c <= |Appended(ops)| && Appended(ops)[c - 1] in NextPage(ReplicaAt(ops, v), from, limit).messages)
  {
    PageCoversItsSpan(ops, v, from, limit);
    var l := ReplicaAt(ops, v);
    var p := NextPage(l, from, limit);
    if c > l.floor {
      assert p.messages[c - 1 - Max(l.floor, from)] == Appended(ops)[c - 1];
    }
  }

  /** Page number `i` of the sequence was the one that moved past `c`, and its replica had pruned `c`. */
  ghost predicate PrunedOnPage(ops: seq<LogOp>, versions: seq<nat>, from: Cursor, limit: nat, c: Cursor, i: nat)
    requires forall k :: 0 <= k < |versions| ==> versions[k] <= |ops|
  {
    && i < |versions|
    && c <= ReplicaAt(ops, versions[i]).floor
    && Position(ops, versions[..i], from, limit) < c <= Position(ops, versions[..i + 1], from, limit)
  }

  /** Each cursor the caller has moved past was returned with the owner's content, or had been pruned when
      the page that passed it was read. */
  ghost predicate Accounted(ops: seq<LogOp>, versions: seq<nat>, from: Cursor, limit: nat, c: Cursor)
    requires forall k :: 0 <= k < |versions| ==> versions[k] <= |ops|
  {
    || (1 <= c <= |Appended(ops)| && Appended(ops)[c - 1] in Pages(ops, versions, from, limit))
    || (exists i :: PrunedOnPage(ops, versions, from, limit, c, i))
  }

  lemma PrunedOnPageLater(ops: seq<LogOp>, versions: seq<nat>, from: Cursor, limit: nat, c: Cursor, i: nat)
    requires versions != [] && forall k :: 0 <= k < |versions| ==> versions[k] <= |ops|
    requires PrunedOnPage(ops, versions[..|versions| - 1], from, limit, c, i)
    ensures PrunedOnPage(ops, versions, from, limit, c, i)
  {
    var before := versions[..|versions| - 1];
    assert before[..i] == versions[..i] && before[..i + 1] == versions[..i + 1];
  }

  lemma PagesGrow(ops: seq<LogOp>, versions: seq<nat>, from: Cursor, limit: nat)
    requires versions != [] && forall k :: 0 <= k < |versions| ==> versions[k] <= |ops|
    ensures Pages(ops, versions[..|versions| - 1], from, limit) <= Pages(ops, versions, from, limit)
  {
  }

  lemma AccountedLater(ops: seq<LogOp>, versions: seq<nat>, from: Cursor, limit: nat, c: Cursor)
    requires versions != [] && forall k :: 0 <= k < |versions| ==> versions[k] <= |ops|
    requires Accounted(ops, versions[..|versions| - 1], from, limit, c)
    ensures Accounted(ops, versions, from, limit, c)
  {
    var before := versions[..|versions| - 1];
    PagesGrow(ops, versions, from, limit);
    if i: nat :| PrunedOnPage(ops, before, from, limit, c, i) {
      PrunedOnPageLater(ops, versions, from, limit, c, i);
    }
  }

  lemma {:induction false} PagesSkipOnlyPruned(ops: seq<LogOp>, versions: seq<nat>, from: Cursor, limit: nat, c: Cursor)
    requires forall k :: 0 <= k < |versions| ==> versions[k] <= |ops|
    requires from < c <= Position(ops, versions, from, limit)
    ensures Accounted(ops, versions, from, limit, c)
  {
    var n := |versions| - 1;
    var before := versions[..n];
    var mid := Position(ops, before, from, limit);
    if c <= mid {
      PagesSkipOnlyPruned(ops, before, from, limit, c);
      AccountedLater(ops, versions, from, limit, c);
    } else {
      PageAccounts(ops, versions[n], mid, limit, c);
      assert versions[..n + 1] == versions;
      if c <= ReplicaAt(ops, versions[n]).floor {
        assert PrunedOnPage(ops, versions, from, limit, c, n);
      }
    }
  }
}
