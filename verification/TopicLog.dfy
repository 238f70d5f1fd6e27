/** The durable topic log: append with re-stamping, prune from the front, absolute cursors. */
module TopicLogs {
  import opened Base

  type Cursor = nat

  datatype Message = Message(
    cursor: Cursor,
    publisher: string,
    payloadHex: string,
    publishedAt: Time,
    orderingKey: Option<string>,
    attributes: map<string, string>,
    publisherAuthenticated: bool)

  datatype LogOp = Append(message: Message) | PruneTo(upTo: Cursor)

  /** The replicated state: the retained messages and how many were dropped before them. */
  datatype LogState = LogState(messages: seq<Message>, floor: nat)

  const EMPTY: LogState := LogState([], 0)

  /** The messages with a cursor above `from`, in order. */
  function Newer(ms: seq<Message>, from: Cursor): seq<Message> {
    if ms == [] then []
    else if ms[0].cursor > from then [ms[0]] + Newer(ms[1..], from)
    else Newer(ms[1..], from)
  }

  function High(l: LogState): Cursor {
    l.floor + |l.messages|
  }

  function ApplyOp(l: LogState, op: LogOp): LogState {
    match op
    case Append(m) => LogState(l.messages + [m.(cursor := High(l) + 1)], l.floor)
    case PruneTo(upTo) =>
      var kept := Newer(l.messages, upTo);
      LogState(kept, l.floor + SaturatingSub(|l.messages|, |kept|))
  }

  function ApplyAll(l: LogState, ops: seq<LogOp>): LogState {
    if ops == [] then l else ApplyOp(ApplyAll(l, ops[..|ops| - 1]), ops[|ops| - 1])
  }

  function Since(l: LogState, from: Cursor): seq<Message> {
    Newer(l.messages, from)
  }

  function Get(l: LogState, cursor: Cursor): Option<Message> {
    if cursor <= l.floor || cursor > High(l) then None
    else Some(l.messages[cursor - l.floor - 1])
  }

  // ----- the append history the log stands for -----

  /** Every message ever appended by the operations, with the cursor its position gives it. */
  function Appended(ops: seq<LogOp>): seq<Message> {
    if ops == [] then []
    else
      var before, op := Appended(ops[..|ops| - 1]), ops[|ops| - 1];
      if op.Append? then before + [op.message.(cursor := |before| + 1)] else before
  }

  /** The furthest any prune reached, each cut off at the messages that existed at the time. */
  function Cut(ops: seq<LogOp>): nat {
    if ops == [] then 0
    else
      var before, op := ops[..|ops| - 1], ops[|ops| - 1];
      if op.PruneTo? then Max(Cut(before), Min(op.upTo, |Appended(before)|)) else Cut(before)
  }

  ghost predicate Stamped(all: seq<Message>) {
    forall i :: 0 <= i < |all| ==> all[i].cursor == i + 1
  }

  /** `l` retains exactly the appended messages above its floor. */
  ghost predicate Retains(l: LogState, all: seq<Message>) {
    Stamped(all) && l.floor <= |all| && l.messages == all[l.floor..]
  }

  /** On a suffix of a stamped history, filtering by cursor is slicing. */
  lemma {:induction false} NewerIsSlice(all: seq<Message>, lo: nat, from: Cursor)
    requires Stamped(all) && lo <= |all|
    ensures Newer(all[lo..], from) == all[Min(Max(lo, from), |all|)..]
    decreases |all| - lo
  {
    if lo < |all| {
      assert all[lo..][1..] == all[lo + 1..];
      NewerIsSlice(all, lo + 1, from);
    }
  }

  lemma AppendRetains(l: LogState, all: seq<Message>, m: Message)
    requires Retains(l, all)
    ensures Retains(ApplyOp(l, Append(m)), all + [m.(cursor := |all| + 1)])
  {
  }

  lemma PruneRetains(l: LogState, all: seq<Message>, upTo: Cursor)
    requires Retains(l, all)
    ensures Retains(ApplyOp(l, PruneTo(upTo)), all)
    ensures ApplyOp(l, PruneTo(upTo)).floor == Max(l.floor, Min(upTo, |all|))
  {
    NewerIsSlice(all, l.floor, upTo);
  }

  /** For every operation sequence, wrongly stamped appends and out-of-range prunes included. */
  lemma {:induction false} LogRefinesHistory(ops: seq<LogOp>)
    ensures var l, all := ApplyAll(EMPTY, ops), Appended(ops);
            && Retains(l, all)
            && l.floor == Cut(ops)
            && High(l) == |all|
  {
    if ops != [] {
      var before, op := ops[..|ops| - 1], ops[|ops| - 1];
      LogRefinesHistory(before);
      match op
      case Append(m) => AppendRetains(ApplyAll(EMPTY, before), Appended(before), m);
      case PruneTo(upTo) => PruneRetains(ApplyAll(EMPTY, before), Appended(before), upTo);
    }
  }

  /** The indexed lookup finds the k-th message ever appended, exactly when it is not pruned. */
  lemma GetIsTheKthAppended(ops: seq<LogOp>, k: Cursor)
    ensures Get(ApplyAll(EMPTY, ops), k)
            == if Cut(ops) < k <= |Appended(ops)| then Some(Appended(ops)[k - 1]) else None
  {
    LogRefinesHistory(ops);
  }

  /** The replay slice is the appended history after both the requested cursor and the floor. */
  lemma SinceIsTheTail(ops: seq<LogOp>, from: Cursor)
    ensures Since(ApplyAll(EMPTY, ops), from) == Appended(ops)[Min(Max(Cut(ops), from), |Appended(ops)|)..]
  {
    LogRefinesHistory(ops);
    NewerIsSlice(Appended(ops), Cut(ops), from);
  }

  // ----- composing operation sequences -----

  lemma {:induction false} ApplyAllAppend(l: LogState, ops: seq<LogOp>, more: seq<LogOp>)
    ensures ApplyAll(l, ops + more) == ApplyAll(ApplyAll(l, ops), more)
  {
    if more == [] {
      assert ops + more == ops;
    } else {
      var front := more[..|more| - 1];
      assert (ops + more)[..|ops + more| - 1] == ops + front;
      ApplyAllAppend(l, ops, front);
    }
  }

  lemma {:induction false} HistoryGrows(ops: seq<LogOp>, more: seq<LogOp>)
    ensures Appended(ops) <= Appended(ops + more)
    ensures Cut(ops) <= Cut(ops + more)
  {
    if more == [] {
      assert ops + more == ops;
    } else {
      assert (ops + more)[..|ops + more| - 1] == ops + more[..|more| - 1];
      HistoryGrows(ops, more[..|more| - 1]);
    }
  }

  // ----- the log as an object -----

  class TopicLog {
    var messages: seq<Message>
    var floor: nat

    ghost function Model(): LogState
      reads this
    {
      LogState(messages, floor)
    }

    constructor ()
      ensures Model() == EMPTY
    {
      messages, floor := [], 0;
    }

    function HighCursor(): Cursor
      reads this
      ensures HighCursor() == High(Model())
    {
      floor + |messages|
    }

    function NextCursor(): Cursor
      reads this
    {
      HighCursor() + 1
    }

    method Apply(op: LogOp)
      modifies this
      ensures Model() == ApplyOp(old(Model()), op)
    {
      match op
      case Append(m) =>
        messages := messages + [m.(cursor := NextCursor())];
      case PruneTo(upTo) =>
        var before := |messages|;
        messages := Newer(messages, upTo);
        floor := floor + SaturatingSub(before, |messages|);
    }
  }
}
