# A verified model of the ce-pubsub topic owner

ce-pubsub gives each topic one owner. The owner appends every accepted message to a durable log, keeps a
registry of named subscriptions (leases, acks, nacks, delivery attempts, dead letters), deduplicates remote
publishes, and lets replicas pull the log. This project models that owner's logic in Dafny and proves what
its subscribers and publishers rely on, over every run.

Layout, from the bottom up:

- `Base.dfy`: options, saturating clock arithmetic.
- `SubscriptionModel.dfy`: one subscription and the registry as values: every operation and the lease planner.
- `Subscription.dfy`: the same as objects updated in place, loops included, proved against the values.
- `SubscriptionHistory.dfy`: every run of the registry with the history its state summarises: which cursors
  were ever acked or dead-lettered, how often each was leased, how far retention was bridged. Its invariant.
- `DeliveryGuarantees.dfy`, `Draining.dfy`, `AckConfluence.dfy`: the promises to consumers.
- `TopicLog.dfy`, `Replay.dfy`: the log, its append history, replicas, convergence and paging.
- `Dedup.dfy`: the bounded expiring caches: one generic account, two classes.
- `Filter.dfy`: the attribute-filter scanner, the grammar it decides, its errors, a printer, and matching.
- `Owner.dfy`, `OwnerRuns.dfy`: the owner object, and runs of everything together.
- `OwnerRequests.dfy`: what each request does, as its sender sees it: reply, effect, and nothing else.

How the model stands to the program:

- Cursors and attempt counts are unbounded naturals (the program's `u64` and `u32` would have to overflow to
  differ). Times are 64-bit, with the program's saturating addition and subtraction.
- The current time, the verdict of authorisation and size checks, and the replica states a puller observes
  are parameters. That the puller's deadline passes eventually is a precondition of the convergence loop.
- Log operations that other tasks may slip in between two steps of one handler are parameters too, called
  `between`: between reading the next cursor and proposing the append, and between committing a lease and
  reading the leased messages. In runs of the owner any events may come before those messages are read.
  The registry has one writer task, so planning and committing a lease are one step.
- Whether the replication layer accepts a proposal is a parameter, called `lands`.
- A replica is the result of some prefix of the owner's operation sequence.
- Text is a sequence of Unicode characters. The filter scanner compares only with ASCII characters, so
  scanning characters and scanning UTF-8 bytes agree. Trimming uses the Unicode White_Space property.
- The `subs` map of the registry holds objects here; distinct names holding distinct objects is part of its
  validity. `retain` and set or map removal are expressions.

Where the code and its own documentation differ, the model follows the code:

- The acked floor can exceed the high-water mark, because an ack may name any cursor
  (`AckPassesHighExactlyWhen` for one ack, `FloorPassesHighExactlyWhen` over runs, `FloorCanPassHigh` a
  concrete one; `FloorStaysWithinLog` for runs that ack existing cursors).
- Acks commute except for the dead marks left behind (`ConfluentExactlyWhenOrderFree`, `OrderCanBeSeen`).
- A drained subscription's floor can stay below the high-water mark, when the backlog it never saw was
  pruned: a lease that finds nothing does not bridge (`IdleExactlyWhenDrained`, `IdleFloorCanLag`).
- `next_cursor` of an untruncated replay need not be the high-water mark (`NextIsHighExactlyWhen`, `NextCanLag`).
- The cursor returned by a publish is the stored one only if no append slips in between
  (`ReturnedCursorIsStoredExactlyWhen`, `ReturnedCursorCanBeAnothers`).
- A key that expired and came back can be evicted before older keys (`EvictedExactlyWhenOldest`,
  `ReinsertedKeyDiesEarly`).

## Model

| member | source | states |
|---|---|---|
| SubscriptionModel.RunEnd | src/subscription.rs:247-256 | the floor's run is contiguous, inside the handled set, and maximal |
| SubscriptionModel.FoldOneThenAdvance | src/subscription.rs:247-256 | one turn of the folding loop is a step towards the same final state, the short-circuit on a cursor in both sets included |
| SubscriptionModel.Deadline | src/subscription.rs:307 | the deadline in force is the one in 1..=600 nearest to the policy's own |
| SubscriptionModel.SelectIsExact | src/subscription.rs:318-340 | a scanned interval yields exactly its free deliverable (or over-limit) cursors, in increasing order |
| SubscriptionModel.ScanStop | src/subscription.rs:318 | the scan stops at the first place where the batch is full, or past the high-water mark |
| SubscriptionModel.PlannedFloor | src/subscription.rs:353-364 | the planned floor bridges the retention floor and then exactly the contiguous acked or dead run |
| SubscriptionModel.PicksAreTheFirstDeliverables | src/subscription.rs:307-344 | a lease picks the first min(max, 1000) deliverable cursors above floor and retention, in order, and every over-limit one met before the batch filled; dead letters do not count against the batch |
| SubscriptionModel.FreeCursorIsPicked | src/subscription.rs:316-340 | a free cursor is picked whenever fewer than a batch of deliverable ones precede it |
| SubscriptionModel.PickedExactlyWhen | src/subscription.rs:316-340 | a cursor is picked if and only if it is free and within reach of the scan, dead-lettered if over the limit and delivered if not |
| Subscriptions.SubscriptionState.AdvanceAcked | src/subscription.rs:247-256 | the loop that folds acks and dead marks into the floor computes the run end and drops each folded cursor from one set |
| Subscriptions.SubscriptionState.Ack | src/subscription.rs:213-223 | the whole state after an ack |
| Subscriptions.SubscriptionState.Nack | src/subscription.rs:225-231 | the whole state after a nack |
| Subscriptions.SubscriptionState.BuryAll | src/subscription.rs:188-192 | the first loop: each dead-lettered cursor enters the dead set and leaves the leases and attempts, nothing else changes |
| Subscriptions.SubscriptionState.GrantAll | src/subscription.rs:193-204 | the second loop: each leased cursor gets its deadline and one more attempt, in order |
| Subscriptions.SubscriptionState.ApplyLease | src/subscription.rs:187-211 | the dead-letter and grant loops and the floor update of a committed lease, for any operation, duplicates included |
| Subscriptions.SubscriptionState.Scan | src/subscription.rs:307-340 | the scanning loop builds exactly the stamped and numbered picks and the dead list |
| Subscriptions.SubscriptionState.ContiguousFloor | src/subscription.rs:353-364 | the floor-bridging loop ends at the planned floor |
| Subscriptions.SubRegistry.Apply | src/subscription.rs:172-235 | each replicated operation changes the named subscription as defined and no other |
| Subscriptions.SubRegistry.PlanLease | src/subscription.rs:298-379 | the planner, a read-only method, returns the specified operation and outcome, or nothing |
| SubscriptionHistory.StepIsProposeAndApply | src/lib.rs:1049-1063 | runs with history are runs of the replicated registry: plan, propose and apply |
| SubscriptionHistory.ReachableInv | src/subscription.rs:172-256 | the floor, accounting and limit invariants hold of every subscription in every reachable registry |
| SubscriptionHistory.GrantEffect | src/subscription.rs:193-204 | granting a batch adds one attempt and a fresh lease to exactly its cursors |
| SubscriptionHistory.LeaseEffect | src/subscription.rs:187-211 | a planned lease, applied: leases, attempts, dead marks, pending acks and floor, cursor by cursor |
| DeliveryGuarantees.FloorIsLongestHandledPrefix | src/subscription.rs:213-256 | in every reachable state the floor is the longest prefix of acked, dead-lettered or bridged cursors, and only that |
| DeliveryGuarantees.AckPassesHighExactlyWhen | src/subscription.rs:213-223 | from any state, an ack leaves the floor past `high` if and only if every cursor above the floor, up to and including `high + 1`, is marked already or is the one acked |
| DeliveryGuarantees.MapsAlwaysAgree | src/subscription.rs:172-234 | leases and attempts agree, leased cursors are neither acked nor dead, stale leases lie only where retention was bridged, the floor cannot advance further |
| DeliveryGuarantees.NoRedelivery | src/subscription.rs:316-340 | once acked or dead-lettered, a cursor is never delivered or dead-lettered again in that incarnation |
| DeliveryGuarantees.UnsettledIsRedelivered | src/subscription.rs:316-340 | at least once: an unsettled cursor with no live lease is picked by the next lease that reaches it |
| DeliveryGuarantees.NackFreesAtOnce | src/subscription.rs:225-231 | a nack makes its cursor free at any time, keeps its attempts, and frees nothing else |
| DeliveryGuarantees.AttemptNumbersAreExact | src/subscription.rs:193-204 | the attempt number handed out is one more than the deliveries so far and is what gets stored |
| DeliveryGuarantees.OutcomeIsExact | src/subscription.rs:366-378 | the cursors reported for dead-lettering are, in order, exactly the free over-limit ones within reach, those the operation buries and the history gains; the deliveries reported are the operation's, one for one |
| DeliveryGuarantees.DeliveriesAreBounded | src/subscription.rs:331-338 | under a limit m constant over the incarnation: at most m deliveries, at most one dead-lettering, and that after exactly m deliveries; none when m is 0 |
| DeliveryGuarantees.ConstantLimit | src/subscription.rs:175-180 | the limit is m throughout when every policy since the name was last absent says m |
| DeliveryGuarantees.AttemptsCountDeliveries | src/subscription.rs:193-204 | for unsettled cursors the stored count is the number of deliveries |
| DeliveryGuarantees.LeaseIsExclusive | src/subscription.rs:307-330 | no second lease or dead-lettering before the first lease's expiry, nack and delete aside, whatever the clock does |
| DeliveryGuarantees.HeldExactlyUntilDeadline | src/subscription.rs:308-323 | a delivered cursor is held at a time if and only if that is before delivery plus deadline (or the end of 64-bit time) |
| Draining.PotentialBound | src/subscription.rs:331-338 | what the backlog may still cost is at most (m + 1) per cursor above the floor |
| Draining.StepLowersPotential | src/subscription.rs:187-232 | every committed lease lowers that cost; acks, nacks and policy updates never raise it |
| Draining.DrainingTerminates | src/subscription.rs:298-379 | at most (m + 1) * (high - acked) leases commit, for any interleaving |
| Draining.IdleExactlyWhenNothingLeft | src/subscription.rs:342-344 | past every expiry, a lease finds nothing if and only if every cursor above floor and retention is acked or dead |
| Draining.IdleExactlyWhenDrained | src/subscription.rs:342-344 | which, with no pruned backlog, is if and only if the floor has reached the high-water mark; otherwise an idle floor lags exactly when it is below retention |
| Draining.IdleFloorCanLag | src/subscription.rs:342-344 | a concrete idle subscription whose floor lags |
| Draining.PatientConsumerDrains | examples/end_to_end.rs:101-125 | a consumer that only keeps leasing, and never acks, sees every cursor above retention settled within that many leases, and the floor at the high-water mark unless it ends below retention |
| AckConfluence.AcksClosedForm | src/subscription.rs:213-223 | floor, pending acks, leases and attempts after any acks depend only on the set of cursors acked |
| AckConfluence.AcksCommute | tests/prop_subscription.rs:114-140 | any two orders, with any repetitions, agree on those, and on the whole state when the set is order-free |
| AckConfluence.ConfluentExactlyWhenOrderFree | src/subscription.rs:247-256 | all orders give the same whole state if and only if no newly acked dead cursor will be passed by the floor |
| AckConfluence.OrderCanBeSeen | src/subscription.rs:250 | a run after which two orders of the same acks leave different states |
| TopicLogs.TopicLog.Apply | src/log.rs:43-61 | append with re-stamping, and prune, in place |
| TopicLogs.NewerIsSlice | src/log.rs:100-106 | filtering a stamped history by cursor is taking a tail |
| TopicLogs.LogRefinesHistory | src/log.rs:43-75 | for every operation sequence: retained messages are the history above the floor, the floor is the furthest cut-off prune, the high-water mark counts all appends |
| TopicLogs.GetIsTheKthAppended | src/log.rs:116-122 | lookup returns the k-th message ever appended if and only if it exists and is not pruned |
| TopicLogs.SinceIsTheTail | src/log.rs:100-106 | the replay slice is the appended history above both cursor and floor |
| Replays.ConvergeTo | src/lib.rs:349-389 | the loop ends in the first round that shows the target or passes the deadline, and reports convergence if and only if its looks up to then reached the target |
| Replays.PullLimited | src/lib.rs:266-314 | the replay returned is the specified page of the replica, with an honest convergence flag |
| Replays.ReplicasAgree | src/lib.rs:276-282 | two replicas agree, with the owner, on every cursor both retain |
| Replays.PullIsHonest | src/lib.rs:284-303 | converged implies nothing missing, and every cursor up to the target is in an untruncated replay with the owner's content or at or below the reported floor |
| Replays.PageIsHonest | src/lib.rs:291-298 | each message on a page is the owner's, under its own consecutive cursor |
| Replays.MissingCountsTheShortfall | src/lib.rs:299-303 | `missing` is the number of cursors up to the target the replica has not had, so 0 if and only if it has had them all; 0 without a target |
| Replays.PageReportsItsVersion | src/lib.rs:288-313 | the high mark, floor, target and convergence fields report the version read and what was asked |
| Replays.PageByPosition | src/lib.rs:291-298 | any page is the next slice of the history above cursor and floor, of at most the clamped limit, and continues from its end |
| Replays.NextIsHighExactlyWhen | src/lib.rs:298 | an untruncated page's continuation is the high-water mark if and only if it is not empty or the caller was there already |
| Replays.NextCanLag | src/lib.rs:298 | a concrete log where it is not |
| Replays.PagesConcatenateToSince | src/lib.rs:291-298 | on a fixed log, following the continuation ends and gives exactly the one replay, for every page limit |
| Replays.PagesStayInOrder | src/lib.rs:291-298 | with appends and prunes between pages, cursors stay strictly increasing and within the span covered |
| Replays.PagesSkipOnlyPruned | src/lib.rs:291-298 | every cursor moved past was returned with the owner's content or was pruned when its page was read |
| Caches.FirstLive | src/dedup.rs:75-82 | the eviction victim is the first queued key that is live |
| Caches.FoundExactlyWhen | src/dedup.rs:52-65 | an entry is found if and only if present and no older than the time to live, or at any age if that is 0 |
| Caches.FullQueueIsNotEmpty | src/dedup.rs:75-82 | the eviction loop's empty-queue branch is unreachable |
| Caches.EvictsExactlyOne | src/dedup.rs:68-85 | a fresh insert into a full cache costs exactly one live entry, otherwise none |
| Caches.PopTowardsRoom | src/dedup.rs:75-82 | each popped key is a step towards the same evicted cache |
| Caches.HitsAreTrue | src/dedup.rs:52-85 | after any operations the cache is within capacity, and a hit is the value last inserted for the key, within the time to live |
| Caches.SurvivesPressure | src/dedup.rs:68-85 | a live key survives until `capacity` fresh inserts follow its first place in the queue (its own insert, when queued once), expired clutter and refreshes included |
| Caches.SurvivesUnchanged | src/dedup.rs:68-85 | and with its value and time, unless put again itself |
| Caches.EvictedExactlyWhenOldest | src/dedup.rs:75-82 | a live key goes at a fresh insert if and only if the cache is full and nothing live is queued before its first place |
| Caches.LastPlaceBeforeEviction | src/dedup.rs:75-82 | with nothing expired in the queue, that is if and only if `capacity - 1` keys are queued behind it |
| Caches.PressureBoundIsSharp | src/dedup.rs:68-85 | one fresh insert more than the survival bound allows, and the key is gone |
| Caches.ReinsertedKeyDiesEarly | src/dedup.rs:56-57 | a key queued twice can go earlier |
| Dedup.IdempotencyCache.Get | src/dedup.rs:52-65 | lookup with lazy expiry |
| Dedup.IdempotencyCache.Insert | src/dedup.rs:68-85 | refresh in place or evict-and-append, loop included |
| Dedup.TokenSet.Seen | src/dedup.rs:123-141 | look up, and record when absent or expired, loop included |
| Filters.ScanClause | src/message.rs:250-285 | the scanning loops of one clause, with their errors in the code's order |
| Filters.ScanFilter | src/message.rs:233-289 | the whole scanner, on every input, computes the specified parse |
| Filters.KeyExactlyWhen | src/message.rs:258-261 | what stands before the `=` yields key `k` if and only if it is `k` after the prefix, or `k` itself, within white space; `k` itself only if it does not begin like the prefix or with white space |
| Filters.ParsesExactlyWhen | src/message.rs:233-289 | a text parses as a clause list if and only if, trimmed, it spells those clauses in turn: prefix or none, one `=` or two, any ASCII space before the quote, any white space around keys |
| Filters.FailsExactlyWhen | src/message.rs:254-285 | each of the four errors, and its key, is reported if and only if the text spells some clauses and what follows fails in just that way |
| Filters.PrefixedSpelling | src/message.rs:230-232 | every expressible clause can be written after the prefix, in every spacing |
| Filters.PlainSpellingExactlyWhen | src/message.rs:230-232 | and without it if and only if the key does not begin like the prefix or with white space |
| Filters.SpaceIsWhite | src/message.rs:244-246 | ASCII white space is the ASCII part of White_Space without the vertical tab |
| Filters.PrintThenParse | src/message.rs:230-289 | printing and parsing gives back a clause list if and only if keys are non-empty, free of `=` and of trailing white space, and values free of quotes |
| Filters.RoundTrip | src/message.rs:230-289 | every accepted text has a canonical form with the same clauses, and its clauses are such |
| Filters.SatisfiableExactlyWhen | src/message.rs:223-229 | some message matches a filter if and only if no two clauses want different values of one key |
| Owners.SameKeyExactlyWhen | src/lib.rs:796-799 | two requests share a dedup key if and only if their idempotency keys agree, or both lack one and their tokens agree, or one's key reads `tok:` and the other's token |
| Owners.Topic.AppendAndFanout | src/lib.rs:709-724 | the cursor is read first and the append lands, if it does, after whatever came in between |
| Owners.Topic.HandleIngest | src/lib.rs:784-865 | malformed, duplicate, rejected, failed and accepted requests: reply, log and cache |
| Owners.Topic.CommitLease | src/lib.rs:1053-1063 | plan against the current log and propose what was planned; a refused proposal changes nothing |
| Owners.Topic.HandleLease | src/lib.rs:1049-1084 | unknown subscription, nothing to do, refused proposal, or commit and resolve: reply, registry and log |
| Owners.Topic.HandleControl | src/lib.rs:957-1045 | every control request's reply and effect, refused proposals included |
| Owners.Topic.ServeControl | src/lib.rs:930-949 | a frame whose token was handled has no reply and no effect |
| OwnerRuns.RunInv | src/lib.rs:749-1084 | over every run: the log is its history, the caches are bounded, subscriptions speak only of cursors the log has had |
| OwnerRequests.PublishIsStored | src/lib.rs:709-724 | a publish appends its own message, whole, under the next cursor |
| OwnerRequests.PruneRaisesFloor | src/lib.rs:728-735 | a prune raises the floor as far as there are messages and forgets none of the history |
| OwnerRequests.AcceptedIsStored | src/lib.rs:784-865 | a new accepted request's own message is appended last, and the reply is its cursor if nothing is appended in between |
| OwnerRequests.OthersStoreNothing | src/lib.rs:784-865 | malformed, duplicate, refused and failed requests append nothing of their own, with their replies |
| OwnerRequests.AcceptedStaysStored | src/lib.rs:784-827 | in every later state the log has that message at the replied cursor until it is pruned |
| OwnerRequests.ReadsChangeNothing | src/lib.rs:957-1022 | high-mark and list requests answer truly and change nothing; undecodable or unauthorised ones are rejected |
| OwnerRequests.UnknownIsRejected | src/lib.rs:1023-1052 | acks, nacks and pulls of an unknown subscription are rejected without effect |
| OwnerRequests.RefusedProposalIsRejected | src/lib.rs:1005-1065 | requests whose proposal is refused are rejected without effect |
| OwnerRequests.CreateTakesEffect | src/lib.rs:993-1013 | a create is accepted if and only if deadline, name and room allow; then the new policy is in force, in a fresh subscription or in the existing one as it stood |
| OwnerRequests.DeleteTakesEffect | src/lib.rs:1014-1019 | the named subscription, and only it, is gone |
| OwnerRequests.AckTakesEffect | src/lib.rs:1026-1034 | the acked cursor is settled, its lease and attempts dropped, the floor advanced over what is then contiguous; nothing else |
| OwnerRequests.NackTakesEffect | src/lib.rs:1035-1043 | the nacked cursor is free at any time; nothing else |
| OwnerRequests.PullTakesEffect | src/lib.rs:1049-1084 | exactly the cursors due at that time, against the whole log, for as many messages as asked, are leased or dead-lettered, and the leased ones returned |
| OwnerRuns.NoSilentLoss | src/lib.rs:1049-1084 | every cursor at or below a floor was acked, dead-lettered, or is at or below the log's current floor |
| OwnerRuns.PullRepliesWithWhatWasLeased | src/lib.rs:1071-1083 | whatever events come meanwhile, a pull replies with the planned cursors in order, each with the originally appended message and attempt number, less those pruned meanwhile |
| OwnerRuns.NothingLeasedIsLost | src/lib.rs:1071-1083 | if the floor did not move meanwhile, every leased message is in the reply, one for one |
| OwnerRuns.ReturnedCursorIsStoredExactlyWhen | src/lib.rs:709-724 | the returned cursor is where the message is stored if and only if no append landed in between |
| OwnerRuns.ReturnedCursorCanBeAnothers | src/lib.rs:709-724 | a concrete race in which the returned cursor is another message's |
| OwnerRuns.DuplicatesNameTheirOwnMessage | src/lib.rs:801-811 | a duplicate's reply names the last message ingested under the same key, and changes nothing |
| OwnerRuns.KeptUnlessLost | src/dedup.rs:52-85 | an entry neither found expired nor evicted stays as it is, and nothing is appended under its key |
| OwnerRuns.TwoAppendsNeedALoss | src/lib.rs:784-827 | in every run, between two appends under one key some event found the entry the first one left expired, or evicted it |
| OwnerRuns.IngestAppendsOncePerHorizon | src/lib.rs:784-827 | within the time to live and while fewer other misses come than the queue leaves room for, a retry of any missed key gets the first reply, cursor or rejection, and changes nothing |
| OwnerRuns.NewKeyHasNoneBehind | src/dedup.rs:83-84 | for a key not queued before, that room is the whole 16384 |
| OwnerRuns.ControlFrameHandledOnce | src/lib.rs:928-945 | within the same horizon, for new and returning tokens, a re-delivered control frame changes nothing at all |
| OwnerRuns.SubscriptionsAreBounded | src/lib.rs:1001-1003 | no run holds more than 10000 subscriptions |
| OwnerRuns.FloorPassesHighExactlyWhen | src/lib.rs:1026-1034 | over every run, a floor is past the high-water mark if and only if the next cursor to be published was acked and everything published is acked, dead-lettered or bridged |
| OwnerRuns.FloorCanPassHigh | src/lib.rs:1026-1034 | a concrete run in which it is, after an ack that names an existing cursor |
| OwnerRuns.FloorStaysWithinLog | src/lib.rs:1026-1034 | never so in runs whose acks name existing cursors |

## Left out

- OwnerRuns.DuplicatesNameTheirOwnMessage: assumes that no other append lands between an ingest's reading of the cursor and its append; ReturnedCursorIsStoredExactlyWhen says exactly what happens otherwise.
- OwnerRuns.NoSilentLoss: speaks of the log's floor, not of whether a dead-lettered message reached the dead-letter topic, which is best effort in the program.
- Proposals that fail with an error and still take effect later; a refused proposal has none here.
- The mesh transport, polling loops, live fan-out, shutdown and the quiet-window wait of a pull without a target; only their order of state steps is kept.
- The replication layer, its snapshots and checkpoints; a replica is taken to be a prefix of the owner's operations.
- Capability chains and their revocation; a request arrives accepted or refused.
- JSON and hex encodings, size and name validators, the builders and the command line.
- Error message texts; the kinds of error and their order are kept.
- Control requests served while an ingest request waits to append; only log operations come in between there.
