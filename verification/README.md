# OSA runtime and control plane: protocol and algorithm proofs

This project models the parts of OSA whose correctness depends on interleavings, on fencing or on
exact text, and proves what they promise.

- **A2A task ownership** (`A2a*.dfy`). Replicas share one ownership row per task, one task row and an
  append-only event log. The stores are classes whose methods are proved against functions on the
  row, the log and the call context. `A2aProtocol` is the executor as a state machine over all calls
  of one task: a step is one database transaction or one local action between two awaits, clock
  readings are arbitrary integers, and exceptions, timeouts, crashes, heartbeats and the SDK's
  background consumer are steps like any other. A run is any sequence of steps. `A2aSafety` and
  `A2aRuns` prove one inductive invariant, `A2aTheorems` reads the results off it, `A2aConduct` says what
  each call does by the row, the task and the trace alone, `A2aExecution` what an undisturbed call
  achieves, `A2aClosing` how an executor leaves its task, `A2aGrowth` what settles the log and the task,
  `A2aRelay` streams the log while the rest of the system keeps moving, `A2aEndings` says how streams
  over closed rows end, and `A2aLimits` holds concrete runs for the stronger claims that fail.
- **Deployment operation leases** (`DeploymentLeases.dfy`, `OwnedOperation.dfy`). One abstract lease
  machine, two stores that simulate it, the guarded record upsert and the acquire/heartbeat/release
  bracket.
- **Algorithms**: `RateLimit`, `MemoryEviction`, `JsonlLog`, `LikeEscape`, `MetricText`, `Redaction`,
  `BundleExport`. Each imperative part is a method with its loops; what it means is a theorem about
  the function it computes.

`dafny verify dfyconfig.toml` checks everything. `Prelude.dfy`, `Strings.dfy` and `Ordering.dfy` hold shared
datatypes, sequence facts, string operations and sorting.

## What turned out false

Each of these is a lemma that names the run or input. Beside it stands what is true of every run or
input, with the condition under which the claim holds.

- A finalizer's outcome is not safe from its own worker. From every run in which a finalizer is about to
  release, a cancel request served by the same worker can bind its fence and write another final state,
  and the row then closes with the finalizer's (`A2aGrowth.FinalizerCanBeOverwritten`;
  `A2aLimits.LocalCancelOverwritesTheOutcome` reaches such a run with two cancel requests that both began
  before the task was final). With the finalizer as sole writer at its fence the outcome is safe
  (`A2aTheorems.FinalizerKeepsTheOutcome`). In general the durable task is settled, in every continuation,
  if and only if the row is terminal (`A2aGrowth.OutcomeIsFixedIffTerminal`).
- The ownership row can become `canceled` although the task stays `submitted` for ever
  (`A2aLimits.InterruptedExecutorStrandsTheTask`, `A2aLimits.ExpiredLeaseStrandsTheTask`). In every run
  an executor that closes the row has a status event in the log if and only if it did not leave before one
  was queued, and it is the status of the row's state unless it left undecided: interrupted, or on its way
  to the finally block with nothing decided (`A2aClosing.ClosedRowHasItsStatusIff`). Rows that an
  executor completed or failed always have theirs, so every stream over their log ends on a terminal event
  (`A2aEndings.AnnouncedRowEndsItsStream`).
- A task can be invoked again by the next owner (`A2aLimits.UnsavedTaskCanBeInvokedTwice`): a reclaiming
  call executes if and only if the task was never written (`A2aTheorems.ReclaimedTaskRunsIffUnwritten`).
- A relay that ends on a closed row can miss later events (`A2aEndings.RelayLeavesReleasedRow`, for every
  run with a released row). What it yielded is everything that will ever be appended if and only if the
  row is terminal (`A2aEndings.RowClosedIsCompleteIff`).
- Loss of a deployment lease is not permanent when database clocks are read out of order. It is permanent
  if and only if the lease no longer held the key or no heartbeat reads a clock before its expiry
  (`DeploymentLeases.LossIsPermanentIff`).
- A scope built from a tenant and a subject does not always resolve to the tenant. It does if and only if
  `:subject:` does not begin earlier in the tenant followed by `:subject:`
  (`A2aEventStore.ScopeResolvesToItsTenantIff`).
- Deployment exclusivity is per key: `deploy` and `rollback` lock different keys and can both write one
  record (`OwnedOperation.TwoKeysWriteOneRecord`). After a bracket the writes of a record are its own if
  and only if none was accepted under another key (`OwnedOperation.RecordIsOwnIff`).
- Pruning of rate-limit rows can show in the decisions (`RateLimit.LaggingClockSeesPruning`). For every
  valid configuration and every request stream it does if and only if the capacity is at least one and some
  request returns to a clock window whose row was pruned (`RateLimit.DecisionsShowPruningIff`), which needs
  a clock that lags by more than one window.
- Scope ids that contain `:` can overlap, so a limit on one user evicts another's entries
  (`MemoryEviction.ColonIdsOverlap`). They overlap exactly when one id extends the other at a colon
  (`MemoryEviction.ScopesOverlapIff`).
- An agent whose enabled memory names the empty policy exports but does not load; this is the only such
  agent (`BundleExport.ExportThenServe`).
- The audit page drops the line of a series without name and labels, and only that line
  (`MetricText.PageIsCompleteIff`).
- Two series can print a line with the same name and labels (`MetricText.CounterCollidesWithDuration`).
  They do if and only if their labels are equal and one carries the name of a line of the other, a
  duration series (`MetricText.SeriesPrintAlikeIff`).
- The list of redacted fields can hold one text for two positions. It does not when every key is non-empty
  and free of `.` and `[` (`Redaction.PathTextsAreUnique`, `Redaction.PlainListsAreUnambiguous`), and none of
  the three conditions can be dropped (`Redaction.EmptyKeysCollide`, `Redaction.DottedKeysCollide`,
  `Redaction.BracketedKeysCollide`).

## Model

| member | source | states |
|---|---|---|
| A2aOwnership.A2aTaskOwnershipStore.Acquire | runtimes/adk/src/osa/runtimes/adk/a2a_ownership.py:119-203 | on the rows themselves: refused, and nothing changed, exactly when the task has a row that is of a foreign scope, terminal, or running with an expiry ahead of the clock; otherwise only this row changes, to running for this worker, at fence 1 or one fence up with session and cancellation inherited, and the answer is its snapshot |
| A2aOwnership.A2aTaskOwnershipStore.Heartbeat | runtimes/adk/src/osa/runtimes/adk/a2a_ownership.py:205-223 | succeeds exactly on a running row of the scope, owner and fence, without testing expiry, and then extends its lease from now and changes nothing else |
| A2aOwnership.A2aTaskOwnershipStore.CheckOwned | runtimes/adk/src/osa/runtimes/adk/a2a_ownership.py:225-270 | the guard of every fenced write: scope, owner, fence, running and an unexpired lease, after the snapshot was validated |
| A2aOwnership.A2aTaskOwnershipStore.RequestCancel | runtimes/adk/src/osa/runtimes/adk/a2a_ownership.py:276-292 | records a cancellation only on a running row of the caller's scope |
| A2aOwnership.A2aTaskOwnershipStore.BindSession | runtimes/adk/src/osa/runtimes/adk/a2a_ownership.py:294-311 | stores the session exactly on a running row of the scope, owner and fence, and changes nothing else |
| A2aOwnership.A2aTaskOwnershipStore.Release | runtimes/adk/src/osa/runtimes/adk/a2a_ownership.py:313-336 | clears owner and lease, sets the state and keeps the snapshot's cancellation unless it only releases, exactly on a row of the scope, owner and fence, without testing expiry; an unknown state or `running` is refused before the transaction |
| A2aOwnership.RunningIffOwnedAndLeased | runtimes/adk/src/osa/runtimes/adk/a2a_ownership.py:164-203 | in every reachable row, running holds exactly when owner and lease are recorded |
| A2aOwnership.TerminalRowIsFrozen | runtimes/adk/src/osa/runtimes/adk/a2a_ownership.py:205-336 | no sequence of operations of any workers with any snapshots and clocks changes a completed, failed or canceled row |
| A2aOwnership.FenceNeverFalls | runtimes/adk/src/osa/runtimes/adk/a2a_ownership.py:167-203 | fences never decrease and the scope of a row never changes |
| A2aOwnership.ReleasedFenceIsSpent | runtimes/adk/src/osa/runtimes/adk/a2a_ownership.py:313-336 | after a successful release no snapshot with that fence or an older one is ever accepted again |
| A2aOwnership.CancelSurvivesUntilRelease | runtimes/adk/src/osa/runtimes/adk/a2a_ownership.py:276-336 | a recorded cancellation survives heartbeats, session binds and takeovers until a release succeeds |
| A2aOwnership.SessionSurvivesUntilRebound | runtimes/adk/src/osa/runtimes/adk/a2a_ownership.py:294-311 | a bound session survives every operation, takeovers and releases included, until another bind is accepted |
| A2aOwnership.BoundSessionIsHandedOver | runtimes/adk/src/osa/runtimes/adk/a2a_ownership.py:178-203 | whoever acquires the task next gets the last bound session in its snapshot |
| A2aOwnership.LeaseExcludesIff | runtimes/adk/src/osa/runtimes/adk/a2a_ownership.py:164-203 | as long as nobody releases, a running row keeps its fence and owner, whatever operations come, if and only if every acquire of its scope reads a clock before the expiry recorded at that time |
| A2aEventStore.A2aTaskEventStore.AppendOnConnection | runtimes/adk/src/osa/runtimes/adk/a2a_event_store.py:143-185 | inserts one row numbered one above the highest number of this tenant's task, or 1; refuses malformed events without writing; no reader of another task, or of another tenant's task of the same name, sees a difference; every log of the table stays numbered 1..n |
| A2aEventStore.A2aTaskEventStore.AppendIfOwned | runtimes/adk/src/osa/runtimes/adk/a2a_event_store.py:102-141 | appends only while the lease is held, and says which of the three outcomes happened |
| A2aEventStore.A2aTaskEventStore.ReadAfter | runtimes/adk/src/osa/runtimes/adk/a2a_event_store.py:187-217 | a page holds, in ascending order, only rows of the table with the asked tenant and task beyond the cursor, and every such row unless the page is full and the row comes later; on a numbered log it is the slice after the cursor |
| A2aEventStore.AppendKeepsNumbering | runtimes/adk/src/osa/runtimes/adk/a2a_event_store.py:158-185 | allocating maximum plus one keeps all logs of all tenants and tasks gapless |
| A2aEventStore.PageIsSlice | runtimes/adk/src/osa/runtimes/adk/a2a_event_store.py:187-217 | ordering by sequence with a limit, on a numbered log, gives the next rows without gap, repetition or reorder |
| A2aEventStore.ScopeResolvesToItsTenantIff | runtimes/adk/src/osa/runtimes/adk/a2a_event_store.py:266-274 | a scope built from a tenant and a subject resolves to that tenant, whatever the subject contains, if and only if the subject mark does not begin earlier in the tenant followed by the mark |
| A2aEventStore.TenantIsGivenOrScope | runtimes/adk/src/osa/runtimes/adk/a2a_event_store.py:266-274 | a valid tenant given with the call is taken, an invalid one refused, and a scope that names no tenant is its own |
| A2aEventStore.EventTypesAre | runtimes/adk/src/osa/runtimes/adk/a2a_event_store.py:260-263 | accepted event types are the names of 1 to 64 characters that begin with a letter or underscore |
| A2aTaskStore.CallContext.BindTaskEvent | runtimes/adk/src/osa/runtimes/adk/a2a_task_store.py:56-72 | queueing keeps "durable events followed by pending events are the queued events" |
| A2aTaskStore.CallContext.ConsumeTaskEvent | runtimes/adk/src/osa/runtimes/adk/a2a_task_store.py:209-216 | removes the head only when it is the event that was saved |
| A2aTaskStore.FencedDatabaseTaskStore.Operation | runtimes/adk/src/osa/runtimes/adk/a2a_task_store.py:123-143 | inside the fenced transaction the event append and the task write happen together or not at all |
| A2aTaskStore.FencedDatabaseTaskStore.Save | runtimes/adk/src/osa/runtimes/adk/a2a_task_store.py:105-145 | a replay writes nothing and passes exactly while the database holds the replayed task of this owner; a write passes exactly under the bound snapshot with a live lease and an acceptable head event, and then stores this task and appends that event as the next number under the fence; a refused save writes and consumes nothing, nothing of any other task changes, and no event is lost or duplicated |
| A2aRuns.EveryRunIsSafe | runtimes/adk/src/osa/runtimes/adk/a2a.py:200-508 | the protocol invariant (trace, store and every call) holds after every interleaving of steps |
| A2aRuns.OneCallMoved | runtimes/adk/src/osa/runtimes/adk/a2a_ownership.py:225-270 | a transaction of one call keeps the invariant of every other call |
| A2aConduct.StopCheckFollowsTheRow | runtimes/adk/src/osa/runtimes/adk/a2a.py:236-318 | in every run, at the three checks of `execute` and in its handler: under a live own lease with a recorded cancellation exactly a CANCELED status is queued, nothing is invoked and the call is on its way to close as canceled; without a live own lease it leaves with nothing queued; otherwise it goes on |
| A2aConduct.DecisionIsKept | runtimes/adk/src/osa/runtimes/adk/a2a.py:236-304 | a call that has published its status closes as that state in every continuation without an exception or interrupt of its own, and releases as nothing else |
| A2aConduct.FinallyFollowsTheRow | runtimes/adk/src/osa/runtimes/adk/a2a.py:276-304 | whoever leaves undecided closes as canceled exactly when a cancellation is recorded then, a decision stands, and the release waits for the drain |
| A2aConduct.DisturbancesReachTheirHandler | runtimes/adk/src/osa/runtimes/adk/a2a.py:236-304 | an exception or interrupt inside the try block reaches its handler, inside a handler the finally block with nothing decided, and no database is touched |
| A2aConduct.ClaimFollowsTheRow | runtimes/adk/src/osa/runtimes/adk/a2a.py:320-368 | in every run a call claims the row exactly when it is available to its scope, changes nothing else, and goes on to execute, to read what its predecessor left, or to finalize |
| A2aConduct.HeartbeatFollowsTheRow | runtimes/adk/src/osa/runtimes/adk/a2a_ownership.py:205-223 | in every run a heartbeat renews exactly the running row that still names its call |
| A2aConduct.BindFollowsTheRow | runtimes/adk/src/osa/runtimes/adk/a2a.py:258-262 | a session is bound under the call's fence or the call leaves with nothing decided; an invalid session counts as an exception |
| A2aConduct.RequestFollowsTheRow | runtimes/adk/src/osa/runtimes/adk/a2a.py:544-546 | a cancel request is recorded exactly on a running row of its scope |
| A2aConduct.RequestsStartCalls | runtimes/adk/src/osa/runtimes/adk/a2a.py:200-212 | a request with valid identifiers starts a call with nothing bound, queued or replayed, and no step touches another call |
| A2aConduct.SaveFollowsTheRow | runtimes/adk/src/osa/runtimes/adk/a2a_task_store.py:105-145 | in every run the consumer's save stores the task and appends the head event exactly when the bound snapshot is live, the event acceptable and nothing is being replayed, and else changes nothing |
| A2aConduct.FinalizeFollowsTheTask | runtimes/adk/src/osa/runtimes/adk/a2a.py:394-425 | a finalizer takes a final task to the release as it is and first gives any other up, as canceled or failed, if its lease is live; otherwise it ends without a trace |
| A2aConduct.ReleaseFollowsTheRow | runtimes/adk/src/osa/runtimes/adk/a2a_ownership.py:313-336 | the release closes the row exactly while it names the call's fence, and a finalizer replays what it released or found final |
| A2aConduct.LiveLeaseExcludes | runtimes/adk/src/osa/runtimes/adk/a2a_ownership.py:164-170 | from every run with a running row: until somebody releases, owner and fence stay and nothing is granted, in every continuation whose acquires read clocks before the recorded expiry |
| A2aConduct.ReplaysWereDurable | runtimes/adk/src/osa/runtimes/adk/a2a.py:343-392 | in every run a call replays only a task that the database held for its scope |
| A2aConduct.WaitingFollowsTheTask | runtimes/adk/src/osa/runtimes/adk/a2a.py:341-368 | a waiting call replays a final task of its scope; without one the row decides whether it claims, waits on or stops |
| A2aConduct.CancelReadFollowsTheRow | runtimes/adk/src/osa/runtimes/adk/a2a.py:547-570 | a cancel call publishes exactly when its own worker owns the row, under that snapshot, or when there is no row of its scope, under none |
| A2aConduct.WaitingCancelPublishesNothing | runtimes/adk/src/osa/runtimes/adk/a2a.py:429-508 | a cancel call that has to wait queues no event in any continuation |
| A2aConduct.TakeoverFollowsTheRow | runtimes/adk/src/osa/runtimes/adk/a2a.py:456-465 | a waiting cancel call tries to take over exactly a row of another worker that is not running or past its lease |
| A2aExecution.ExecutionFinishes | runtimes/adk/src/osa/runtimes/adk/a2a.py:200-304 | from every run in which a call is about to execute under a live lease with no cancellation recorded, its own steps invoke the agent, close the row as completed or as failed by the agent's answer, leave the durable task the consumer arrived at, bind the session, and add exactly its events to the log, in order |
| A2aExecution.TakeoverFinishes | runtimes/adk/src/osa/runtimes/adk/a2a.py:394-508 | from every run in which a call took over a durable task under a live lease, its three steps close the row with the state of that task, final as found or given up as canceled or failed, replay exactly it, and leave the log alone |
| A2aTheorems.EveryCommitCarriesTheLatestFence | runtimes/adk/src/osa/runtimes/adk/a2a_ownership.py:119-270 | for arbitrary clocks the k-th grant is fence k, and every fenced commit carries the fence of the latest grant before it |
| A2aTheorems.CommitsFollowFenceOrder | runtimes/adk/src/osa/runtimes/adk/a2a_ownership.py:119-270 | task writes, appends, heartbeats, binds and releases commit in non-decreasing fence order; a grant is strictly above everything before it |
| A2aTheorems.ReleaseEndsTheFence | runtimes/adk/src/osa/runtimes/adk/a2a_ownership.py:313-336 | a release succeeds at most once per grant and nothing commits under its fence afterwards |
| A2aTheorems.WrittenTaskIsNeverReplayed | runtimes/adk/src/osa/runtimes/adk/a2a.py:200-246 | once the task was written under a fence, no agent is invoked under any later fence, in any run |
| A2aTheorems.OneInvocationPerFence | runtimes/adk/src/osa/runtimes/adk/a2a.py:200-246 | each fence starts at most one invocation, by the call it was granted to |
| A2aTheorems.ReclaimedTaskRunsIffUnwritten | runtimes/adk/src/osa/runtimes/adk/a2a.py:320-368 | in every run a reclaiming call goes on to execute if and only if the task was never written, and otherwise finalizes what it reads |
| A2aTheorems.EventLogIsOrdered | runtimes/adk/src/osa/runtimes/adk/a2a_event_store.py:143-185 | after every run the log is numbered 1..n with non-decreasing fencing epochs |
| A2aTheorems.EventsAreDurableExactlyOnce | runtimes/adk/src/osa/runtimes/adk/a2a_task_store.py:56-216 | after every run the log is an interleaving of the calls' queues: for each call its rows in log order followed by its pending events are exactly the events it queued |
| A2aTheorems.TerminalRowFreezesEverything | runtimes/adk/src/osa/runtimes/adk/a2a_ownership.py:225-336 | once the row is terminal, row, task and log are the same after any further run |
| A2aTheorems.FinalizerKeepsTheOutcome | runtimes/adk/src/osa/runtimes/adk/a2a.py:394-508 | a finalizer that still owns its fence and is its sole writer releases with exactly the durable outcome: the terminal task it read, or CANCELED or FAILED by the acquired cancel flag; no later step changes it |
| A2aTheorems.CancelFlagFollowsTheTrace | runtimes/adk/src/osa/runtimes/adk/a2a_ownership.py:276-336 | in every run the cancel flag is set by a request and reset only by a release, and running means owned and leased |
| A2aTheorems.LogOnlyGrows | runtimes/adk/src/osa/runtimes/adk/a2a_event_store.py:143-185 | no step removes or rewrites an event |
| A2aClosing.ReleaseIsDrained | runtimes/adk/src/osa/runtimes/adk/a2a.py:293-304 | in every run an executor that is about to release has every event it ever queued in the log, in order, and nothing pending |
| A2aClosing.StatusIsDurableIff | runtimes/adk/src/osa/runtimes/adk/a2a.py:246-304 | at the release the last durable event of the executor is a status if and only if it did not leave before one was queued, also when it is interrupted while the SDK queue takes an event; unless it left undecided, that status is the one of the state it closes with; a completed or failed close never left undecided, a mere release always did |
| A2aClosing.ClosedRowHasItsStatusIff | runtimes/adk/src/osa/runtimes/adk/a2a.py:246-304 | whoever makes the row terminal in any run is a finalizer, or an executor with all its events in the log; the last of them is a status if and only if the executor did not leave before one was queued, and the status of the row's state unless it left undecided, which completed and failed rows exclude |
| A2aGrowth.OpenLogCanGrow | runtimes/adk/src/osa/runtimes/adk/a2a_ownership.py:164-203 | from every run whose row is not terminal some continuation appends any given number of events |
| A2aGrowth.LogIsCompleteIffTerminal | runtimes/adk/src/osa/runtimes/adk/a2a_event_relay.py:107-113 | for every run with a row: no continuation appends anything if and only if the row is terminal |
| A2aGrowth.OutcomeIsFixedIffTerminal | runtimes/adk/src/osa/runtimes/adk/a2a_ownership.py:225-336 | for every run with a row: the durable task is the same in every continuation if and only if the row is terminal |
| A2aGrowth.FinalizerCanBeOverwritten | runtimes/adk/src/osa/runtimes/adk/a2a.py:527-566 | from every run in which a finalizer is about to release a fence it still owns, a cancel request served by its worker can write another final state under that fence, after which the row closes with the finalizer's |
| A2aLimits.UnsavedTaskCanBeInvokedTwice | runtimes/adk/src/osa/runtimes/adk/a2a.py:320-368 | a run in which two fences both invoke the agent because no task row was ever written |
| A2aLimits.LocalCancelOverwritesTheOutcome | runtimes/adk/src/osa/runtimes/adk/a2a.py:527-566 | such a run is reachable: one worker serves two cancel requests, both from before the task was final, no coroutine is cancelled, the row says completed and the durable task canceled |
| A2aLimits.InterruptedExecutorStrandsTheTask | runtimes/adk/src/osa/runtimes/adk/a2a.py:246-305 | a run with an interrupt after which the row is canceled and the task stays submitted through every continuation |
| A2aLimits.ExpiredLeaseStrandsTheTask | runtimes/adk/src/osa/runtimes/adk/a2a.py:307-318 | the same without an interrupt: a stop check finds the lease expired though nobody took it |
| A2aRelay.A2aTaskEventRelay.Stream | runtimes/adk/src/osa/runtimes/adk/a2a_event_relay.py:59-119 | for every page size, cursor and interleaving: the yielded rows are the log after the cursor in order, cut after the first terminal event; a round is allowed exactly when its row is there and of the caller's scope, and each ending is decided by what the last round read: unauthorized, an event, a closed row with nothing new, or a running one with nothing new at the deadline; without any of these the stream goes through the whole schedule; ending on a terminal row means that every event ever appended was yielded |
| A2aRelay.A2aTaskEventRelay.YieldPage | runtimes/adk/src/osa/runtimes/adk/a2a_event_relay.py:103-112 | one page extends the stream by the next rows, or ends it at the first terminal or undecodable event |
| A2aEndings.RowClosedIsCompleteIff | runtimes/adk/src/osa/runtimes/adk/a2a_event_relay.py:107-113 | for every run: a stream that ended on a closed row, unchanged since it was read, yielded everything that will ever be appended if and only if the row is terminal |
| A2aEndings.RelayLeavesReleasedRow | runtimes/adk/src/osa/runtimes/adk/a2a_event_relay.py:107-113 | for every run with a released row: a relay that has read the log ends there, and events can follow |
| A2aEndings.AnnouncedRowEndsItsStream | runtimes/adk/src/osa/runtimes/adk/a2a_event_relay.py:102-147 | once an executor that did not leave undecided closed the row, as completed and failed rows always are, every stream that has passed no terminal event ends on one, in every continuation; it carries the state of the row if the executor's status is the only one in the log |
| A2aRelay.ResumingLosesNothing | runtimes/adk/src/osa/runtimes/adk/a2a_event_relay.py:59-119 | resuming from the last acknowledged sequence yields exactly what the first stream had left |
| A2aRelay.StreamComposes | runtimes/adk/src/osa/runtimes/adk/a2a_event_relay.py:103-112 | a stream over any rows is its passed prefix followed by the stream over the rest |
| DeploymentLeases.InMemoryOwnershipStore.Acquire | control-plane/backend/src/osa/control_plane/backend/deployment_ownership.py:117-140 | simulates the abstract claim of the key and changes no other key |
| DeploymentLeases.InMemoryOwnershipStore.Heartbeat | control-plane/backend/src/osa/control_plane/backend/deployment_ownership.py:142-152 | extends exactly a current lease, expired ones are refused |
| DeploymentLeases.InMemoryOwnershipStore.Release | control-plane/backend/src/osa/control_plane/backend/deployment_ownership.py:160-170 | simulates the abstract release that tests expiry |
| DeploymentLeases.PostgresOwnershipStore.Acquire | control-plane/backend/src/osa/control_plane/backend/deployment_ownership.py:233-298 | simulates the same abstract claim on the database row |
| DeploymentLeases.PostgresOwnershipStore.Heartbeat | control-plane/backend/src/osa/control_plane/backend/deployment_ownership.py:300-329 | extends exactly a current lease on the database row |
| DeploymentLeases.PostgresOwnershipStore.Release | control-plane/backend/src/osa/control_plane/backend/deployment_ownership.py:345-367 | simulates the abstract release that does not test expiry |
| DeploymentLeases.KeysSeparateTenants | control-plane/backend/src/osa/control_plane/backend/deployment_ownership.py:431-432 | two leases share a key exactly for one resource of one tenant, where no tenant and the empty one are one |
| DeploymentLeases.AcquireIsRefusedIff | control-plane/backend/src/osa/control_plane/backend/deployment_ownership.py:117-140 | an acquire changes nothing exactly while a holder's expiry lies ahead |
| DeploymentLeases.ClaimLasts | control-plane/backend/src/osa/control_plane/backend/deployment_ownership.py:117-140 | a claim is current for exactly its span, and no earlier lease is current any more |
| DeploymentLeases.HeartbeatExtends | control-plane/backend/src/osa/control_plane/backend/deployment_ownership.py:142-152 | a heartbeat of a current lease makes it last its span from then, any other one changes nothing |
| DeploymentLeases.ReleaseFrees | control-plane/backend/src/osa/control_plane/backend/deployment_ownership.py:160-170 | a release by the holder frees the key at once, anybody else's changes nothing |
| DeploymentLeases.LeaseExcludesIff | control-plane/backend/src/osa/control_plane/backend/deployment_ownership.py:117-367 | until it is released a held key keeps its epoch and holder, whatever operations come, if and only if every acquire reads a clock before the expiry recorded at that time |
| DeploymentLeases.LossIsPermanent | control-plane/backend/src/osa/control_plane/backend/deployment_ownership.py:451-469 | for arbitrary clocks: a lease that is not current once is current at a later time only if it still held the key and a heartbeat in between read a clock before its expiry |
| DeploymentLeases.LossIsPermanentIff | control-plane/backend/src/osa/control_plane/backend/deployment_ownership.py:451-469 | against heartbeats that read a given bound or later, whatever else happens, a lost lease stays lost if and only if it no longer held the key or the bound is not before its expiry |
| DeploymentLeases.AtMostOneCurrent | control-plane/backend/src/osa/control_plane/backend/deployment_ownership.py:451-469 | two leases of a key that are current at one time are the same claim |
| DeploymentLeases.EpochCountsClaims | control-plane/backend/src/osa/control_plane/backend/deployment_ownership.py:117-140 | epoch and attempt count the successful claims, so both strictly increase |
| DeploymentLeases.ReleaseProvesExclusivity | control-plane/backend/src/osa/control_plane/backend/deployment_ownership.py:345-367 | a release that succeeds, even of an expired lease, proves that nobody claimed the key since |
| DeploymentLeases.StoresAgree | control-plane/backend/src/osa/control_plane/backend/deployment_ownership.py:117-367 | run the same operations against both stores with a non-decreasing clock: epochs and attempts are equal, and at every later time both are busy or neither and each lease is current in both or in neither |
| DeploymentLeases.AnswersDifferIff | control-plane/backend/src/osa/control_plane/backend/deployment_ownership.py:117-367 | in any such run an operation answers differently if and only if it releases an expired lease that nobody took or released since |
| OwnedOperation.PostgresDeploymentRecordRepository.UpsertIfOwned | control-plane/backend/src/osa/control_plane/backend/repositories.py:861-910 | accepts exactly under a current lease and then updates only the mutable columns of that record |
| OwnedOperation.OwnedOperation | control-plane/backend/src/osa/control_plane/backend/deployment_service.py:466-534 | however body, heartbeats and other workers interleave, and whether or not the release call raises: the exit is decided by the first ownership check, the first event at which the body fails or finds its lease lost, and the release; a normal exit, and the body's own exception, imply that nobody else claimed the key between acquire and release; on a normal exit the records accepted under the lease are exactly those the body persisted, in order, and every record shows its last accepted write |
| OwnedOperation.FencedRecordNeverLands | control-plane/backend/src/osa/control_plane/backend/repositories.py:861-910 | a record of a fenced worker is refused at any later time |
| OwnedOperation.RecordsFollowEpochs | control-plane/backend/src/osa/control_plane/backend/repositories.py:861-910 | accepted records of a key are in epoch order, in any run |
| OwnedOperation.RecordsHoldLastWrites | control-plane/backend/src/osa/control_plane/backend/repositories.py:861-910 | in any run nothing accepted is taken back, a record without a write stays as it was, and every other shows the mutable columns of its last accepted write and the fixed ones of its first |
| OwnedOperation.RecordIsOwnIff | control-plane/backend/src/osa/control_plane/backend/deployment_service.py:466-534 | after a bracket all writes of a record accepted since its acquire are its own if and only if none was accepted under another key |
| OwnedOperation.TwoKeysWriteOneRecord | control-plane/backend/src/osa/control_plane/backend/deployment_service.py:376-391 | two keys held at once write the same deployment record |
| RateLimit.InMemoryRateLimiter.Check | generic-agent/src/osa/generic_agent/rate_limit.py:110-122 | each decision is the one computed from the key's full request history |
| RateLimit.PostgresRateLimiter.Check | generic-agent/src/osa/generic_agent/rate_limit.py:189-215 | one upsert and one prune; the decision comes from the upserted count |
| RateLimit.InMemorySlidingBound | generic-agent/src/osa/generic_agent/rate_limit.py:110-122 | any closed interval of one window length allows at most twice the capacity, for windows aligned to the first request |
| RateLimit.PostgresSlidingBound | generic-agent/src/osa/generic_agent/rate_limit.py:189-215 | the same bound for windows aligned to the clock |
| RateLimit.CountIsRank | generic-agent/src/osa/generic_agent/rate_limit.py:113-118 | the stored count is how many requests of the whole history fall into the current window |
| RateLimit.InMemoryDecidesByRank | generic-agent/src/osa/generic_agent/rate_limit.py:110-122 | the first `limit` requests of a window are admitted and no other, with the burst as limit when it is set; the remaining count is what the rank leaves |
| RateLimit.PostgresDecidesByRank | generic-agent/src/osa/generic_agent/rate_limit.py:189-215 | the same for windows of the clock |
| RateLimit.SameWindowIff | generic-agent/src/osa/generic_agent/rate_limit.py:110-117 | a later request shares the window of an earlier one exactly while less than the window length has passed since it began |
| RateLimit.ClockWindow | generic-agent/src/osa/generic_agent/rate_limit.py:194-195 | window w of the clock runs from w to w + 1 window lengths |
| RateLimit.KeysShareARowIff | generic-agent/src/osa/generic_agent/rate_limit.py:205-205 | two keys share a table row exactly when they are equal or agree in their first 512 characters |
| RateLimit.PruningIsInvisible | generic-agent/src/osa/generic_agent/rate_limit.py:206-208 | the pruned table decides every request of every key as the unpruned one, when clocks lag at most one window |
| RateLimit.LaggingClockSeesPruning | generic-agent/src/osa/generic_agent/rate_limit.py:206-208 | with a larger lag some decision differs |
| RateLimit.PruningShowsIffForgotten | generic-agent/src/osa/generic_agent/rate_limit.py:189-215 | for every request stream and any lag: all counts are those of the unpruned table if and only if no request returns to a window whose row was pruned |
| RateLimit.DecisionsShowPruningIff | generic-agent/src/osa/generic_agent/rate_limit.py:189-215 | for every valid configuration and request stream: all decisions are those of the unpruned table if and only if the capacity is below one or no request returns to a window whose row was pruned |
| RateLimit.DecisionsFollowTheHistory | generic-agent/src/osa/generic_agent/rate_limit.py:189-215 | in any request stream whose clocks lag at most one window, each decision of the pruning limiter is the one computed from its own key's full history |
| RateLimit.InMemoryRetryAfter | generic-agent/src/osa/generic_agent/rate_limit.py:120-121 | waiting the announced seconds opens a new window with this request as its first, waiting fewer whole seconds does not |
| RateLimit.PostgresRetryAfter | generic-agent/src/osa/generic_agent/rate_limit.py:212-215 | a key that waits the announced seconds is the first of a later clock window and admitted whenever the capacity is at least one; fewer whole seconds count in the same window |
| MemoryEviction.InMemoryProvider.Store | generic-agent/src/osa/generic_agent/memory.py:177-181 | appends to the entry's own bucket and changes no other |
| MemoryEviction.InMemoryProvider.FilterBuckets | generic-agent/src/osa/generic_agent/memory.py:219-224 | rebuilding and deleting bucket by bucket equals filtering all matching buckets at once; no bucket is left empty |
| MemoryEviction.InMemoryProvider.PurgeExpired | generic-agent/src/osa/generic_agent/memory.py:161-170 | what stays of the scope is exactly its unexpired entries in order, and nothing else changes |
| MemoryEviction.InMemoryProvider.Enforce | generic-agent/src/osa/generic_agent/memory.py:204-239 | retention first, then the limit over the live entries, each as given with the call or else the provider's own; every bucket outside the prefix kept; and for ids without a colon and distinct entry ids: of the entries of the scope exactly the newest min(max, live) unexpired ones stay, and every other scope keeps its buckets |
| MemoryEviction.EnforcementKeepsTheNewest | generic-agent/src/osa/generic_agent/memory.py:204-239 | the same as one fact about the buckets before and after |
| MemoryEviction.SurvivorsAreTheNewest | generic-agent/src/osa/generic_agent/memory.py:226-239 | with distinct entry ids exactly the newest min(max, live) unexpired entries survive, and nothing evicted is younger than anything kept |
| MemoryEviction.GatherIsTheScope | generic-agent/src/osa/generic_agent/memory.py:155-159 | for scope ids without a colon the matching buckets hold exactly the entries of the scope |
| MemoryEviction.PrefixIdentifiesScope | generic-agent/src/osa/generic_agent/memory.py:155-159 | a bucket key has a scope's prefix if and only if it belongs to that scope |
| MemoryEviction.ScopesOverlapIff | generic-agent/src/osa/generic_agent/memory.py:155-159 | for all ids: a bucket of one scope can have the prefix of another if and only if the kinds are the same and one id extends the other at a colon |
| MemoryEviction.OtherScopesAreUntouched | generic-agent/src/osa/generic_agent/memory.py:204-239 | enforcement leaves every bucket of every scope whose id is not nested with the enforced one as it was |
| MemoryEviction.ColonFreeIdsAreNotNested | generic-agent/src/osa/generic_agent/memory.py:155-159 | ids without a colon are nested only when equal, so distinct such scopes never touch each other |
| MemoryEviction.ColonIdsOverlap | generic-agent/src/osa/generic_agent/memory.py:155-159 | a limit of one on user "a" evicts an older entry of user "a:b", for any such two entries |
| JsonlLog.JsonlCapabilityTelemetrySink.Record | generic-agent/src/osa/generic_agent/observability.py:270-279 | the file afterwards is the appended or the compacted content |
| JsonlLog.JsonlCapabilityTelemetrySink.DropOldest | generic-agent/src/osa/generic_agent/observability.py:292-294 | the running total pops exactly the least number of oldest lines |
| JsonlLog.CutIsLeast | generic-agent/src/osa/generic_agent/observability.py:292-294 | dropping that many lines suffices or leaves the newest alone, and dropping fewer does not fit |
| JsonlLog.SplittingRestoresLines | generic-agent/src/osa/generic_agent/observability.py:289-290 | splitting a file of encoded lines and restoring the newlines is the identity |
| JsonlLog.LinesEndAtBreaks | generic-agent/src/osa/generic_agent/observability.py:289-290 | of any content: a line ends at a newline, a return or both, and a rest without one is a line too |
| JsonlLog.RecordIsBounded | generic-agent/src/osa/generic_agent/observability.py:270-294 | whatever the file held before, afterwards it fits or is the newest line alone, and it ends with that line |
| JsonlLog.LogIsLongestSuffix | generic-agent/src/osa/generic_agent/observability.py:270-305 | after any run the file is the longest suffix of all recorded lines that fits, or the newest line alone |
| LikeEscape.EscapeIsPerCharacter | runtimes/adk/src/osa/runtimes/adk/postgres_memory.py:51-52 | the three replacements in sequence are one escape per character |
| LikeEscape.SearchesAgree | runtimes/adk/src/osa/runtimes/adk/postgres_memory.py:130-142 | for every query, content and folding of characters to texts: the pattern is well formed and matches if and only if the folded content holds the folded query, as the in-memory search tests it |
| LikeEscape.EscapingTheEscapeLastIsWrong | runtimes/adk/src/osa/runtimes/adk/postgres_memory.py:51-52 | the order of the replacements matters |
| MetricText.MetricsRegistry.Update | generic-agent/src/osa/generic_agent/observability.py:158-182 | for every sensitive-key test and redaction: counts into the sanitized series with sorted labels, ignores a new series beyond the limit, and keeps names and labels clean |
| MetricText.SafeLabelsAre | generic-agent/src/osa/generic_agent/observability.py:167-174 | exactly the labels with a safe and not sensitive key appear, with the redacted, bounded value |
| MetricText.BoundedTextIs | generic-agent/src/osa/generic_agent/observability.py:55-58 | a line of at most 256 characters is kept, a longer one keeps 253 and ends in dots |
| MetricText.LineBreaksAreWritten | generic-agent/src/osa/generic_agent/observability.py:55-58 | a line break in a value shows as its two-character escape |
| MetricText.LabelOrderDoesNotMatter | generic-agent/src/osa/generic_agent/observability.py:166-174 | the same labels in any order name the same series |
| MetricText.MetricsRegistry.RenderPrometheus | generic-agent/src/osa/generic_agent/observability.py:184-196 | renders every series exactly once in ascending order of its key, and for any registry content and any number format without blanks the audit page reads the text back |
| MetricText.LabelsReadBack | generic-agent/src/osa/generic_agent/observability.py:691-698 | a left-to-right unescaping reader inverts the label text, whatever the values contain, for keys without an equals sign |
| MetricText.LabelsAreInjective | generic-agent/src/osa/generic_agent/observability.py:691-698 | different labels with keys that carry no equals sign, as the registry admits them, never print the same |
| MetricText.SampleTextIsInjective | generic-agent/src/osa/generic_agent/observability.py:691-698 | the text printed for a name with its labels determines both |
| MetricText.SeriesPrintAlikeIff | generic-agent/src/osa/generic_agent/observability.py:184-196 | two different series print a line with the same name and labels if and only if their labels are equal and one carries the name of a `_count` or `_sum` line of the other, a duration series |
| MetricText.CounterCollidesWithDuration | generic-agent/src/osa/generic_agent/observability.py:150-196 | observing "x" and incrementing "x_seconds_count" makes two such series |
| MetricText.LineReadsBack | control-plane/frontend/src/pages/AuditPage.tsx:21-40 | a rendered line is dropped exactly when it has neither name nor labels, and otherwise its name, label text and value come back |
| MetricText.PageShowsEveryLine | control-plane/frontend/src/pages/AuditPage.tsx:21-40 | parsing rendered text recovers the lines of all series in order |
| MetricText.PageIsCompleteIff | control-plane/frontend/src/pages/AuditPage.tsx:21-40 | nothing is lost if and only if no series lacks both name and labels |
| MetricText.LinesAreReadAlone | control-plane/frontend/src/pages/AuditPage.tsx:21-40 | blank lines and comments are passed over, and any other line is parsed by itself |
| MetricText.MalformedLinesAreDropped | control-plane/frontend/src/pages/AuditPage.tsx:21-40 | a line without a value, without a sample, or with an unclosed brace gives nothing |
| Redaction.RedactSnapshotValue | control-plane/backend/src/osa/control_plane/backend/api.py:289-313 | the recursive loops compute the redacted value and its list of fields |
| Redaction.SpellingDoesNotMatter | control-plane/backend/src/osa/control_plane/backend/api.py:275-286 | neither letter case, in any script, nor hyphen for underscore changes whether a key is sensitive |
| Redaction.SensitiveIff | control-plane/backend/src/osa/control_plane/backend/api.py:275-286 | a key is sensitive exactly when, read without case and with hyphens as underscores, it contains one of the words of the pattern, with at most one separator before `key`, and is none of the three exceptions |
| Redaction.NothingHiddenSurvives | control-plane/backend/src/osa/control_plane/backend/api.py:289-313 | at every position: nothing below the first sensitive key, the mask at it, and elsewhere the same scalar, keys or length |
| Redaction.RedactionTellsNothing | control-plane/backend/src/osa/control_plane/backend/api.py:289-313 | two values have the same redaction if and only if they agree outside sensitive keys |
| Redaction.RedactedFieldsAreExact | control-plane/backend/src/osa/control_plane/backend/api.py:289-313 | the list names exactly the positions of first sensitive keys, in document order |
| Redaction.SecondPassRepeats | control-plane/backend/src/osa/control_plane/backend/api.py:289-313 | a second pass returns the same value and the same list |
| Redaction.PathTextsAreUnique | control-plane/backend/src/osa/control_plane/backend/api.py:289-313 | when every key is non-empty and free of dot and opening bracket, two existing positions with the same path text are the same |
| Redaction.PlainListsAreUnambiguous | control-plane/backend/src/osa/control_plane/backend/api.py:289-313 | with such keys the returned list holds no text twice |
| Redaction.ListedTwiceIff | control-plane/backend/src/osa/control_plane/backend/api.py:289-313 | the returned list holds a text twice if and only if two redacted positions have it |
| Redaction.DottedKeysCollide | control-plane/backend/src/osa/control_plane/backend/api.py:296-296 | a dot in a key, below any key that is not sensitive and with no other offence, makes the returned list hold one text for two redacted positions |
| Redaction.BracketedKeysCollide | control-plane/backend/src/osa/control_plane/backend/api.py:296-308 | so does an opening bracket |
| Redaction.EmptyKeysCollide | control-plane/backend/src/osa/control_plane/backend/api.py:296-296 | and an empty key, because an empty path is taken for the root |
| BundleExport.ExportBundle | control-plane/backend/src/osa/control_plane/backend/deployment_service.py:604-644 | on success the directory holds the agent and one document for each wanted resource and nothing else; otherwise a wanted resource is missing |
| BundleExport.LoadBundleDirectory | generic-agent/src/osa/generic_agent/bundle.py:251-276 | loads if and only if the agent is there and every listed document is of its directory's kind |
| BundleExport.BuildCatalogs | generic-agent/src/osa/generic_agent/bundle.py:167-243 | catalogs hold exactly the bundle's resources; duplicates and dangling references are reported and only those |
| BundleExport.ExportReadsBack | generic-agent/src/osa/generic_agent/bundle.py:251-276 | in any file order an exported directory is accepted, without duplicate names and with exactly the wanted names |
| BundleExport.ExportThenServe | control-plane/backend/src/osa/control_plane/backend/deployment_service.py:604-644 | an export that succeeds loads, and catalogs hold exactly the referenced resources of all five kinds, unless memory is enabled with the empty policy name |

## Left out

- The protocol state machine is about one task; the store classes hold all tasks and state what does not change for the others.
- SQLAlchemy, asyncio, the A2A SDK and protobuf: one `engine.begin()` block is one atomic step, payloads are the bytes of a serialization that `AnnouncedRowEndsItsStream` takes to be read back, and a successful `queue.join` means that nothing is pending. Saves on one call context are sequential, as the SDK's consumer makes them.
- Concurrent first inserts of an ownership row: the loser's retry is one later step.
- Deleting task, event and ownership rows, and columns that only record timestamps or outcomes.
- A2A without a database: there is no fencing to prove.
- The SDK's own guards on cancelling a terminal task and on a second terminal status: a run may pass them or not, and no theorem rests on them.
- Constructor checks (lease of at least five seconds, table names, page size) are preconditions of constructors.
- `PostgresMemoryProvider.enforce`: it deletes by `ORDER BY created_at ASC OFFSET keep` and is no refinement of the in-memory eviction.
- SQLite repositories and the default `upsert_if_owned`, which ignore the lease by design.
- LikeEscape.SearchesAgree: a folding looks at one character at a time, so the final sigma of Python's `lower` is not covered.
- MetricText.MetricsRegistry.Update: which keys are sensitive and how inline credentials are redacted; the statements hold for any choice.
- MetricText.MetricsRegistry.RenderPrometheus: how numbers are printed; the statement holds for any visible text without blanks.
- JsonlLog.JsonlCapabilityTelemetrySink.Record: crashes between write and rename, fsync and the JSON encoding itself; an encoded line is any non-blank text without line breaks and a newline.
- Redaction.RedactSnapshotValue: keys are strings, as JSON has them.
- BundleExport.ExportThenServe: YAML and schema validation are the identity on what was written, the digest is injective, catalogs file definitions under their names, and environment overrides, bundle metadata and path containment are not modelled.
- HTTP routes, CORS, token checks, outbound URL checks, process spawning, migrations, command lines and the other React pages.
- Session history trimming, templates, agent lifecycle and access rules, which would only add easy one-function facts.
