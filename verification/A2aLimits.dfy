/** Concrete runs showing where tempting stronger claims about the executor fail. */
module A2aLimits {
  import opened Prelude
  import opened Strings
  import opened A2aOwnership
  import opened A2aEventStore
  import opened A2aTaskStore
  import opened A2aProtocol
  import opened A2aSafety
  import opened A2aRuns
  import opened A2aTheorems
  import opened A2aClosing

  const Demo := Config("task", MAX_EVENT_PAYLOAD_BYTES, Bytes)
  const Scope := "anonymous"
  const Content: seq<byte> := [1]

  /** A serialization that keeps the state in front of the content. */
  function Bytes(message: Message): seq<byte> {
    match message
    case TaskMessage(content) => content
    case ArtifactMessage(content) => content
    case StatusMessage(state, content) => [if state.Completed? then 3 else if state.Failed? then 4 else 5] + content
  }

  function At(now: int): Env {
    Env(now, now + 10, Content, "", Reply(false, None), true)
  }

  function Started(c: nat, me: string, cancelling: bool): Step {
    Begin(c, me, Scope, "context", cancelling)
  }

  lemma OneMore(steps: seq<Step>, step: Step)
    ensures Run(Demo, steps + [step]) == Do(Demo, Run(Demo, steps), step)
  {
    RunFromSplits(Demo, Initial, steps, [step]);
    assert RunFrom(Demo, Run(Demo, steps), [step]) == Do(Demo, Run(Demo, steps), step);
  }

  lemma KnownEventTypes()
    ensures ValidEventType("Task") && ValidEventType("TaskStatusUpdateEvent")
      && ValidEventType("TaskArtifactUpdateEvent")
  {
    var t, u, v := "Task", "TaskStatusUpdateEvent", "TaskArtifactUpdateEvent";
    forall i | 1 <= i < |t| ensures NameChar(t[i]) {
    }
    forall i | 1 <= i < |u| ensures NameChar(u[i]) {
    }
    forall i | 1 <= i < |v| ensures NameChar(v[i]) {
    }
  }

  /** From a held claim to the invocation: publish, stop check, invoke. */
  lemma ClaimToInvocation(steps: seq<Step>, c: nat, now: int) returns (more: seq<Step>)
    requires var s := Run(Demo, steps);
      && c in s.calls && s.calls[c].pc.Publish?
      && s.calls[c].scope == s.calls[c].pc.own.scopeKey
      && HoldsLease(s.store.view.row, s.calls[c].pc.own, s.calls[c].me, now)
      && !s.store.view.row.value.cancelRequested
    ensures steps <= more
    ensures var (s, s') := (Run(Demo, steps), Run(Demo, more));
      && s'.store == Emit(s.store, s.store.view, Invoked(c, s.calls[c].pc.own.fence))
      && s'.calls.Keys == s.calls.Keys
      && (forall d :: d in s.calls && d != c ==> s'.calls[d] == s.calls[d])
  {
    var s0 := Run(Demo, steps);
    var own := s0.calls[c].pc.own;
    var step := Advance(c, At(now));
    OneMore(steps, step);
    var s1 := Do(Demo, s0, step);
    assert s1.store == s0.store && s1.calls[c].pc == PublishedTask(own);
    OneMore(steps + [step], step);
    var s2 := Do(Demo, s1, step);
    assert s2.store == s0.store && s2.calls[c].pc == FirstCheck(own);
    OneMore(steps + [step] + [step], step);
    var s3 := Do(Demo, s2, step);
    assert s3.store == s0.store && s3.calls[c].pc == Invoke(own);
    OneMore(steps + [step] + [step] + [step], step);
    more := steps + [step] + [step] + [step] + [step];
  }

  /** A new call of worker `me` tries to claim the task. */
  lemma BeginAndClaim(steps: seq<Step>, c: nat, me: string, now: int) returns (more: seq<Step>)
    requires c !in Run(Demo, steps).calls && ValidText(me)
    ensures steps <= more
    ensures var (s, s') := (Run(Demo, steps), Run(Demo, more));
      var call := Call(me, Scope, "context", Acquire, None, None, [], []);
      var (st, granted) := TxAcquire(Demo, s.store, c, call, now, now + 10);
      && s'.store == st
      && s'.calls == s.calls[c := call.(pc := if granted.Some? then AfterClaim(granted.value) else PollTask)]
  {
    OneMore(steps, Started(c, me, false));
    var s1 := Do(Demo, Run(Demo, steps), Started(c, me, false));
    OneMore(steps + [Started(c, me, false)], Advance(c, At(now)));
    more := steps + [Started(c, me, false)] + [Advance(c, At(now))];
    assert Run(Demo, more).calls == s1.calls[c := Run(Demo, more).calls[c]];
  }

  /** The SDK's consumer saves a call's one pending event with `task`. */
  lemma SaveOneEvent(steps: seq<Step>, c: nat, now: int, task: Task) returns (more: seq<Step>)
    requires var s := Run(Demo, steps);
      && c in s.calls && !s.calls[c].pc.Crashed? && s.calls[c].replay.None? && s.calls[c].bound.Some?
      && HoldsLease(s.store.view.row, s.calls[c].bound.value, s.calls[c].me, now)
      && ValidOwnership(s.calls[c].bound.value) && s.calls[c].bound.value.taskId == task.id
      && |s.calls[c].pending| == 1
      && EventAccepted(s.calls[c].bound.value, s.calls[c].pending[0], MAX_EVENT_PAYLOAD_BYTES)
    ensures steps <= more
    ensures var (s, s') := (Run(Demo, steps), Run(Demo, more));
      && s'.store.view.row == s.store.view.row
      && s'.store.view.task == Some(TaskRow(s.calls[c].scope, task))
      && |s'.store.view.log| == |s.store.view.log| + 1
      && s'.calls == s.calls[c := s.calls[c].(pending := [])]
  {
    OneMore(steps, Consume(c, now, task));
    more := steps + [Consume(c, now, task)];
    assert Run(Demo, steps).calls[c].pending[1..] == [];
  }

  const TaskEvent := EventOf(Demo, TaskMessage(Content))
  const ArtifactEvent := EventOf(Demo, ArtifactMessage(Content))

  lemma DemoEventsAreAccepted(own: Ownership)
    requires own.taskId == Demo.taskId && own.scopeKey == Scope
    ensures EventAccepted(own, TaskEvent, MAX_EVENT_PAYLOAD_BYTES)
    ensures forall state :: EventAccepted(own, StatusEvent(Demo, state, Content), MAX_EVENT_PAYLOAD_BYTES)
    ensures EventAccepted(own, ArtifactEvent, MAX_EVENT_PAYLOAD_BYTES)
  {
    KnownEventTypes();
    assert Scope[0] != TENANT_PREFIX[0];
    assert !StartsWith(Scope, TENANT_PREFIX);
  }

  /** Bind the submitted task and hand it to the SDK queue. */
  lemma PublishTask(steps: seq<Step>, c: nat, now: int) returns (more: seq<Step>)
    requires c in Run(Demo, steps).calls && Run(Demo, steps).calls[c].pc.Publish?
    requires Run(Demo, steps).calls[c].pending == []
    ensures steps <= more
    ensures var (s, s') := (Run(Demo, steps), Run(Demo, more));
      var own := s.calls[c].pc.own;
      && s'.store == s.store
      && s'.calls == s.calls[c := s.calls[c].(bound := Some(own), pc := FirstCheck(own), pending := [TaskEvent],
                                              queued := s.calls[c].queued + [TaskEvent])]
  {
    var s := Run(Demo, steps);
    OneMore(steps, Advance(c, At(now)));
    more := steps + [Advance(c, At(now))];
    assert [] + [TaskEvent] == [TaskEvent];
    hide RunFrom;
    more := Moves(more, c, Advance(c, At(now)), FirstCheck(s.calls[c].pc.own));
  }

  const FirstRow := Row("context", Scope, Some("a"), 1, Some(10), None, false, Running)

  /** Worker "a" claims the task, publishes it, and its consumer saves `task`. */
  lemma SavedRun(task: Task) returns (steps: seq<Step>)
    requires task.id == Demo.taskId
    ensures var s := Run(Demo, steps);
      && s.store.view.row == Some(FirstRow) && s.store.view.task == Some(TaskRow(Scope, task))
      && s.calls.Keys == {0} && s.calls[0].pc == FirstCheck(Snapshot("task", FirstRow, false))
      && s.calls[0].pending == [] && s.calls[0].me == "a" && s.calls[0].scope == Scope
      && s.calls[0].bound == Some(Snapshot("task", FirstRow, false)) && s.calls[0].replay.None?
  {
    steps := BeginAndClaim([], 0, "a", 0);
    var own := Snapshot("task", FirstRow, false);
    assert Run(Demo, steps).calls[0].pc == Publish(own);
    steps := PublishTask(steps, 0, 0);
    DemoEventsAreAccepted(own);
    hide EventAccepted, RunFrom, Do, StepCall;
    steps := SaveOneEvent(steps, 0, 0, task);
  }

  // ---------------------------------------------------------------------------
  // An unsaved task can be invoked twice
  // ---------------------------------------------------------------------------

  /**
    The first worker invokes the agent and dies before the consumer saved the task row, so the
    worker that takes over finds no task and executes. `WrittenTaskIsNeverReplayed` says this
    is the only way: nothing may have been written.
  */
  lemma UnsavedTaskCanBeInvokedTwice() returns (steps: seq<Step>)
    ensures Invoked(0, 1) in TraceOf(Demo, steps) && Invoked(1, 2) in TraceOf(Demo, steps)
  {
    steps := BeginAndClaim([], 0, "a", 0);
    steps := ClaimToInvocation(steps, 0, 0);
    assert TraceOf(Demo, steps) == [Granted(0, 1), Invoked(0, 1)];
    steps := BeginAndClaim(steps, 1, "b", 100);  // the lease has expired: fence 2
    OneMore(steps, Advance(1, At(100)));          // reads no task
    steps := steps + [Advance(1, At(100))];
    assert Run(Demo, steps).calls[1].pc.Publish?;
    steps := ClaimToInvocation(steps, 1, 100);
    assert TraceOf(Demo, steps) == [Granted(0, 1), Invoked(0, 1), Granted(1, 2), Invoked(1, 2)];
  }

  // ---------------------------------------------------------------------------
  // A local cancel at the finalizer's fence overwrites the outcome
  // ---------------------------------------------------------------------------

  const Completed := Task("task", TaskState.Completed, "answer")
  const CanceledTask := Task("task", TaskState.Canceled, "answer")

  /**
    Worker "b" serves two cancel requests for a task that runs on "a". Both record the request;
    the first waits, "a" completes the task and then stops renewing its lease, and the first
    request takes over and reads the completed task. The second request now finds its own worker
    in the row, binds that snapshot and publishes, and its consumer writes CANCELED under the same
    fence before the first one releases. The row says completed, the durable task says canceled.
    No coroutine is cancelled and no request begins after the task was final.
  */
  lemma LocalCancelOverwritesTheOutcome() returns (steps: seq<Step>)
    ensures ViewAfter(Demo, steps).row.Some? && ViewAfter(Demo, steps).row.value.state == RowState.Completed
    ensures ViewAfter(Demo, steps).task == Some(TaskRow(Scope, CanceledTask))
  {
    hide RunFrom;
    steps := ExecutedRun();
    var flagged := FirstRow.(cancelRequested := true);
    steps := CancelRequested(steps, 1, "b", 0, FirstRow);
    steps := Moves(steps, 1, Advance(1, At(0)), CancelWait);
    steps := Moves(steps, 1, Advance(1, At(0)), CancelWaitRow);
    steps := CancelRequested(steps, 2, "b", 0, flagged);
    steps := CompleteAndSave(steps, 0, flagged);
    steps := TakeOverToCancel(steps, 1, "b", 100, flagged);
    var taken := Row("context", Scope, Some("b"), 2, Some(110), None, true, Running);
    steps := ToFinalRelease(steps, 1, Completed);
    var before := Run(Demo, steps);
    steps := PublishCancel(steps, 2, "b", 100, taken);
    assert Run(Demo, steps).calls[1] == before.calls[1];
    steps := ReleaseAs(steps, 1, RowState.Completed);
  }

  const WorkingTask := Task("task", TaskState.Working, "answer")

  /** Worker "a" stands at `pc` with its first event saved and nothing pending. */
  ghost predicate AStandsAt(steps: seq<Step>, pc: Pc, task: Task) {
    var s := Run(Demo, steps);
    && s.store.view.row == Some(FirstRow) && s.store.view.task == Some(TaskRow(Scope, task))
    && s.calls.Keys == {0} && s.calls[0].pc == pc
    && s.calls[0].pending == [] && s.calls[0].me == "a" && s.calls[0].scope == Scope
    && s.calls[0].bound == Some(Snapshot("task", FirstRow, false)) && s.calls[0].replay.None?
  }

  /** The agent was invoked and answered. */
  lemma InvokedRun() returns (steps: seq<Step>)
    ensures AStandsAt(steps, SecondCheck(Snapshot("task", FirstRow, false), Reply(false, None)), SubmittedTask)
  {
    var own, step := Snapshot("task", FirstRow, false), Advance(0, At(0));
    steps := SavedRun(SubmittedTask);
    hide RunFrom;
    steps := Passes(steps, 0, Invoke(own));
    steps := Invokes(steps, 0);
    steps := Moves(steps, 0, step, SecondCheck(own, Reply(false, None)));
  }

  /** A stop check that finds the lease held and no cancellation goes on. */
  lemma Passes(steps: seq<Step>, c: nat, next: Pc) returns (more: seq<Step>)
    requires var s := Run(Demo, steps);
      && c in s.calls && (s.calls[c].pc.FirstCheck? || s.calls[c].pc.SecondCheck?)
      && HoldsLease(s.store.view.row, s.calls[c].pc.own, s.calls[c].me, 0)
      && s.calls[c].scope == s.calls[c].pc.own.scopeKey && !s.store.view.row.value.cancelRequested
      && (s.calls[c].pc.FirstCheck? ==> next == Invoke(s.calls[c].pc.own))
      && (s.calls[c].pc.SecondCheck? ==>
            s.calls[c].pc.reply == Reply(false, None) && next == ThirdCheck(s.calls[c].pc.own))
    ensures steps <= more
    ensures var (s, s') := (Run(Demo, steps), Run(Demo, more));
      s'.store == s.store && s'.calls == s.calls[c := s.calls[c].(pc := next)]
  {
    hide RunFrom;
    more := Moves(steps, c, Advance(c, At(0)), next);
  }

  lemma Invokes(steps: seq<Step>, c: nat) returns (more: seq<Step>)
    requires c in Run(Demo, steps).calls && Run(Demo, steps).calls[c].pc.Invoke?
    ensures steps <= more
    ensures var (s, s') := (Run(Demo, steps), Run(Demo, more));
      s'.store.view == s.store.view && s'.calls == s.calls[c := s.calls[c].(pc := AwaitReply(s.calls[c].pc.own))]
  {
    hide RunFrom;
    OneMore(steps, Advance(c, At(0)));
    more := steps + [Advance(c, At(0))];
  }

  lemma PublishesArtifact(steps: seq<Step>, c: nat) returns (more: seq<Step>)
    requires var s := Run(Demo, steps);
      && c in s.calls && s.calls[c].pc.ThirdCheck? && s.calls[c].pending == []
      && HoldsLease(s.store.view.row, s.calls[c].pc.own, s.calls[c].me, 0)
      && s.calls[c].scope == s.calls[c].pc.own.scopeKey && !s.store.view.row.value.cancelRequested
    ensures steps <= more
    ensures var (s, s') := (Run(Demo, steps), Run(Demo, more));
      && s'.store == s.store
      && s'.calls == s.calls[c := s.calls[c].(pc := Complete(s.calls[c].pc.own), pending := [ArtifactEvent],
                                              queued := s.calls[c].queued + [ArtifactEvent])]
  {
    hide RunFrom;
    OneMore(steps, Advance(c, At(0)));
    more := steps + [Advance(c, At(0))];
    assert [] + [ArtifactEvent] == [ArtifactEvent];
  }

  /** It passed its last stop check and its consumer saved the artifact. */
  lemma ExecutedRun() returns (steps: seq<Step>)
    ensures AStandsAt(steps, Complete(Snapshot("task", FirstRow, false)), WorkingTask)
  {
    hide RunFrom, Do, StepCall, Emit;
    var own := Snapshot("task", FirstRow, false);
    steps := InvokedRun();
    steps := Passes(steps, 0, ThirdCheck(own));
    steps := PublishesArtifact(steps, 0);
    DemoEventsAreAccepted(own);
    hide EventAccepted;
    steps := SaveOneEvent(steps, 0, 0, WorkingTask);
  }

  /** The executor publishes its completion and its consumer saves it. */
  lemma CompleteAndSave(steps: seq<Step>, c: nat, row: Row) returns (more: seq<Step>)
    requires var s := Run(Demo, steps);
      && c in s.calls && s.calls[c].pc.Complete? && s.calls[c].pending == [] && s.calls[c].replay.None?
      && s.calls[c].bound == Some(Snapshot("task", FirstRow, false))
      && s.calls[c].me == "a" && s.calls[c].scope == Scope
      && s.store.view.row == Some(row) && row == FirstRow.(cancelRequested := true)
    ensures steps <= more
    ensures var (s, s') := (Run(Demo, steps), Run(Demo, more));
      && s'.store.view.row == Some(row) && s'.store.view.task == Some(TaskRow(Scope, Completed))
      && s'.calls.Keys == s.calls.Keys
      && forall d :: d in s.calls && d != c ==> s'.calls[d] == s.calls[d]
  {
    hide RunFrom;
    var step := Advance(c, At(0));
    OneMore(steps, step);
    more := steps + [step];
    assert Run(Demo, more).calls[c].pending == [StatusEvent(Demo, TaskState.Completed, Content)];
    DemoEventsAreAccepted(Snapshot("task", FirstRow, false));
    more := SaveOneEvent(more, c, 0, Completed);
  }

  /** A waiting cancel call finds the lease expired and claims the task. */
  lemma TakeOverToCancel(steps: seq<Step>, c: nat, me: string, now: int, row: Row) returns (more: seq<Step>)
    requires var s := Run(Demo, steps);
      && c in s.calls && s.calls[c] == Call(me, Scope, "context", CancelWaitRow, None, None, [], [])
      && s.store.view.row == Some(row) && row.scopeKey == Scope && row.state.Running?
      && row.ownerId != Some(me) && row.leaseUntil.Some? && row.leaseUntil.value <= now
    ensures steps <= more
    ensures var (s, s') := (Run(Demo, steps), Run(Demo, more));
      var taken := row.(contextId := "context", ownerId := Some(me), fence := row.fence + 1,
                        leaseUntil := Some(now + 10), state := Running);
      && s'.store.view == s.store.view.(row := Some(taken))
      && s'.calls == s.calls[c := s.calls[c].(pc := CancelFinalize(Snapshot("task", taken, true)))]
  {
    hide RunFrom;
    more := Moves(steps, c, Advance(c, At(now)), CancelTakeover);
    OneMore(more, Advance(c, At(now)));
    more := more + [Advance(c, At(now))];
    assert Run(Demo, more).calls == Run(Demo, steps).calls[c := Run(Demo, more).calls[c]];
  }

  /** A finalizer that reads a final task goes straight to the release. */
  lemma ToFinalRelease(steps: seq<Step>, c: nat, task: Task) returns (more: seq<Step>)
    requires var s := Run(Demo, steps);
      && c in s.calls && (s.calls[c].pc.ReadReclaimed? || s.calls[c].pc.CancelFinalize?) && task.state.Final()
      && s.store.view.task == Some(TaskRow(s.calls[c].scope, task))
    ensures steps <= more
    ensures var (s, s') := (Run(Demo, steps), Run(Demo, more));
      && s'.store == s.store
      && s'.calls == s.calls[c := s.calls[c].(pc :=
           FinalRelease(s.calls[c].pc.own, ClosingOf(task.state), task, task, s.calls[c].pc.CancelFinalize?))]
  {
    var s, step := Run(Demo, steps), Advance(c, At(0));
    OneMore(steps, step);
    assert Do(Demo, s, step).calls[c].pc == Finalize(s.calls[c].pc.own, task, s.calls[c].pc.CancelFinalize?);
    OneMore(steps + [step], step);
    more := steps + [step] + [step];
    assert Run(Demo, more).calls == s.calls[c := Run(Demo, more).calls[c]];
  }

  /** The rest of a cancel call whose worker owns the task: the snapshot is bound, the status published and saved. */
  lemma PublishCancel(steps: seq<Step>, c: nat, me: string, now: int, row: Row) returns (more: seq<Step>)
    requires var s := Run(Demo, steps);
      && c in s.calls && s.calls[c] == Call(me, Scope, "context", CancelRead, None, None, [], [])
      && ValidText(me) && s.store.view.row == Some(row)
      && row == Row("context", Scope, Some(me), row.fence, Some(now + 10), None, true, Running)
    ensures steps <= more
    ensures var (s, s') := (Run(Demo, steps), Run(Demo, more));
      && s'.store.view.row == Some(row)
      && s'.store.view.task == Some(TaskRow(Scope, CanceledTask))
      && |s'.store.view.log| == |s.store.view.log| + 1
      && s'.calls.Keys == s.calls.Keys
      && (forall d :: d in s.calls && d != c ==> s'.calls[d] == s.calls[d])
  {
    hide RunFrom;
    var own := Snapshot("task", row, false);
    more := BindsAndPublishes(steps, c, me, now, row);
    DemoEventsAreAccepted(own);
    hide EventAccepted, Do, StepCall;
    more := SaveOneEvent(more, c, now, CanceledTask);
  }

  lemma BindsAndPublishes(steps: seq<Step>, c: nat, me: string, now: int, row: Row) returns (more: seq<Step>)
    requires var s := Run(Demo, steps);
      && c in s.calls && s.calls[c] == Call(me, Scope, "context", CancelRead, None, None, [], [])
      && s.store.view.row == Some(row) && row.ownerId == Some(me) && row.scopeKey == Scope
    ensures steps <= more
    ensures var (s, s') := (Run(Demo, steps), Run(Demo, more));
      && s'.store == s.store
      && s'.calls == s.calls[c := Call(me, Scope, "context", Done, Some(Snapshot("task", row, false)), None,
                                       [StatusEvent(Demo, TaskState.Canceled, Content)],
                                       [StatusEvent(Demo, TaskState.Canceled, Content)])]
  {
    hide RunFrom;
    OneMore(steps, Advance(c, At(now)));
    more := steps + [Advance(c, At(now))];
    assert Run(Demo, more).calls[c]
      == Call(me, Scope, "context", CancelPublish, Some(Snapshot("task", row, false)), None, [], []);
    OneMore(more, Advance(c, At(now)));
    more := more + [Advance(c, At(now))];
    assert [] + [StatusEvent(Demo, TaskState.Canceled, Content)] == [StatusEvent(Demo, TaskState.Canceled, Content)];
    assert Run(Demo, more).calls == Run(Demo, steps).calls[c := Run(Demo, more).calls[c]];
  }

  /** A cancel call that has recorded its request. */
  lemma CancelRequested(steps: seq<Step>, c: nat, me: string, now: int, row: Row) returns (more: seq<Step>)
    requires var s := Run(Demo, steps);
      && c !in s.calls && ValidText(me) && s.store.view.row == Some(row)
      && row.scopeKey == Scope && row.state.Running?
    ensures steps <= more
    ensures var (s, s') := (Run(Demo, steps), Run(Demo, more));
      && s'.store.view == s.store.view.(row := Some(row.(cancelRequested := true)))
      && s'.calls == s.calls[c := Call(me, Scope, "context", CancelRead, None, None, [], [])]
  {
    OneMore(steps, Started(c, me, true));
    more := steps + [Started(c, me, true)];
    OneMore(more, Advance(c, At(now)));
    more := more + [Advance(c, At(now))];
    assert Run(Demo, more).calls == Run(Demo, steps).calls[c := Run(Demo, more).calls[c]];
  }

  // ---------------------------------------------------------------------------
  // A quiet executor closes the row before the status is durable
  // ---------------------------------------------------------------------------

  const SubmittedTask := Task("task", TaskState.Submitted, "")

  /** The row is canceled, the task is not, and no later step changes either. */
  ghost predicate Stranded(steps: seq<Step>, later: seq<Step>) {
    && ViewAfter(Demo, steps + later).row.Some?
    && ViewAfter(Demo, steps + later).row.value.state == RowState.Canceled
    && ViewAfter(Demo, steps + later).task == Some(TaskRow(Scope, SubmittedTask))
  }

  /**
    The executor's own path does not have the finalizer's guarantee. Its coroutine is cancelled
    after a cancellation was recorded and before a status was queued: it drains, releases the row
    as canceled and leaves the task row as it is. `ClosedRowHasItsStatusIff` says when this happens.
  */
  lemma InterruptedExecutorStrandsTheTask(later: seq<Step>) returns (steps: seq<Step>)
    ensures Stranded(steps, later)
  {
    steps := SavedRun(SubmittedTask);
    steps := CancelRequested(steps, 1, "b", 0, FirstRow);
    steps := InterruptedToClosing(steps, 0);
    steps := ClosingToRelease(steps, 0);
    steps := ReleaseAs(steps, 0, RowState.Canceled);
    TerminalRowFreezesEverything(Demo, steps, later);
  }

  /** The same without any interrupt: a stop check finds the lease expired though nobody took it. */
  lemma ExpiredLeaseStrandsTheTask(later: seq<Step>) returns (steps: seq<Step>)
    ensures Stranded(steps, later)
  {
    steps := SavedRun(SubmittedTask);
    steps := CancelRequested(steps, 1, "b", 0, FirstRow);
    steps := Moves(steps, 0, Advance(0, At(100)), Closing(Snapshot("task", FirstRow, false), Released));
    steps := ClosingToRelease(steps, 0);
    steps := ReleaseAs(steps, 0, RowState.Canceled);
    TerminalRowFreezesEverything(Demo, steps, later);
  }

  /** The release at the end of a finalizer or of the finally block. */
  lemma ReleaseAs(steps: seq<Step>, c: nat, closing: RowState) returns (more: seq<Step>)
    requires var s := Run(Demo, steps);
      && c in s.calls && (s.calls[c].pc.FinalRelease? || s.calls[c].pc.Releasing?)
      && s.calls[c].pc.closing == closing && Names(s.store.view.row, s.calls[c].pc.own, s.calls[c].me)
    ensures steps <= more
    ensures Run(Demo, more).calls.Keys == Run(Demo, steps).calls.Keys
    ensures var (v, v', own) := (ViewAfter(Demo, steps), ViewAfter(Demo, more), Run(Demo, steps).calls[c].pc.own);
      v' == v.(row := Some(v.row.value.(ownerId := None, leaseUntil := None,
                                        cancelRequested := !closing.Released? && own.cancelRequested,
                                        state := closing)))
  {
    OneMore(steps, Advance(c, At(0)));
    more := steps + [Advance(c, At(0))];
  }

  /** An interrupt inside the try block. */
  lemma InterruptedToClosing(steps: seq<Step>, c: nat) returns (more: seq<Step>)
    requires var s := Run(Demo, steps);
      && c in s.calls && s.calls[c].pc.InTry()
      && s.store.view.row.Some? && s.store.view.row.value.scopeKey == s.calls[c].scope
    ensures steps <= more
    ensures var (s, s') := (Run(Demo, steps), Run(Demo, more));
      var closing := if s.store.view.row.value.cancelRequested then RowState.Canceled else Released;
      && s'.store == s.store && s'.calls.Keys == s.calls.Keys
      && s'.calls[c] == s.calls[c].(pc := Closing(s.calls[c].pc.own, closing))
  {
    var own := Run(Demo, steps).calls[c].pc.own;
    hide RunFrom, UnlessStopped;
    more := Moves(steps, c, Interrupt(c), Interrupted(own));
    more := Moves(more, c, Advance(c, At(0)),
                  Closing(own, if Run(Demo, steps).store.view.row.value.cancelRequested
                               then RowState.Canceled else Released));
  }

  /** The finally block of a call that has nothing pending. */
  lemma ClosingToRelease(steps: seq<Step>, c: nat) returns (more: seq<Step>)
    requires var s := Run(Demo, steps);
      && c in s.calls && s.calls[c].pc.Closing? && s.calls[c].pending == []
      && s.store.view.row.Some? && s.store.view.row.value.scopeKey == s.calls[c].scope
    ensures steps <= more
    ensures var (s, s') := (Run(Demo, steps), Run(Demo, more));
      var pc := s.calls[c].pc;
      var closing := if pc.closing.Released? && s.store.view.row.value.cancelRequested then RowState.Canceled
        else pc.closing;
      && s'.store == s.store && s'.calls.Keys == s.calls.Keys
      && s'.calls[c] == s.calls[c].(pc := Releasing(pc.own, closing))
  {
    hide RunFrom, UnlessStopped;
    var s := Run(Demo, steps);
    var pc := s.calls[c].pc;
    var closing := if pc.closing.Released? && s.store.view.row.value.cancelRequested then RowState.Canceled
      else pc.closing;
    more := Moves(steps, c, Advance(c, At(0)), Draining(pc.own, closing));
    more := Moves(more, c, Advance(c, At(0)), Releasing(pc.own, closing));
  }

  /** A step that only moves its call. */
  lemma Moves(steps: seq<Step>, c: nat, step: Step, pc: Pc) returns (more: seq<Step>)
    requires var s := Run(Demo, steps);
      && c in s.calls && step.c == c && !step.Begin?
      && StepCall(Demo, s.store, c, s.calls[c], step) == (s.store, s.calls[c].(pc := pc))
    ensures steps <= more
    ensures var (s, s') := (Run(Demo, steps), Run(Demo, more));
      s'.store == s.store && s'.calls == s.calls[c := s.calls[c].(pc := pc)]
  {
    OneMore(steps, step);
    more := steps + [step];
  }
}
