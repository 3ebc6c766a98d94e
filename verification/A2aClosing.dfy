/**
  How an executor leaves its task: it releases only what is drained, and its terminal status
  event is in the log exactly when it did not leave quietly.
*/
module A2aClosing {
  import opened Prelude
  import opened A2aOwnership
  import opened A2aEventStore
  import opened A2aTaskStore
  import opened A2aProtocol
  import opened A2aSafety
  import opened A2aRuns
  import opened A2aTheorems

  predicate IsStatus(event: PendingEvent) {
    event.eventType == "TaskStatusUpdateEvent"
  }

  predicate EndsWithStatus(events: seq<PendingEvent>) {
    events != [] && IsStatus(events[|events| - 1])
  }

  predicate WithoutStatus(events: seq<PendingEvent>) {
    forall i :: 0 <= i < |events| ==> !IsStatus(events[i])
  }

  /** The event is the status of a task that ends as the row state `closing`. */
  ghost predicate Announces(cfg: Config, event: PendingEvent, closing: RowState) {
    exists state: TaskState, content ::
      state.Final() && ClosingOf(state) == closing && event == StatusEvent(cfg, state, content)
  }

  ghost predicate EndsAnnouncing(cfg: Config, events: seq<PendingEvent>, closing: RowState) {
    events != [] && Announces(cfg, events[|events| - 1], closing)
  }

  /**
    The two ways to the finally block that decide nothing: the coroutine is interrupted, or it
    leaves because ownership was lost or a handler failed.
  */
  predicate Undecided(call: Call) {
    call.pc.Interrupted? || (call.pc.Closing? && call.pc.closing.Released?)
  }

  /** One of them, before any status was queued. */
  predicate Quiet(call: Call) {
    Undecided(call) && WithoutStatus(call.queued)
  }

  /** At some moment of the run the call was as `at` says. */
  ghost predicate Once(cfg: Config, steps: seq<Step>, c: nat, at: Call -> bool)
    decreases |steps|
  {
    || (c in Run(cfg, steps).calls && at(Run(cfg, steps).calls[c]))
    || (steps != [] && Once(cfg, steps[..|steps| - 1], c, at))
  }

  ghost predicate LeftUndecided(cfg: Config, steps: seq<Step>, c: nat) {
    Once(cfg, steps, c, Undecided)
  }

  ghost predicate LeftQuietly(cfg: Config, steps: seq<Step>, c: nat) {
    Once(cfg, steps, c, Quiet)
  }

  /** In `execute`, where no status can have been queued yet. */
  predicate BeforeStatus(pc: Pc) {
    || pc.Acquire? || pc.PollTask? || pc.PollRow? || pc.ReadReclaimed?
    || (pc.Executes() && !(pc.PublishedStatus? || pc.InHandler() || pc.InFinally()))
  }

  /** What a call has queued by the time it stands where it stands. */
  ghost predicate ClosingInv(cfg: Config, call: Call, quiet: bool, undecided: bool) {
    && (BeforeStatus(call.pc) ==> WithoutStatus(call.queued))
    && (call.pc.PublishedStatus? ==> EndsAnnouncing(cfg, call.queued, call.pc.closing))
    && (call.pc.Excepted? ==> WithoutStatus(call.queued) || EndsWithStatus(call.queued))
    && (BeforeStatus(call.pc) || call.pc.PublishedStatus? || call.pc.Excepted? ==> !quiet && !undecided)
    && (call.pc.Interrupted? ==> undecided)
    && (call.pc.Interrupted? || call.pc.InFinally() ==>
          if quiet then WithoutStatus(call.queued) else EndsWithStatus(call.queued))
    && (call.pc.InFinally() ==>
          && (undecided || EndsAnnouncing(cfg, call.queued, call.pc.closing))
          && (call.pc.closing.Completed? || call.pc.closing.Failed? ==> !undecided)
          && (call.pc.closing.Released? ==> undecided))
    && (call.pc.Releasing? ==> call.pending == [])
  }

  /** The invariant with the flags brought up to date. */
  ghost predicate ClosingNow(cfg: Config, call: Call, quiet: bool, undecided: bool) {
    ClosingInv(cfg, call, quiet || Quiet(call), undecided || Undecided(call))
  }

  lemma ClaimKeepsClosing(cfg: Config, st: Store, c: nat, call: Call, env: Env, quiet: bool, undecided: bool)
    requires ClosingInv(cfg, call, quiet, undecided) && !call.pc.Executes()
    ensures ClosingNow(cfg, AdvanceClaim(cfg, st, c, call, env).1, quiet, undecided)
  {
  }

  lemma CancelKeepsClosing(cfg: Config, st: Store, c: nat, call: Call, env: Env, quiet: bool, undecided: bool)
    requires !call.pc.Executes()
    requires !(call.pc.Holds() || call.pc.Acquire? || call.pc.PollTask? || call.pc.PollRow?)
    ensures ClosingNow(cfg, AdvanceCancel(cfg, st, c, call, env).1, quiet, undecided)
  {
    hide TxAcquire, TxRequestCancel, Announces, WithoutStatus;
  }

  lemma PublishedAnnounces(cfg: Config, call: Call, own: Ownership, state: TaskState, content: seq<byte>)
    requires state.Final()
    ensures EndsAnnouncing(cfg, PublishStatus(cfg, call, own, state, content).queued, ClosingOf(state))
  {
  }

  lemma AnnouncedIsStatus(cfg: Config, events: seq<PendingEvent>, closing: RowState)
    requires EndsAnnouncing(cfg, events, closing)
    ensures EndsWithStatus(events)
  {
  }

  lemma CheckKeepsClosing(cfg: Config, st: Store, call: Call, own: Ownership, env: Env, next: Call,
                          quiet: bool, undecided: bool)
    requires ClosingInv(cfg, call, quiet, undecided) && !quiet && !undecided
    requires WithoutStatus(call.queued) || EndsWithStatus(call.queued)
    requires ClosingNow(cfg, next, quiet, undecided)
    ensures ClosingNow(cfg, UnlessStopped(cfg, st, call, own, env, next), quiet, undecided)
  {
    hide StopReasonOf;
    PublishedAnnounces(cfg, call, own, TaskState.Canceled, env.content);
  }

  lemma ChecksKeepClosing(cfg: Config, st: Store, c: nat, call: Call, env: Env, quiet: bool, undecided: bool)
    requires ClosingInv(cfg, call, quiet, undecided)
    requires call.pc.FirstCheck? || call.pc.SecondCheck? || call.pc.ThirdCheck? || call.pc.Excepted?
    ensures ClosingNow(cfg, AdvanceRun(cfg, st, c, call, env).1, quiet, undecided)
  {
    var own := call.pc.own;
    PublishedAnnounces(cfg, call, own, TaskState.Failed, env.content);
    var failed := PublishStatus(cfg, call, own, TaskState.Failed, env.content);
    var next := match call.pc
      case FirstCheck(_) => call.(pc := Invoke(own))
      case SecondCheck(_, reply) =>
        if reply.error then failed
        else call.(pc := if reply.sessionId.Some? then BindReply(own, reply.sessionId.value) else ThirdCheck(own))
      case ThirdCheck(_) => Queue(call, EventOf(cfg, ArtifactMessage(env.content))).(pc := Complete(own))
      case _ => failed;
    assert ClosingNow(cfg, next, quiet, undecided);
    hide ClosingInv, ClosingNow, UnlessStopped, AdvanceFinally;
    CheckKeepsClosing(cfg, st, call, own, env, next, quiet, undecided);
  }

  lemma RunKeepsClosing(cfg: Config, st: Store, c: nat, call: Call, env: Env, quiet: bool, undecided: bool)
    requires ClosingInv(cfg, call, quiet, undecided) && call.pc.Executes()
    ensures ClosingNow(cfg, AdvanceRun(cfg, st, c, call, env).1, quiet, undecided)
  {
    if call.pc.FirstCheck? || call.pc.SecondCheck? || call.pc.ThirdCheck? || call.pc.Excepted? {
      ChecksKeepClosing(cfg, st, c, call, env, quiet, undecided);
    } else {
      if call.pc.Complete? {
        PublishedAnnounces(cfg, call, call.pc.own, TaskState.Completed, env.content);
      }
      hide UnlessStopped, TxBindSession, TxRelease, Announces;
      if call.pc.InFinally() {
        FinallyKeepsClosing(cfg, st, c, call, env, quiet, undecided);
      } else {
        hide AdvanceFinally;
      }
    }
  }

  lemma FinallyKeepsClosing(cfg: Config, st: Store, c: nat, call: Call, env: Env, quiet: bool, undecided: bool)
    requires ClosingInv(cfg, call, quiet, undecided) && call.pc.InFinally()
    ensures ClosingNow(cfg, AdvanceFinally(st, c, call, env).1, quiet, undecided)
  {
    hide TxRelease, Announces;
  }

  lemma OtherStepKeepsClosing(cfg: Config, st: Store, c: nat, call: Call, step: Step, quiet: bool, undecided: bool)
    requires ClosingInv(cfg, call, quiet, undecided) && !step.Advance?
    ensures ClosingNow(cfg, StepCall(cfg, st, c, call, step).1, quiet, undecided)
  {
    if call.pc.PublishedStatus? {
      AnnouncedIsStatus(cfg, call.queued, call.pc.closing);
    }
    hide AdvanceCall, TxHeartbeat, SaveOutcomeOf, SavedView, Announces;
  }

  lemma StepKeepsClosing(cfg: Config, st: Store, c: nat, call: Call, step: Step, quiet: bool, undecided: bool)
    requires ClosingInv(cfg, call, quiet, undecided)
    ensures ClosingNow(cfg, StepCall(cfg, st, c, call, step).1, quiet, undecided)
  {
    if !step.Advance? {
      OtherStepKeepsClosing(cfg, st, c, call, step, quiet, undecided);
    } else if !call.pc.Crashed? {
      hide ClosingInv, ClosingNow, AdvanceRun, AdvanceClaim;
      if call.pc.Executes() {
        RunKeepsClosing(cfg, st, c, call, step.env, quiet, undecided);
      } else if call.pc.Holds() || call.pc.Acquire? || call.pc.PollTask? || call.pc.PollRow? {
        ClaimKeepsClosing(cfg, st, c, call, step.env, quiet, undecided);
      } else {
        CancelKeepsClosing(cfg, st, c, call, step.env, quiet, undecided);
      }
    }
  }

  /** A call that has not begun was nowhere. */
  lemma {:induction false} UnbegunWasNowhere(cfg: Config, steps: seq<Step>, c: nat, at: Call -> bool)
    requires c !in Run(cfg, steps).calls
    ensures !Once(cfg, steps, c, at)
    decreases |steps|
  {
    if steps != [] {
      var init, last := steps[..|steps| - 1], steps[|steps| - 1];
      InitAndLast(steps);
      OneStepMore(cfg, init, last);
      UnbegunWasNowhere(cfg, init, c, at);
    }
  }

  lemma DoKeepsClosing(cfg: Config, s: Sys, step: Step, c: nat, quiet: bool, undecided: bool)
    requires if c in s.calls then ClosingInv(cfg, s.calls[c], quiet, undecided) else !quiet && !undecided
    requires c in Do(cfg, s, step).calls
    ensures ClosingNow(cfg, Do(cfg, s, step).calls[c], quiet, undecided)
  {
    hide StepCall;
    if c in s.calls && step.c == c {
      StepKeepsClosing(cfg, s.store, c, s.calls[c], step, quiet, undecided);
    }
  }

  lemma {:induction false} RunsKeepClosing(cfg: Config, steps: seq<Step>, c: nat)
    requires c in Run(cfg, steps).calls
    ensures ClosingInv(cfg, Run(cfg, steps).calls[c], LeftQuietly(cfg, steps, c), LeftUndecided(cfg, steps, c))
    decreases |steps|
  {
    if steps != [] {
      var init, last := steps[..|steps| - 1], steps[|steps| - 1];
      InitAndLast(steps);
      OneStepMore(cfg, init, last);
      if c in Run(cfg, init).calls {
        RunsKeepClosing(cfg, init, c);
      } else {
        UnbegunWasNowhere(cfg, init, c, Quiet);
        UnbegunWasNowhere(cfg, init, c, Undecided);
      }
      hide Do, ClosingInv;
      DoKeepsClosing(cfg, Run(cfg, init), last, c, LeftQuietly(cfg, init, c), LeftUndecided(cfg, init, c));
    }
  }

  /** The events of call `c` in the log, in log order. */
  function DurableEvents(cfg: Config, steps: seq<Step>, c: nat): seq<PendingEvent> {
    FromCall(AppendsOf(TraceOf(cfg, steps)), c)
  }

  /** Drain before release: an executor that releases has every event it ever queued in the log, in order. */
  lemma ReleaseIsDrained(cfg: Config, steps: seq<Step>, c: nat)
    requires c in Run(cfg, steps).calls && Run(cfg, steps).calls[c].pc.Releasing?
    ensures Run(cfg, steps).calls[c].pending == []
    ensures DurableEvents(cfg, steps, c) == Run(cfg, steps).calls[c].queued
  {
    RunsKeepClosing(cfg, steps, c);
    EventsAreDurableExactlyOnce(cfg, steps, c);
  }

  /**
    When an executor releases, its last durable event is a status if and only if it did not leave
    before one was queued; if it did, it has no durable status at all. Unless it left undecided,
    that status is the one of the state it closes with. It never leaves undecided when it closes
    as completed or failed, and always when it only releases.
  */
  lemma StatusIsDurableIff(cfg: Config, steps: seq<Step>, c: nat)
    requires c in Run(cfg, steps).calls && Run(cfg, steps).calls[c].pc.Releasing?
    ensures EndsWithStatus(DurableEvents(cfg, steps, c)) <==> !LeftQuietly(cfg, steps, c)
    ensures LeftQuietly(cfg, steps, c) ==> WithoutStatus(DurableEvents(cfg, steps, c))
    ensures var closing := Run(cfg, steps).calls[c].pc.closing;
      && (!LeftUndecided(cfg, steps, c) ==> EndsAnnouncing(cfg, DurableEvents(cfg, steps, c), closing))
      && (closing.Completed? || closing.Failed? ==> !LeftUndecided(cfg, steps, c))
      && (closing.Released? ==> LeftUndecided(cfg, steps, c))
  {
    RunsKeepClosing(cfg, steps, c);
    ReleaseIsDrained(cfg, steps, c);
  }

  /** A row is closed by nobody but a finalizer or an executor that releases. */
  ghost predicate ClosesRow(cfg: Config, steps: seq<Step>, step: Step) {
    var (row, row') := (ViewAfter(cfg, steps).row, ViewAfter(cfg, steps + [step]).row);
    row'.Some? && row'.value.state.Terminal() && (row.Some? ==> !row.value.state.Terminal())
  }

  lemma OnlyReleasesClose(cfg: Config, st: Store, c: nat, call: Call, step: Step)
    requires st.view.row.Some? ==> !st.view.row.value.state.Terminal()
    requires var row' := StepCall(cfg, st, c, call, step).0.view.row; row'.Some? && row'.value.state.Terminal()
    ensures step.Advance? && (call.pc.FinalRelease? || call.pc.Releasing?)
    ensures StepCall(cfg, st, c, call, step).0.view.row.value.state == call.pc.closing
  {
  }

  /**
    Whoever makes the row terminal, in any run: a finalizer, for which `FinalizerKeepsTheOutcome`
    speaks, or an executor, all of whose events are then in the log. The last of them is a status
    if and only if the executor did not leave before one was queued, and it is the status of the
    row's state unless the executor left undecided. Completed and failed rows always have theirs.
  */
  lemma ClosedRowHasItsStatusIff(cfg: Config, steps: seq<Step>, step: Step)
    requires ClosesRow(cfg, steps, step)
    ensures step.Advance? && step.c in Run(cfg, steps).calls
    ensures var (call, row') := (Run(cfg, steps).calls[step.c], ViewAfter(cfg, steps + [step]).row);
      && (call.pc.FinalRelease? || call.pc.Releasing?) && row'.value.state == call.pc.closing
      && (call.pc.Releasing? ==>
            && DurableEvents(cfg, steps, step.c) == call.queued
            && (EndsWithStatus(call.queued) <==> !LeftQuietly(cfg, steps, step.c))
            && (!LeftUndecided(cfg, steps, step.c) ==> EndsAnnouncing(cfg, call.queued, row'.value.state))
            && (!row'.value.state.Canceled? ==> !LeftUndecided(cfg, steps, step.c)))
  {
    OneStepMore(cfg, steps, step);
    var s := Run(cfg, steps);
    OnlyReleasesClose(cfg, s.store, step.c, s.calls[step.c], step);
    if s.calls[step.c].pc.Releasing? {
      ReleaseIsDrained(cfg, steps, step.c);
      StatusIsDurableIff(cfg, steps, step.c);
    }
  }
}
