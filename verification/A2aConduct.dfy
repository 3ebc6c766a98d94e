/**
  What one call does, told by the ownership row, the durable task and the trace alone: when it
  stops, when it may claim, what it replays and how an undisturbed execution ends.
*/
module A2aConduct {
  import opened Prelude
  import opened A2aOwnership
  import opened A2aEventStore
  import opened A2aTaskStore
  import opened A2aProtocol
  import opened A2aSafety
  import opened A2aRuns
  import opened A2aTheorems

  // ---------------------------------------------------------------------------
  // Stop checks
  // ---------------------------------------------------------------------------

  /** The row of the caller's scope is running for this worker under this fence, and its lease lies ahead. */
  predicate OwnsLive(row: Option<Row>, call: Call, fence: int, now: int) {
    row.Some? && row.value.scopeKey == call.scope && row.value.ownerId == Some(call.me) && row.value.fence == fence
    && row.value.state == Running && row.value.leaseUntil.Some? && now < row.value.leaseUntil.value
  }

  /** The points of `execute` at which the row is read again. */
  predicate ChecksRow(pc: Pc) {
    pc.FirstCheck? || pc.SecondCheck? || pc.ThirdCheck? || pc.Excepted?
  }

  /** The call queued exactly this message, and nothing else changed but where it stands. */
  predicate QueuesAndMoves(cfg: Config, call: Call, message: Message, call': Call, pc: Pc) {
    call' == call.(pc := pc, pending := call.pending + [EventOf(cfg, message)],
                   queued := call.queued + [EventOf(cfg, message)])
  }

  /** What a check lets through: the next thing `execute` has to do. */
  predicate GoesOn(cfg: Config, call: Call, env: Env, call': Call)
    requires ChecksRow(call.pc)
  {
    var own := call.pc.own;
    match call.pc
    case FirstCheck(_) => call' == call.(pc := Invoke(own))
    case SecondCheck(_, reply) =>
      if reply.error then
        QueuesAndMoves(cfg, call, StatusMessage(TaskState.Failed, env.content), call',
                       PublishedStatus(own, RowState.Failed, false))
      else if reply.sessionId.Some? then call' == call.(pc := BindReply(own, reply.sessionId.value))
      else call' == call.(pc := ThirdCheck(own))
    case ThirdCheck(_) => QueuesAndMoves(cfg, call, ArtifactMessage(env.content), call', Complete(own))
    case Excepted(_) =>
      QueuesAndMoves(cfg, call, StatusMessage(TaskState.Failed, env.content), call',
                     PublishedStatus(own, RowState.Failed, true))
    case _ => false
  }

  /**
    In every run, whoever wrote the row: a check under a live own lease with a recorded cancellation
    publishes CANCELED and nothing else, invokes nothing and is on its way to close the row as
    canceled; without a live own lease it leaves with nothing queued and nothing decided; and
    otherwise it goes on.
  */
  lemma StopCheckFollowsTheRow(cfg: Config, steps: seq<Step>, c: nat, env: Env)
    requires c in Run(cfg, steps).calls && ChecksRow(Run(cfg, steps).calls[c].pc)
    ensures var (s, s') := (Run(cfg, steps), Run(cfg, steps + [Advance(c, env)]));
      var (call, row) := (s.calls[c], s.store.view.row);
      var live := OwnsLive(row, call, call.pc.own.fence, env.now);
      && s'.store == s.store && c in s'.calls && s'.calls == s.calls[c := s'.calls[c]]
      && (live && row.value.cancelRequested ==>
            QueuesAndMoves(cfg, call, StatusMessage(TaskState.Canceled, env.content), s'.calls[c],
                           PublishedStatus(call.pc.own, RowState.Canceled, call.pc.Excepted?)))
      && (!live ==> s'.calls[c] == call.(pc := Closing(call.pc.own, Released)))
      && (live && !row.value.cancelRequested ==> GoesOn(cfg, call, env, s'.calls[c]))
  {
    var s := Run(cfg, steps);
    EveryRunIsSafe(cfg, steps);
    assert CallInv(cfg, s.store, c, s.calls[c]);
    OneStepMore(cfg, steps, Advance(c, env));
    hide RunFrom, CallInv, StoreInv;
    CheckStep(cfg, s.store, c, s.calls[c], env);
  }

  lemma CheckStep(cfg: Config, st: Store, c: nat, call: Call, env: Env)
    requires ChecksRow(call.pc) && call.pc.own.scopeKey == call.scope
    ensures var (st', call') := StepCall(cfg, st, c, call, Advance(c, env));
      var (row, live) := (st.view.row, OwnsLive(st.view.row, call, call.pc.own.fence, env.now));
      && st' == st
      && (live && row.value.cancelRequested ==>
            QueuesAndMoves(cfg, call, StatusMessage(TaskState.Canceled, env.content), call',
                           PublishedStatus(call.pc.own, RowState.Canceled, call.pc.Excepted?)))
      && (!live ==> call' == call.(pc := Closing(call.pc.own, Released)))
      && (live && !row.value.cancelRequested ==> GoesOn(cfg, call, env, call'))
  {
    hide TxBindSession, AdvanceFinally;
  }

  /** Decided: a status was published, or the call is past that, with this state to close as. */
  predicate ClosesAs(pc: Pc, own: Ownership, closing: RowState) {
    (pc.PublishedStatus? || pc.InFinally()) && pc.own == own && pc.closing == closing
  }

  /** Nothing makes the call leave again: no exception and no interrupt reach it. */
  predicate Undisturbed(steps: seq<Step>, c: nat) {
    forall i :: 0 <= i < |steps| ==> steps[i] != Raise(c) && steps[i] != Interrupt(c)
  }

  /**
    What a call has decided it does: however everything else interleaves, it still closes as that
    state or has ended, and if it released the row it released it as that state.
  */
  lemma {:induction false} DecisionIsKept(cfg: Config, steps: seq<Step>, later: seq<Step>, c: nat, own: Ownership,
                                          closing: RowState)
    requires c in Run(cfg, steps).calls && ClosesAs(Run(cfg, steps).calls[c].pc, own, closing) && !closing.Released?
    requires Undisturbed(later, c)
    ensures var (s, s') := (Run(cfg, steps), Run(cfg, steps + later));
      && c in s'.calls && |s.store.trace| <= |s'.store.trace|
      && (ClosesAs(s'.calls[c].pc, own, closing) || s'.calls[c].pc.Done? || s'.calls[c].pc.Crashed?)
      && forall i :: |s.store.trace| <= i < |s'.store.trace| ==>
           var o := s'.store.trace[i]; o.ReleasedBy? && o.call == c ==> o.fence == own.fence && o.closing == closing
    decreases |later|
  {
    if later == [] {
      assert steps + later == steps;
    } else {
      var n := |later| - 1;
      var init, last := later[..n], later[n];
      DecisionIsKept(cfg, steps, init, c, own, closing);
      assert steps + later == (steps + init) + [last];
      OneStepMore(cfg, steps + init, last);
      hide RunFrom;
      var s := Run(cfg, steps + init);
      if last.c in s.calls && !last.Begin? {
        StepKeepsDecision(cfg, s.store, last.c, s.calls[last.c], last, c, own, closing);
      }
    }
  }

  lemma StepKeepsDecision(cfg: Config, st: Store, d: nat, call: Call, step: Step, c: nat, own: Ownership,
                          closing: RowState)
    requires step.c == d && !closing.Released?
    requires d == c ==>
      && (ClosesAs(call.pc, own, closing) || call.pc.Done? || call.pc.Crashed?)
      && step != Raise(c) && step != Interrupt(c)
    ensures var (st', call') := StepCall(cfg, st, d, call, step);
      && st.trace <= st'.trace
      && (d == c ==> ClosesAs(call'.pc, own, closing) || call'.pc.Done? || call'.pc.Crashed?)
      && forall i :: |st.trace| <= i < |st'.trace| ==>
           var o := st'.trace[i]; o.ReleasedBy? && o.call == c ==> o.fence == own.fence && o.closing == closing
  {
    hide UnlessStopped, PublishStatus, SaveOutcomeOf, EventOf;
    if !step.Advance? {
      hide AdvanceCall;
    } else if call.pc.Executes() {
      hide AdvanceClaim, AdvanceCancel;
    } else {
      hide AdvanceRun;
    }
  }

  /**
    Whoever leaves undecided closes as the row says: canceled if a cancellation of its scope is
    recorded at that time, released otherwise. A decision is not reconsidered. The drain waits for
    every queued event and gives up without releasing when it times out.
  */
  lemma FinallyFollowsTheRow(cfg: Config, steps: seq<Step>, c: nat, env: Env)
    requires c in Run(cfg, steps).calls
    requires var pc := Run(cfg, steps).calls[c].pc; pc.Interrupted? || pc.Closing? || pc.Draining?
    ensures var (s, s') := (Run(cfg, steps), Run(cfg, steps + [Advance(c, env)]));
      var (call, row) := (s.calls[c], s.store.view.row);
      var (own, pc) := (call.pc.own, call.pc);
      var canceled := row.Some? && row.value.scopeKey == call.scope && row.value.cancelRequested;
      && s'.store == s.store && c in s'.calls
      && (pc.Interrupted? ==>
            s'.calls[c] == call.(pc := Closing(own, if canceled then RowState.Canceled else Released)))
      && (pc.Closing? ==>
            s'.calls[c] == call.(pc := Draining(own, if pc.closing == Released && canceled then RowState.Canceled
                                                     else pc.closing)))
      && (pc.Draining? ==>
            s'.calls[c] == (if !env.flag then call.(pc := Done)
                            else if call.pending == [] then call.(pc := Releasing(own, pc.closing)) else call))
  {
    OneStepMore(cfg, steps, Advance(c, env));
  }

  /** Between the first event and the finally block, outside the handlers. */
  predicate InsideTry(pc: Pc) {
    match pc
    case FirstCheck(_) => true
    case Invoke(_) => true
    case AwaitReply(_) => true
    case SecondCheck(_, _) => true
    case BindReply(_, _) => true
    case ThirdCheck(_) => true
    case Complete(_) => true
    case PublishedStatus(_, _, inHandler) => !inHandler
    case _ => false
  }

  predicate InsideHandler(pc: Pc) {
    match pc
    case Excepted(_) => true
    case Interrupted(_) => true
    case PublishedStatus(_, _, inHandler) => inHandler
    case _ => false
  }

  /**
    Exceptions and interrupts inside the try block reach their handler, inside a handler they leave
    for the finally block with nothing decided, and elsewhere a coroutine that ends just ends. No
    database is touched; a crashed call never moves again.
  */
  lemma DisturbancesReachTheirHandler(cfg: Config, steps: seq<Step>, c: nat)
    requires c in Run(cfg, steps).calls
    ensures var s := Run(cfg, steps);
      var (call, pc) := (s.calls[c], s.calls[c].pc);
      var (raised, interrupted, abandoned, crashed) :=
        (Run(cfg, steps + [Raise(c)]), Run(cfg, steps + [Interrupt(c)]), Run(cfg, steps + [Abandon(c)]),
         Run(cfg, steps + [Crash(c)]));
      && c in raised.calls && c in interrupted.calls && c in abandoned.calls && c in crashed.calls
      && raised.store == interrupted.store == abandoned.store == crashed.store == s.store
      && (InsideTry(pc) ==>
            && raised.calls[c] == call.(pc := Excepted(pc.own))
            && interrupted.calls[c] == call.(pc := Interrupted(pc.own)) && abandoned.calls[c] == call)
      && (InsideHandler(pc) ==>
            && raised.calls[c] == interrupted.calls[c] == call.(pc := Closing(pc.own, Released))
            && abandoned.calls[c] == call)
      && (!InsideTry(pc) && !InsideHandler(pc) ==>
            && raised.calls[c] == interrupted.calls[c] == call
            && abandoned.calls[c] == (if pc.Crashed? then call else call.(pc := Done)))
      && crashed.calls[c] == call.(pc := Crashed)
  {
    OneStepMore(cfg, steps, Raise(c));
    OneStepMore(cfg, steps, Interrupt(c));
    OneStepMore(cfg, steps, Abandon(c));
    OneStepMore(cfg, steps, Crash(c));
  }

  /** A request with valid identifiers starts a call with nothing bound, queued or replayed; nothing else starts one. */
  lemma RequestsStartCalls(cfg: Config, steps: seq<Step>, step: Step)
    ensures var (s, s') := (Run(cfg, steps), Run(cfg, steps + [step]));
      && (step.Begin? && step.c !in s.calls && ValidText(cfg.taskId) && ValidText(step.me) && ValidText(step.scope)
          && ValidText(step.contextId) ==>
            s' == s.(calls := s.calls[step.c := Call(step.me, step.scope, step.contextId,
                                                     if step.cancelling then CancelRequest else Acquire,
                                                     None, None, [], [])]))
      && (step.Begin? && step.c in s.calls ==> s' == s)
      && s'.calls.Keys <= s.calls.Keys + (if step.Begin? then {step.c} else {})
      && (forall d :: d in s.calls && d != step.c ==> d in s'.calls && s'.calls[d] == s.calls[d])
  {
    OneStepMore(cfg, steps, step);
    hide StepCall, ValidText;
  }

  // ---------------------------------------------------------------------------
  // Finalizing and saving
  // ---------------------------------------------------------------------------

  /** A save with this snapshot, these events and this task passes: its lease is live and its head event acceptable. */
  predicate Passes(cfg: Config, view: View, own: Ownership, pending: seq<PendingEvent>, call: Call, now: int,
                   task: Task)
  {
    && own.taskId == task.id && ValidOwnership(own) && view.row.Some? && OwnedBy(view.row.value, own, call.me)
    && view.row.value.state == Running && view.row.value.leaseUntil.Some? && now < view.row.value.leaseUntil.value
    && (pending == [] || EventAccepted(own, pending[0], cfg.maxPayloadBytes))
  }

  /** The task is stored for the caller, and the head event, if any, is the next row of the log. */
  predicate Stored(view: View, view': View, own: Ownership, pending: seq<PendingEvent>, call: Call, task: Task) {
    && view'.row == view.row && view'.task == Some(TaskRow(call.scope, task))
    && (pending == [] ==> view'.log == view.log)
    && (pending != [] ==>
          && |view'.log| == |view.log| + 1 && view'.log[..|view.log|] == view.log
          && var row := view'.log[|view.log|];
             row.taskId == own.taskId && row.fencingEpoch == own.fence
             && row.eventType == pending[0].eventType && row.payload == pending[0].payload)
  }

  /**
    The consumer's save writes exactly when the bound snapshot passes and nothing is being replayed, and else
    nothing.
  */
  lemma SaveFollowsTheRow(cfg: Config, steps: seq<Step>, c: nat, now: int, task: Task)
    requires c in Run(cfg, steps).calls && !Run(cfg, steps).calls[c].pc.Crashed?
    ensures var (s, s') := (Run(cfg, steps), Run(cfg, steps + [Consume(c, now, task)]));
      var (call, view, view') := (s.calls[c], s.store.view, s'.store.view);
      && c in s'.calls
      && (if call.replay.None? && call.bound.Some? && Passes(cfg, view, call.bound.value, call.pending, call, now, task)
          then Stored(view, view', call.bound.value, call.pending, call, task)
               && s'.calls[c] == call.(pending := if call.pending == [] then [] else call.pending[1..])
          else s' == s)
  {
    OneStepMore(cfg, steps, Consume(c, now, task));
    hide EventAccepted, ValidOwnership, ResolveTenantId, MaxSequence;
    var s := Run(cfg, steps);
    assert s.calls[c := s.calls[c]] == s.calls;
  }

  /** What a finalizer makes of the task it read: a final one goes to the release, any other is given up first. */
  ghost predicate Finalized(cfg: Config, view: View, call: Call, env: Env, view': View, call': Call)
    requires call.pc.Finalize?
  {
    var (own, read, via) := (call.pc.own, call.pc.read, call.pc.viaCancel);
    if read.state.Completed? || read.state.Failed? || read.state.Canceled? then
      view' == view && call' == call.(pc := FinalRelease(own, ClosingOf(read.state), read, read, via))
    else
      var canceled := via || own.cancelRequested;
      var closing := if canceled then RowState.Canceled else RowState.Failed;
      var final := if canceled then read.(state := TaskState.Canceled)
                   else read.(state := TaskState.Failed, body := env.body);
      if Passes(cfg, view, own, call.pending, call, env.now, final) then
        && Stored(view, view', own, call.pending, call, final)
        && call'.pc == FinalRelease(own, closing, final, read, via)
      else
        view' == view && call'.pc.Done? && call'.replay.None?
  }

  lemma FinalizeFollowsTheTask(cfg: Config, steps: seq<Step>, c: nat, env: Env)
    requires c in Run(cfg, steps).calls && Run(cfg, steps).calls[c].pc.Finalize?
      && Run(cfg, steps).calls[c].replay.None?
    ensures var (s, s') := (Run(cfg, steps), Run(cfg, steps + [Advance(c, env)]));
      c in s'.calls && Finalized(cfg, s.store.view, s.calls[c], env, s'.store.view, s'.calls[c])
  {
    OneStepMore(cfg, steps, Advance(c, env));
    FinalizingAdvance(cfg, Run(cfg, steps).store, c, Run(cfg, steps).calls[c], env);
    hide Finalized, AdvanceClaim, AdvanceRun, AdvanceCancel;
  }

  lemma FinalizingAdvance(cfg: Config, st: Store, c: nat, call: Call, env: Env)
    requires call.pc.Finalize? && call.replay.None?
    ensures var (st', call') := AdvanceClaim(cfg, st, c, call, env);
      Finalized(cfg, st.view, call, env, st'.view, call')
  {
    hide EventAccepted, ValidOwnership, ResolveTenantId, MaxSequence, TxAcquire, TxRelease;
  }

  /** The last act of a finalizer or executor: the row is closed exactly while it names the call's fence. */
  lemma ReleaseFollowsTheRow(cfg: Config, steps: seq<Step>, c: nat, env: Env)
    requires c in Run(cfg, steps).calls
    requires Run(cfg, steps).calls[c].pc.FinalRelease? || Run(cfg, steps).calls[c].pc.Releasing?
    ensures var (s, s') := (Run(cfg, steps), Run(cfg, steps + [Advance(c, env)]));
      var (call, row, pc) := (s.calls[c], s.store.view.row, s.calls[c].pc);
      var named := row.Some? && OwnedBy(row.value, pc.own, call.me);
      && c in s'.calls && s'.calls[c].pc.Done?
      && s'.store.view == (if !named then s.store.view
                           else s.store.view.(row := Some(row.value.(
                             ownerId := None, leaseUntil := None, state := pc.closing,
                             cancelRequested := pc.closing != Released && pc.own.cancelRequested))))
      && (pc.Releasing? ==> s'.calls[c].replay == call.replay)
      && (pc.FinalRelease? ==>
            s'.calls[c].replay == if named || pc.read.state.Final() then Some(pc.final) else call.replay)
  {
    OneStepMore(cfg, steps, Advance(c, env));
    hide TxAcquire, TxSave;
  }

  // ---------------------------------------------------------------------------
  // Claims, heartbeats and binds
  // ---------------------------------------------------------------------------

  /**
    An acquire is refused exactly when the row is not available to the scope; otherwise the row is
    claimed one fence up, only the row changes, and the call goes on with that snapshot: a first
    claim executes, a later one reads what its predecessor left, a cancel call finalizes.
  */
  lemma ClaimFollowsTheRow(cfg: Config, steps: seq<Step>, c: nat, env: Env)
    requires c in Run(cfg, steps).calls && Claims(Run(cfg, steps).calls[c].pc)
    ensures var (s, s') := (Run(cfg, steps), Run(cfg, steps + [Advance(c, env)]));
      var (call, row, row') := (s.calls[c], s.store.view.row, s'.store.view.row);
      && c in s'.calls
      && (if row.Some? && Unavailable(row.value, call.scope, env.now) then
            && s'.store == s.store
            && s'.calls[c] == call.(pc := if call.pc.Acquire? then PollTask else if env.flag then Done else CancelWait)
          else
            && s'.store.view == s.store.view.(row := row') && row'.Some?
            && ClaimedBy(row'.value, call.me, call.contextId, call.scope, env.until) && TakesOver(row'.value, row)
            && s'.store.trace == s.store.trace + [Granted(c, row'.value.fence)]
            && var own := Snapshot(cfg.taskId, row'.value, row.Some?);
               s'.calls[c] == call.(pc := if call.pc.CancelTakeover? then CancelFinalize(own)
                                          else if row.Some? then ReadReclaimed(own) else Publish(own)))
  {
    OneStepMore(cfg, steps, Advance(c, env));
    hide AdvanceRun;
  }

  /** A heartbeat renews the lease of a running row that still names its call's fence, and touches nothing else. */
  lemma HeartbeatFollowsTheRow(cfg: Config, steps: seq<Step>, c: nat, until: int)
    requires c in Run(cfg, steps).calls && Run(cfg, steps).calls[c].pc.MayBeat()
    ensures var (s, s') := (Run(cfg, steps), Run(cfg, steps + [Beat(c, until)]));
      var (call, row) := (s.calls[c], s.store.view.row);
      && s'.calls == s.calls
      && s'.store.view == (if row.Some? && row.value.state == Running && OwnedBy(row.value, call.pc.own, call.me)
                           then s.store.view.(row := Some(row.value.(leaseUntil := Some(until)))) else s.store.view)
  {
    OneStepMore(cfg, steps, Beat(c, until));
  }

  /** A session is bound under the call's fence or the call leaves; an invalid one counts as an exception. */
  lemma BindFollowsTheRow(cfg: Config, steps: seq<Step>, c: nat, env: Env)
    requires c in Run(cfg, steps).calls && Run(cfg, steps).calls[c].pc.BindReply?
    ensures var (s, s') := (Run(cfg, steps), Run(cfg, steps + [Advance(c, env)]));
      var (call, row) := (s.calls[c], s.store.view.row);
      var (own, id) := (call.pc.own, call.pc.sessionId);
      var binds := ValidText(id) && row.Some? && row.value.state == Running && OwnedBy(row.value, own, call.me);
      && c in s'.calls
      && s'.store.view == (if binds then s.store.view.(row := Some(row.value.(sessionId := Some(id))))
                           else s.store.view)
      && s'.calls[c] == call.(pc := if !ValidText(id) then Excepted(own)
                                    else if binds then ThirdCheck(own) else Closing(own, Released))
  {
    OneStepMore(cfg, steps, Advance(c, env));
    hide ValidText;
  }

  /** A cancel request is recorded on a running row of its scope, and then the row is read. */
  lemma RequestFollowsTheRow(cfg: Config, steps: seq<Step>, c: nat, env: Env)
    requires c in Run(cfg, steps).calls && Run(cfg, steps).calls[c].pc.CancelRequest?
    ensures var (s, s') := (Run(cfg, steps), Run(cfg, steps + [Advance(c, env)]));
      var (call, row) := (s.calls[c], s.store.view.row);
      && c in s'.calls && s'.calls[c] == call.(pc := CancelRead)
      && s'.store.view == (if row.Some? && row.value.scopeKey == call.scope && row.value.state == Running
                           then s.store.view.(row := Some(row.value.(cancelRequested := true))) else s.store.view)
  {
    OneStepMore(cfg, steps, Advance(c, env));
  }

  // ---------------------------------------------------------------------------
  // A live lease excludes everybody
  // ---------------------------------------------------------------------------

  /** Waiting for the answer of an acquire. */
  predicate Claims(pc: Pc) {
    pc.Acquire? || pc.CancelTakeover?
  }

  /** In a continuation every acquire reads a clock before the expiry that the row then records. */
  ghost predicate ClaimsReadBeforeExpiry(cfg: Config, steps: seq<Step>, later: seq<Step>) {
    forall k :: 0 <= k < |later| ==> ReadsBeforeExpiry(Run(cfg, steps + later[..k]), later[k])
  }

  predicate ReadsBeforeExpiry(s: Sys, step: Step) {
    var row := s.store.view.row;
    step.Advance? && step.c in s.calls && Claims(s.calls[step.c].pc) && row.Some? && row.value.leaseUntil.Some? ==>
      step.env.now < row.value.leaseUntil.value
  }

  /** From position `n` on the trace shows a release. */
  ghost predicate ReleasedSince(tr: seq<Obs>, n: nat) {
    exists i :: n <= i < |tr| && tr[i].ReleasedBy?
  }

  predicate SameOwner(row: Option<Row>, row': Option<Row>) {
    row.Some? && row'.Some? && row'.value.state == Running && row'.value.ownerId == row.value.ownerId
    && row'.value.fence == row.value.fence
  }

  ghost predicate NothingGrantedSince(tr: seq<Obs>, n: nat) {
    forall i :: n <= i < |tr| ==> !tr[i].Granted?
  }

  /**
    From every run with a running row: as long as nobody releases, owner and fence stay and nothing
    is granted to anyone, in every continuation whose acquires read clocks before the recorded
    expiry. (The fence of the next grant is one higher, so the owner itself is excluded too.)
  */
  lemma {:induction false} LiveLeaseExcludes(cfg: Config, steps: seq<Step>, later: seq<Step>)
    requires ViewAfter(cfg, steps).row.Some? && ViewAfter(cfg, steps).row.value.state == Running
    requires ClaimsReadBeforeExpiry(cfg, steps, later)
    ensures var (st, st') := (Run(cfg, steps).store, Run(cfg, steps + later).store);
      && |st.trace| <= |st'.trace|
      && (ReleasedSince(st'.trace, |st.trace|)
          || (SameOwner(st.view.row, st'.view.row) && NothingGrantedSince(st'.trace, |st.trace|)))
    decreases |later|
  {
    if later == [] {
      assert steps + later == steps;
    } else {
      var n := |later| - 1;
      var init, last := later[..n], later[n];
      forall k | 0 <= k < n ensures ReadsBeforeExpiry(Run(cfg, steps + init[..k]), init[k]) {
        assert init[..k] == later[..k] && init[k] == later[k];
        assert ReadsBeforeExpiry(Run(cfg, steps + later[..k]), later[k]);
      }
      LiveLeaseExcludes(cfg, steps, init);
      assert ReadsBeforeExpiry(Run(cfg, steps + later[..n]), later[n]);
      assert steps + later == (steps + init) + [last];
      OneStepMore(cfg, steps + init, last);
      EveryRunIsSafe(cfg, steps + init);
      hide RunFrom, Inv;
      StepUnderLease(cfg, Run(cfg, steps).store, Run(cfg, steps + init), last);
    }
  }

  lemma StepUnderLease(cfg: Config, st: Store, s: Sys, step: Step)
    requires |st.trace| <= |s.store.trace| && RowOk(s.store.view.row) && ReadsBeforeExpiry(s, step)
    requires ReleasedSince(s.store.trace, |st.trace|)
      || (SameOwner(st.view.row, s.store.view.row) && NothingGrantedSince(s.store.trace, |st.trace|))
    ensures var st' := Do(cfg, s, step).store;
      && |st.trace| <= |st'.trace|
      && (ReleasedSince(st'.trace, |st.trace|)
          || (SameOwner(st.view.row, st'.view.row) && NothingGrantedSince(st'.trace, |st.trace|)))
  {
    if step.c in s.calls && !step.Begin? {
      OneCallUnderLease(cfg, s.store, step.c, s.calls[step.c], step);
      var st' := StepCall(cfg, s.store, step.c, s.calls[step.c], step).0;
      hide StepCall;
      if i :| |st.trace| <= i < |s.store.trace| && s.store.trace[i].ReleasedBy? {
        assert st'.trace[i].ReleasedBy?;
      }
    }
  }

  lemma OneCallUnderLease(cfg: Config, st: Store, c: nat, call: Call, step: Step)
    requires RowOk(st.view.row)
    requires step.Advance? && Claims(call.pc) && st.view.row.Some? && st.view.row.value.leaseUntil.Some? ==>
      step.env.now < st.view.row.value.leaseUntil.value
    ensures var st' := StepCall(cfg, st, c, call, step).0;
      && st.trace <= st'.trace
      && (st.view.row.Some? && st.view.row.value.state == Running ==>
            ReleasedSince(st'.trace, |st.trace|)
            || (SameOwner(st.view.row, st'.view.row) && NothingGrantedSince(st'.trace, |st.trace|)))
  {
    hide UnlessStopped, PublishStatus, SaveOutcomeOf, EventOf;
    var st' := StepCall(cfg, st, c, call, step).0;
    assert |st'.trace| == |st.trace| + 1 && st'.trace[|st.trace|].ReleasedBy? ==>
      ReleasedSince(st'.trace, |st.trace|);
    if !step.Advance? {
      hide AdvanceCall;
    } else if call.pc.Executes() {
      hide AdvanceClaim, AdvanceCancel;
    } else {
      hide AdvanceRun;
    }
  }

  // ---------------------------------------------------------------------------
  // What is replayed was durable
  // ---------------------------------------------------------------------------

  /** At some moment of the run the database held this task of this scope. */
  ghost predicate WasDurable(cfg: Config, steps: seq<Step>, scope: string, task: Task) {
    exists k :: 0 <= k <= |steps| && ViewAfter(cfg, steps[..k]).task == Some(TaskRow(scope, task))
  }

  /** Every snapshot a call carries was durable when it took it. */
  ghost predicate CarriesDurables(cfg: Config, steps: seq<Step>, call: Call) {
    && (call.replay.Some? ==> WasDurable(cfg, steps, call.scope, call.replay.value))
    && (call.pc.PollRow? && call.pc.polled.Some? ==> WasDurable(cfg, steps, call.scope, call.pc.polled.value))
    && (call.pc.Finalize? ==> WasDurable(cfg, steps, call.scope, call.pc.read))
    && (call.pc.FinalRelease? ==> WasDurable(cfg, steps, call.scope, call.pc.final))
  }

  lemma DurableStays(cfg: Config, steps: seq<Step>, step: Step, scope: string, task: Task)
    requires WasDurable(cfg, steps, scope, task)
    ensures WasDurable(cfg, steps + [step], scope, task)
  {
    var k :| 0 <= k <= |steps| && ViewAfter(cfg, steps[..k]).task == Some(TaskRow(scope, task));
    assert (steps + [step])[..k] == steps[..k];
    hide ViewAfter;
  }

  lemma DurableNow(cfg: Config, steps: seq<Step>, scope: string, task: Task)
    requires ViewAfter(cfg, steps).task == Some(TaskRow(scope, task))
    ensures WasDurable(cfg, steps, scope, task)
  {
    assert steps[..|steps|] == steps;
  }

  /** What a call newly carries it just read or wrote. */
  ghost predicate CarriesAnew(st: Store, call: Call, st': Store, call': Call) {
    && call'.scope == call.scope
    && (call'.replay.Some? && call'.replay != call.replay ==>
          || st.view.task == Some(TaskRow(call.scope, call'.replay.value))
          || (call.pc.PollRow? && call.pc.polled == call'.replay)
          || (call.pc.FinalRelease? && Some(call.pc.final) == call'.replay))
    && (call'.pc.PollRow? && call'.pc.polled.Some? && call'.pc != call.pc ==>
          st.view.task == Some(TaskRow(call.scope, call'.pc.polled.value)))
    && (call'.pc.Finalize? && call'.pc != call.pc ==> st.view.task == Some(TaskRow(call.scope, call'.pc.read)))
    && (call'.pc.FinalRelease? && call'.pc != call.pc ==>
          || st'.view.task == Some(TaskRow(call.scope, call'.pc.final))
          || (call.pc.Finalize? && call.pc.read == call'.pc.final))
  }

  lemma StepCarries(cfg: Config, st: Store, c: nat, call: Call, step: Step)
    ensures var (st', call') := StepCall(cfg, st, c, call, step); CarriesAnew(st, call, st', call')
  {
    if !step.Advance? {
      hide AdvanceCall, SaveOutcomeOf, TxHeartbeat;
    } else if !call.pc.Crashed? {
      hide AdvanceRun, AdvanceClaim, AdvanceCancel, CarriesAnew;
      if call.pc.Executes() {
        ExecutingCarriesNothing(cfg, st, c, call, step.env);
        NothingAnew(st, call, AdvanceRun(cfg, st, c, call, step.env).0, AdvanceRun(cfg, st, c, call, step.env).1);
      } else if call.pc.Holds() || call.pc.Acquire? || call.pc.PollTask? || call.pc.PollRow? {
        ClaimCarries(cfg, st, c, call, step.env);
      } else {
        CancelCarries(cfg, st, c, call, step.env);
      }
    } else {
      NothingAnew(st, call, st, call);
    }
  }

  lemma NothingAnew(st: Store, call: Call, st': Store, call': Call)
    requires call'.scope == call.scope && call'.replay == call.replay
    requires call'.pc == call.pc || call'.pc.Executes() || call'.pc.Done?
    ensures CarriesAnew(st, call, st', call')
  {
  }

  lemma ClaimCarries(cfg: Config, st: Store, c: nat, call: Call, env: Env)
    requires !call.pc.Executes()
    ensures var (st', call') := AdvanceClaim(cfg, st, c, call, env); CarriesAnew(st, call, st', call')
  {
    hide AcquireRow, SaveOutcomeOf, TxRelease;
  }

  lemma CancelCarries(cfg: Config, st: Store, c: nat, call: Call, env: Env)
    requires !(call.pc.Executes() || call.pc.Holds())
    requires !(call.pc.Acquire? || call.pc.PollTask? || call.pc.PollRow?)
    ensures var (st', call') := AdvanceCancel(cfg, st, c, call, env); CarriesAnew(st, call, st', call')
  {
    hide AcquireRow, TxRequestCancel, EventOf;
  }

  lemma ExecutingCarriesNothing(cfg: Config, st: Store, c: nat, call: Call, env: Env)
    requires call.pc.Executes()
    ensures var call' := AdvanceRun(cfg, st, c, call, env).1;
      call'.scope == call.scope && call'.replay == call.replay && (call'.pc.Executes() || call'.pc.Done?)
  {
    hide StopReasonOf, EventOf, TxBindSession, TxRelease;
  }

  /** In every run a call replays only a task that the database held for its scope. */
  lemma {:induction false} ReplaysWereDurable(cfg: Config, steps: seq<Step>, c: nat)
    requires c in Run(cfg, steps).calls
    ensures CarriesDurables(cfg, steps, Run(cfg, steps).calls[c])
    decreases |steps|
  {
    if steps != [] {
      var init, last := steps[..|steps| - 1], steps[|steps| - 1];
      InitAndLast(steps);
      OneStepMore(cfg, init, last);
      var s := Run(cfg, init);
      if c in s.calls {
        ReplaysWereDurable(cfg, init, c);
        if last.c == c {
          StepCarries(cfg, s.store, c, s.calls[c], last);
        }
        CarriedStays(cfg, init, last, c);
      }
    }
  }

  lemma CarriedStays(cfg: Config, init: seq<Step>, last: Step, c: nat)
    requires c in Run(cfg, init).calls && CarriesDurables(cfg, init, Run(cfg, init).calls[c])
    ensures c in Run(cfg, init + [last]).calls
    ensures CarriesDurables(cfg, init + [last], Run(cfg, init + [last]).calls[c])
  {
    var (s, steps) := (Run(cfg, init), init + [last]);
    OneStepMore(cfg, init, last);
    var (call, s') := (s.calls[c], Run(cfg, steps));
    if last.c == c {
      StepCarries(cfg, s.store, c, call, last);
    }
    var call' := s'.calls[c];
    hide Run, StepCall, WasDurable;
    forall task | WasDurable(cfg, init, call.scope, task) || s.store.view.task == Some(TaskRow(call.scope, task))
      || s'.store.view.task == Some(TaskRow(call.scope, task))
      ensures WasDurable(cfg, steps, call.scope, task)
    {
      if s'.store.view.task == Some(TaskRow(call.scope, task)) {
        DurableNow(cfg, steps, call.scope, task);
      } else {
        if s.store.view.task == Some(TaskRow(call.scope, task)) {
          DurableNow(cfg, init, call.scope, task);
        }
        DurableStays(cfg, init, last, call.scope, task);
      }
    }
  }

  // ---------------------------------------------------------------------------
  // Only the owner's worker publishes a cancellation
  // ---------------------------------------------------------------------------

  /**
    A cancel call reads the row after its request: the worker that owns the task binds that row's
    snapshot and publishes, as does a call that finds no row of its scope, under no fence; every
    other one waits.
  */
  lemma CancelReadFollowsTheRow(cfg: Config, steps: seq<Step>, c: nat, env: Env)
    requires c in Run(cfg, steps).calls && Run(cfg, steps).calls[c].pc.CancelRead?
    ensures var (s, s') := (Run(cfg, steps), Run(cfg, steps + [Advance(c, env)]));
      var (call, row) := (s.calls[c], s.store.view.row);
      var found := row.Some? && row.value.scopeKey == call.scope;
      && s'.store == s.store && c in s'.calls
      && s'.calls[c] == (if !found then call.(pc := CancelPublish)
                         else if row.value.ownerId == Some(call.me)
                         then call.(bound := Some(Snapshot(cfg.taskId, row.value, false)), pc := CancelPublish)
                         else call.(pc := CancelWait))
  {
    OneStepMore(cfg, steps, Advance(c, env));
  }

  /** Waiting for the owner, or finalizing what it left. */
  predicate WaitsForOwner(pc: Pc) {
    || pc.CancelWait? || pc.CancelWaitRow? || pc.CancelTakeover? || pc.CancelFinalize?
    || pc.Finalize? || pc.FinalRelease? || pc.Done? || pc.Crashed?
  }

  /** A cancel call that has to wait never publishes anything, in any continuation. */
  lemma {:induction false} WaitingCancelPublishesNothing(cfg: Config, steps: seq<Step>, later: seq<Step>, c: nat)
    requires c in Run(cfg, steps).calls && WaitsForOwner(Run(cfg, steps).calls[c].pc)
    ensures c in Run(cfg, steps + later).calls && WaitsForOwner(Run(cfg, steps + later).calls[c].pc)
    ensures Run(cfg, steps + later).calls[c].queued == Run(cfg, steps).calls[c].queued
    decreases |later|
  {
    if later == [] {
      assert steps + later == steps;
    } else {
      var n := |later| - 1;
      WaitingCancelPublishesNothing(cfg, steps, later[..n], c);
      assert steps + later == (steps + later[..n]) + [later[n]];
      OneStepMore(cfg, steps + later[..n], later[n]);
      var s := Run(cfg, steps + later[..n]);
      hide RunFrom;
      if later[n].c == c {
        WaitingStep(cfg, s.store, c, s.calls[c], later[n]);
      }
    }
  }

  lemma WaitingStep(cfg: Config, st: Store, c: nat, call: Call, step: Step)
    requires WaitsForOwner(call.pc)
    ensures var call' := StepCall(cfg, st, c, call, step).1; WaitsForOwner(call'.pc) && call'.queued == call.queued
  {
    hide AdvanceRun, AcquireRow, SaveOutcomeOf;
  }

  /**
    When a waiting cancel call tries to take over: the row is of its scope, not its own worker's,
    and not running or past its lease; otherwise it waits on or gives up.
  */
  lemma TakeoverFollowsTheRow(cfg: Config, steps: seq<Step>, c: nat, env: Env)
    requires c in Run(cfg, steps).calls && Run(cfg, steps).calls[c].pc.CancelWaitRow?
    ensures var (s, s') := (Run(cfg, steps), Run(cfg, steps + [Advance(c, env)]));
      var (call, row) := (s.calls[c], s.store.view.row);
      var found := row.Some? && row.value.scopeKey == call.scope;
      && s'.store == s.store && c in s'.calls && s'.calls[c] == call.(pc := s'.calls[c].pc)
      && (s'.calls[c].pc.CancelTakeover? <==>
            && found && row.value.ownerId != Some(call.me)
            && (row.value.state != Running || row.value.leaseUntil.None? || row.value.leaseUntil.value <= env.now))
      && (!found ==> s'.calls[c].pc.Done?)
      && (found && !s'.calls[c].pc.CancelTakeover? ==> s'.calls[c].pc == if env.flag then Done else CancelWait)
  {
    OneStepMore(cfg, steps, Advance(c, env));
  }

  /**
    A call that was refused the task: a final task of its scope is replayed; if there is none, the
    row decides: a released or absent one is claimed, a terminal one ends the wait with what was
    read, and a running one is waited for.
  */
  lemma WaitingFollowsTheTask(cfg: Config, steps: seq<Step>, c: nat, env: Env)
    requires c in Run(cfg, steps).calls
    requires Run(cfg, steps).calls[c].pc.PollTask? || Run(cfg, steps).calls[c].pc.PollRow?
      || Run(cfg, steps).calls[c].pc.CancelWait?
    ensures var (s, s') := (Run(cfg, steps), Run(cfg, steps + [Advance(c, env)]));
      var (call, row, task) := (s.calls[c], s.store.view.row, s.store.view.task);
      var seen := task.Some? && task.value.owner == call.scope;
      var final := seen && task.value.task.state in {TaskState.Completed, TaskState.Failed, TaskState.Canceled};
      var found := row.Some? && row.value.scopeKey == call.scope;
      && s'.store == s.store && c in s'.calls
      && (!call.pc.PollRow? && final ==> s'.calls[c] == call.(replay := Some(task.value.task), pc := Done))
      && (call.pc.PollTask? && !final ==>
            s'.calls[c] == call.(pc := PollRow(if seen then Some(task.value.task) else None)))
      && (call.pc.CancelWait? && !final ==> s'.calls[c] == call.(pc := CancelWaitRow))
      && (call.pc.PollRow? ==>
            s'.calls[c] == (if !found || row.value.state == Released then call.(pc := Acquire)
                            else if row.value.state == Running then call.(pc := PollTask)
                            else if call.pc.polled.Some? then call.(replay := call.pc.polled, pc := Done)
                            else call.(pc := Done)))
  {
    OneStepMore(cfg, steps, Advance(c, env));
  }
}
