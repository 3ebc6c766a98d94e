/** The protocol invariant holds after every run. */
module A2aRuns {
  import opened Prelude
  import opened A2aOwnership
  import opened A2aEventStore
  import opened A2aTaskStore
  import opened A2aProtocol
  import opened A2aSafety

  /** A call that continues at `pc` after an own transaction that invoked nothing and wrote no task. */
  lemma CallSurvives(cfg: Config, st: Store, c: nat, st': Store, call: Call)
    requires Evolves(st, c, st') && SameDurables(st, st') && CallInv(cfg, st, c, call) && call.pc.Executes()
    requires call.pc.BeforeInvoke() ==> InvokesNothing(st, st')
    ensures CallInv(cfg, st', c, call)
  {
    GrantKept(cfg, st, c, st', c, call, call.pc.own);
    WritesStayAbove(st, c, st', call.pc.own.fence);
  }

  /** A call that has nothing left to protect. */
  lemma Retire(cfg: Config, st: Store, c: nat, st': Store, call: Call)
    requires Evolves(st, c, st') && SameDurables(st, st') && CallInv(cfg, st, c, call)
    ensures forall pc: Pc, replay :: !pc.Holds() ==> CallInv(cfg, st', c, call.(pc := pc, replay := replay))
  {
    forall pc: Pc, replay | !pc.Holds() ensures CallInv(cfg, st', c, call.(pc := pc, replay := replay)) {
      var after := call.(pc := pc, replay := replay);
      assert BoundOk(cfg, st', after);
    }
  }

  lemma {:induction false} UnwrittenTraceHasNoWrites(tr: seq<Obs>)
    requires LastWritten(tr).None?
    ensures forall o :: o in tr ==> !o.Written?
  {
    if tr != [] {
      UnwrittenTraceHasNoWrites(tr[..|tr| - 1]);
      assert tr == tr[..|tr| - 1] + [tr[|tr| - 1]];
    }
  }

  lemma QueueingConserves(tr: seq<Obs>, c: nat, call: Call, event: PendingEvent)
    requires DurableOf(tr, c) + call.pending == call.queued
    ensures DurableOf(tr, c) + Queue(call, event).pending == Queue(call, event).queued
  {
    assert DurableOf(tr, c) + (call.pending + [event]) == (DurableOf(tr, c) + call.pending) + [event];
  }

  // ---------------------------------------------------------------------------
  // Claiming and finalizing
  // ---------------------------------------------------------------------------

  /** A call that was just granted the task may go wherever a claim goes. */
  lemma GrantedCall(cfg: Config, st: Store, st': Store, c: nat, call: Call, own: Ownership)
    requires Evolves(st, c, st') && SameDurables(st, st') && CallInv(cfg, st, c, call)
    requires GrantedNow(cfg, st', c, call, own)
    requires !own.reclaimed ==> NoWriteBelow(st'.trace, own.fence)
    ensures CallInv(cfg, st', c, call.(pc := AfterClaim(own)))
    ensures CallInv(cfg, st', c, call.(pc := CancelFinalize(own)))
  {
    assert BoundOk(cfg, st', call);
  }

  lemma AcquireStep(cfg: Config, st: Store, c: nat, call: Call, now: int, until: int)
    requires StoreInv(cfg, st) && CallInv(cfg, st, c, call)
    ensures var (st', granted) := TxAcquire(cfg, st, c, call, now, until);
      && (granted.None? ==> st' == st)
      && (granted.Some? ==>
            && CallInv(cfg, st', c, call.(pc := AfterClaim(granted.value)))
            && CallInv(cfg, st', c, call.(pc := CancelFinalize(granted.value))))
  {
    AcquireKeeps(cfg, st, c, call, now, until);
    var (st', granted) := TxAcquire(cfg, st, c, call, now, until);
    if granted.Some? {
      if !granted.value.reclaimed {
        UnwrittenTraceHasNoWrites(st'.trace);
      }
      GrantedCall(cfg, st, st', c, call, granted.value);
    }
  }

  lemma ReadStep(cfg: Config, st: Store, c: nat, call: Call, env: Env)
    requires StoreInv(cfg, st) && CallInv(cfg, st, c, call)
    requires call.pc.ReadReclaimed? || call.pc.CancelFinalize?
    ensures CallInv(cfg, st, c, AdvanceClaim(cfg, st, c, call, env).1)
  {
    hide TxAcquire, TxRelease, TxSave, TraceInv, NoInvoke, DurableOf;
    if VisibleTask(st, call).None? {
      UnwrittenTraceHasNoWrites(st.trace);
    }
  }

  lemma FinalizeStep(cfg: Config, st: Store, c: nat, call: Call, env: Env)
    requires StoreInv(cfg, st) && CallInv(cfg, st, c, call) && call.pc.Finalize?
    ensures var (st', call') := AdvanceClaim(cfg, st, c, call, env);
      StoreInv(cfg, st') && Evolves(st, c, st')
  {
    NothingEvolves(st, c);
    hide StoreInv, Evolves, TxSave;
    var own, read := call.pc.own, call.pc.read;
    if !read.state.Final() {
      var state := FinalState(own, read, call.pc.viaCancel);
      var final := read.(state := state, body := if state.Failed? then env.body else read.body);
      SaveKeeps(cfg, st, c, call.(bound := Some(own)), env.now, final, true);
      SaveEvolves(cfg, st, c, call.(bound := Some(own)), env.now, final, true);
    }
  }

  /** The call after the finalizer's save succeeded. */
  lemma FinalizerSaved(cfg: Config, st: Store, c: nat, st': Store, call: Call, saved: Call, own: Ownership,
                       final: Task, read: Task, viaCancel: bool)
    requires Evolves(st, c, st') && HoldsGrant(cfg, st, c, call, own) && NoInvoke(st.trace, own.fence)
    requires InvokesNothing(st, st')
    requires saved == call.(bound := Some(own), pending := saved.pending)
    requires DurableOf(st'.trace, c) + saved.pending == saved.queued
    requires st'.view.task == Some(TaskRow(call.scope, final))
    requires final.state == FinalState(own, read, viaCancel) && !read.state.Final()
    ensures CallInv(cfg, st', c, saved.(pc := FinalRelease(own, ClosingOf(final.state), final, read, viaCancel)))
  {
    GrantKept(cfg, st, c, st', c, call, own);
  }

  lemma FinalizeCall(cfg: Config, st: Store, c: nat, call: Call, env: Env)
    requires CallInv(cfg, st, c, call) && call.pc.Finalize?
    ensures var (st', call') := AdvanceClaim(cfg, st, c, call, env); CallInv(cfg, st', c, call')
  {
    hide Evolves, TxSave;
    var own, read, viaCancel := call.pc.own, call.pc.read, call.pc.viaCancel;
    if !read.state.Final() {
      var state := FinalState(own, read, viaCancel);
      var final := read.(state := state, body := if state.Failed? then env.body else read.body);
      var with := call.(bound := Some(own));
      SaveEvolves(cfg, st, c, with, env.now, final, true);
      var (st', saved, outcome) := TxSave(cfg, st, c, with, env.now, final, true);
      if outcome.Saved? {
        FinalizerSaved(cfg, st, c, st', call, saved, own, final, read, viaCancel);
      }
    }
  }

  lemma ClaimStore(cfg: Config, st: Store, c: nat, call: Call, env: Env)
    requires StoreInv(cfg, st) && CallInv(cfg, st, c, call) && !call.pc.Executes()
    ensures var st' := AdvanceClaim(cfg, st, c, call, env).0; StoreInv(cfg, st') && Evolves(st, c, st')
  {
    NothingEvolves(st, c);
    if call.pc.FinalRelease? {
      assert !call.pc.closing.Running?;
    }
    hide CallInv, StoreInv, Evolves, TxAcquire, TxRelease, TxSave;
    if call.pc.Acquire? {
      AcquireKeeps(cfg, st, c, call, env.now, env.until);
    } else if call.pc.Finalize? {
      FinalizeStep(cfg, st, c, call, env);
    } else if call.pc.FinalRelease? {
      ReleaseKeeps(cfg, st, c, call, call.pc.own, call.pc.closing);
    }
  }

  lemma ClaimCall(cfg: Config, st: Store, c: nat, call: Call, env: Env)
    requires StoreInv(cfg, st) && CallInv(cfg, st, c, call) && !call.pc.Executes()
    ensures var (st', call') := AdvanceClaim(cfg, st, c, call, env); CallInv(cfg, st', c, call')
  {
    NothingEvolves(st, c);
    if call.pc.FinalRelease? {
      assert !call.pc.closing.Running?;
    }
    hide CallInv, StoreInv, Evolves, SameDurables, TxAcquire, TxRelease, TxSave;
    match call.pc
    case Acquire => AcquireStep(cfg, st, c, call, env.now, env.until);
    case PollTask => Retire(cfg, st, c, st, call);
    case PollRow(_) => Retire(cfg, st, c, st, call);
    case ReadReclaimed(_) => ReadStep(cfg, st, c, call, env);
    case CancelFinalize(_) => ReadStep(cfg, st, c, call, env);
    case Finalize(_, _, _) => FinalizeCall(cfg, st, c, call, env);
    case FinalRelease(own, closing, _, _, _) =>
      ReleaseKeeps(cfg, st, c, call, own, closing);
      Retire(cfg, st, c, TxRelease(st, c, call, own, closing).0, call);
    case _ =>
  }

  // ---------------------------------------------------------------------------
  // Executing
  // ---------------------------------------------------------------------------

  /** Publishing a final status, and leaving for the finally block without one. */
  lemma LeaveKeeps(cfg: Config, st: Store, c: nat, call: Call, env: Env, state: TaskState)
    requires CallInv(cfg, st, c, call) && call.pc.Executes() && state.Final()
    ensures CallInv(cfg, st, c, PublishStatus(cfg, call, call.pc.own, state, env.content))
    ensures CallInv(cfg, st, c, call.(pc := Closing(call.pc.own, Released)))
  {
    QueueingConserves(st.trace, c, call, StatusEvent(cfg, state, env.content));
  }

  lemma CheckedKeeps(cfg: Config, st: Store, c: nat, call: Call, env: Env, next: Call)
    requires CallInv(cfg, st, c, call) && call.pc.Executes() && CallInv(cfg, st, c, next)
    ensures CallInv(cfg, st, c, UnlessStopped(cfg, st, call, call.pc.own, env, next))
  {
    hide CallInv, PublishStatus;
    LeaveKeeps(cfg, st, c, call, env, TaskState.Canceled);
  }

  lemma PublishCall(cfg: Config, st: Store, c: nat, call: Call, env: Env)
    requires CallInv(cfg, st, c, call) && call.pc.Publish?
    ensures CallInv(cfg, st, c, AdvanceRun(cfg, st, c, call, env).1)
  {
    QueueingConserves(st.trace, c, call, EventOf(cfg, TaskMessage(env.content)));
  }

  /** Up to the invocation nothing was invoked under the fence. */
  lemma BeforeInvoking(cfg: Config, st: Store, c: nat, call: Call)
    requires CallInv(cfg, st, c, call) && (call.pc.PublishedTask? || call.pc.FirstCheck?)
    ensures CallInv(cfg, st, c, call.(pc := FirstCheck(call.pc.own)))
    ensures CallInv(cfg, st, c, call.(pc := Invoke(call.pc.own)))
  {
  }

  lemma CheckCall(cfg: Config, st: Store, c: nat, call: Call, env: Env)
    requires CallInv(cfg, st, c, call) && (call.pc.FirstCheck? || call.pc.Excepted?)
    ensures CallInv(cfg, st, c, AdvanceRun(cfg, st, c, call, env).1)
  {
    LeaveKeeps(cfg, st, c, call, env, TaskState.Failed);
    var next := PublishStatus(cfg, call, call.pc.own, TaskState.Failed, env.content);
    if call.pc.FirstCheck? {
      BeforeInvoking(cfg, st, c, call);
      next := call.(pc := Invoke(call.pc.own));
    }
    hide CallInv, UnlessStopped, PublishStatus, AdvanceFinally;
    CheckedKeeps(cfg, st, c, call, env, next);
  }

  lemma SecondCheckCall(cfg: Config, st: Store, c: nat, call: Call, env: Env)
    requires CallInv(cfg, st, c, call) && call.pc.SecondCheck?
    ensures CallInv(cfg, st, c, AdvanceRun(cfg, st, c, call, env).1)
  {
    hide CallInv, UnlessStopped, PublishStatus, AdvanceFinally;
    var own, reply := call.pc.own, call.pc.reply;
    if reply.error {
      LeaveKeeps(cfg, st, c, call, env, TaskState.Failed);
      CheckedKeeps(cfg, st, c, call, env, PublishStatus(cfg, call, own, TaskState.Failed, env.content));
    } else {
      var pc := if reply.sessionId.Some? then BindReply(own, reply.sessionId.value) else ThirdCheck(own);
      MoveOn(cfg, st, c, call, pc);
      CheckedKeeps(cfg, st, c, call, env, call.(pc := pc));
    }
  }

  lemma ThirdCheckCall(cfg: Config, st: Store, c: nat, call: Call, env: Env)
    requires CallInv(cfg, st, c, call) && call.pc.ThirdCheck?
    ensures CallInv(cfg, st, c, AdvanceRun(cfg, st, c, call, env).1)
  {
    var artifact := EventOf(cfg, ArtifactMessage(env.content));
    QueueingConserves(st.trace, c, call, artifact);
    var next := Queue(call, artifact).(pc := Complete(call.pc.own));
    assert CallInv(cfg, st, c, next);
    CheckedKeeps(cfg, st, c, call, env, next);
  }

  lemma HandlerCall(cfg: Config, st: Store, c: nat, call: Call, env: Env)
    requires CallInv(cfg, st, c, call) && (call.pc.AwaitReply? || call.pc.Interrupted?)
    ensures CallInv(cfg, st, c, AdvanceRun(cfg, st, c, call, env).1)
  {
    hide CallInv, AdvanceFinally, UnlessStopped, PublishStatus, TxBindSession;
    match call.pc
    case AwaitReply(own) => MoveOn(cfg, st, c, call, SecondCheck(own, env.reply));
    case Interrupted(own) =>
      MoveOn(cfg, st, c, call, Closing(own, RowState.Canceled));
      MoveOn(cfg, st, c, call, Closing(own, Released));
  }

  lemma FinallyCall(cfg: Config, st: Store, c: nat, call: Call, env: Env)
    requires CallInv(cfg, st, c, call) && (call.pc.Closing? || call.pc.Draining?)
    ensures CallInv(cfg, st, c, AdvanceFinally(st, c, call, env).1)
  {
    assert !call.pc.closing.Running?;
    NothingEvolves(st, c);
    hide CallInv, Evolves, SameDurables, TxRelease;
    match call.pc
    case Closing(own, closing) =>
      MoveOn(cfg, st, c, call, Draining(own, RowState.Canceled));
      MoveOn(cfg, st, c, call, Draining(own, closing));
    case Draining(own, closing) =>
      MoveOn(cfg, st, c, call, Releasing(own, closing));
      Retire(cfg, st, c, st, call);
  }

  lemma PublishedCall(cfg: Config, st: Store, c: nat, call: Call, env: Env)
    requires CallInv(cfg, st, c, call) && call.pc.PublishedStatus?
    ensures CallInv(cfg, st, c, AdvanceRun(cfg, st, c, call, env).1)
  {
    MoveOn(cfg, st, c, call, Closing(call.pc.own, call.pc.closing));
  }

  lemma InvokeCall(cfg: Config, st: Store, c: nat, call: Call, env: Env)
    requires StoreInv(cfg, st) && CallInv(cfg, st, c, call) && call.pc.Invoke?
    ensures var (st', call') := AdvanceRun(cfg, st, c, call, env); CallInv(cfg, st', c, call')
  {
    var own := call.pc.own;
    MoveOn(cfg, st, c, call, AwaitReply(own));
    InvokeKeeps(cfg, st, c, own.fence);
    hide CallInv, StoreInv, Evolves, SameDurables, UnlessStopped, PublishStatus, TxBindSession, AdvanceFinally;
    CallSurvives(cfg, st, c, Emit(st, st.view, Invoked(c, own.fence)), call.(pc := AwaitReply(own)));
  }

  lemma BindReplyCall(cfg: Config, st: Store, c: nat, call: Call, env: Env)
    requires StoreInv(cfg, st) && CallInv(cfg, st, c, call) && call.pc.BindReply?
    ensures var (st', call') := AdvanceRun(cfg, st, c, call, env); CallInv(cfg, st', c, call')
  {
    hide CallInv, StoreInv, Evolves, SameDurables, TxBindSession;
    var own, sessionId := call.pc.own, call.pc.sessionId;
    if ValidText(sessionId) {
      BindSessionKeeps(cfg, st, c, call, own, sessionId);
      var st' := TxBindSession(st, c, call, own, sessionId).0;
      CallSurvives(cfg, st, c, st', call);
      MoveOn(cfg, st', c, call, ThirdCheck(own));
      MoveOn(cfg, st', c, call, Closing(own, Released));
    } else {
      MoveOn(cfg, st, c, call, Excepted(own));
    }
  }

  /** Moving to a point of `execute` after the invocation needs nothing new. */
  lemma MoveOn(cfg: Config, st: Store, c: nat, call: Call, pc: Pc)
    requires CallInv(cfg, st, c, call) && call.pc.Executes()
    requires pc.Executes() && pc.own == call.pc.own && !pc.BeforeInvoke()
    requires pc.PublishedStatus? || pc.InFinally() ==> !pc.closing.Running?
    ensures CallInv(cfg, st, c, call.(pc := pc))
  {
  }

  lemma ReleasingCall(cfg: Config, st: Store, c: nat, call: Call, env: Env)
    requires StoreInv(cfg, st) && CallInv(cfg, st, c, call) && call.pc.Releasing?
    ensures var (st', call') := AdvanceFinally(st, c, call, env); CallInv(cfg, st', c, call')
  {
    assert !call.pc.closing.Running?;
    hide CallInv, StoreInv, Evolves, SameDurables, TxRelease;
    ReleaseKeeps(cfg, st, c, call, call.pc.own, call.pc.closing);
    Retire(cfg, st, c, TxRelease(st, c, call, call.pc.own, call.pc.closing).0, call);
  }

  lemma RunCall(cfg: Config, st: Store, c: nat, call: Call, env: Env)
    requires StoreInv(cfg, st) && CallInv(cfg, st, c, call) && call.pc.Executes()
    ensures var (st', call') := AdvanceRun(cfg, st, c, call, env); CallInv(cfg, st', c, call')
  {
    hide CallInv, StoreInv, TxBindSession, TxRelease, UnlessStopped, PublishStatus, Queue;
    match call.pc
    case Publish(_) => PublishCall(cfg, st, c, call, env);
    case PublishedTask(_) => BeforeInvoking(cfg, st, c, call);
    case PublishedStatus(_, _, _) => PublishedCall(cfg, st, c, call, env);
    case FirstCheck(_) => CheckCall(cfg, st, c, call, env);
    case Invoke(_) => InvokeCall(cfg, st, c, call, env);
    case SecondCheck(_, _) => SecondCheckCall(cfg, st, c, call, env);
    case BindReply(_, _) => BindReplyCall(cfg, st, c, call, env);
    case ThirdCheck(_) => ThirdCheckCall(cfg, st, c, call, env);
    case Excepted(_) => CheckCall(cfg, st, c, call, env);
    case Complete(_) => LeaveKeeps(cfg, st, c, call, env, TaskState.Completed);
    case Releasing(_, _) => ReleasingCall(cfg, st, c, call, env);
    case AwaitReply(_) => HandlerCall(cfg, st, c, call, env);
    case Interrupted(_) => HandlerCall(cfg, st, c, call, env);
    case _ => FinallyCall(cfg, st, c, call, env);
  }

  lemma RunStore(cfg: Config, st: Store, c: nat, call: Call, env: Env)
    requires StoreInv(cfg, st) && CallInv(cfg, st, c, call) && call.pc.Executes()
    ensures var st' := AdvanceRun(cfg, st, c, call, env).0; StoreInv(cfg, st') && Evolves(st, c, st')
  {
    NothingEvolves(st, c);
    hide StoreInv, Evolves, TxBindSession, TxRelease;
    if call.pc.Invoke? {
      InvokeKeeps(cfg, st, c, call.pc.own.fence);
    } else if call.pc.BindReply? {
      BindSessionKeeps(cfg, st, c, call, call.pc.own, call.pc.sessionId);
    } else if call.pc.Releasing? {
      ReleaseKeeps(cfg, st, c, call, call.pc.own, call.pc.closing);
    }
  }

  // ---------------------------------------------------------------------------
  // Cancelling, heartbeats and the SDK's consumer
  // ---------------------------------------------------------------------------

  lemma CancelStore(cfg: Config, st: Store, c: nat, call: Call, env: Env)
    requires StoreInv(cfg, st)
    ensures var st' := AdvanceCancel(cfg, st, c, call, env).0; StoreInv(cfg, st') && Evolves(st, c, st')
  {
    NothingEvolves(st, c);
    hide StoreInv, Evolves, TxAcquire, TxRequestCancel;
    if call.pc.CancelRequest? {
      RequestCancelKeeps(cfg, st, c, call);
    } else if call.pc.CancelTakeover? {
      AcquireKeeps(cfg, st, c, call, env.now, env.until);
    }
  }

  lemma CancelCall(cfg: Config, st: Store, c: nat, call: Call, env: Env)
    requires StoreInv(cfg, st) && CallInv(cfg, st, c, call) && !call.pc.Holds()
    ensures var (st', call') := AdvanceCancel(cfg, st, c, call, env); CallInv(cfg, st', c, call')
  {
    NothingEvolves(st, c);
    hide StoreInv, Evolves, SameDurables, TxRequestCancel;
    match call.pc
    case CancelRequest =>
      RequestCancelKeeps(cfg, st, c, call);
      Retire(cfg, st, c, TxRequestCancel(st, c, call), call);
    case CancelTakeover =>
      AcquireStep(cfg, st, c, call, env.now, env.until);
      Retire(cfg, st, c, st, call);
    case CancelPublish => QueueingConserves(st.trace, c, call, StatusEvent(cfg, TaskState.Canceled, env.content));
    case CancelRead => CancelReadCall(cfg, st, c, call, env);
    case CancelWait => Retire(cfg, st, c, st, call);
    case CancelWaitRow => Retire(cfg, st, c, st, call);
    case _ =>
  }

  lemma CancelReadCall(cfg: Config, st: Store, c: nat, call: Call, env: Env)
    requires CallInv(cfg, st, c, call) && call.pc.CancelRead?
    ensures CallInv(cfg, st, c, AdvanceCancel(cfg, st, c, call, env).1)
  {
  }

  /** A save by the consumer at the finalizer's own fence ends its sole-writer claim. */
  lemma ConsumeEndsSoleWriter(st: Store, c: nat, st': Store, call: Call, task: Task, own: Ownership, kept: Task)
    requires |st.trace| < |st'.trace| && st'.view.row == st.view.row && st.view.row.Some?
    requires st'.trace[|st.trace|] == Written(c, st.view.row.value.fence, task.state, false)
    ensures StillDurable(st', call, own, kept)
  {
    assert st'.trace[|st.trace|] in st'.trace;
  }

  lemma ConsumeCall(cfg: Config, st: Store, c: nat, call: Call, now: int, task: Task)
    requires CallInv(cfg, st, c, call)
    ensures var (st', call', _) := TxSave(cfg, st, c, call, now, task, false); CallInv(cfg, st', c, call')
  {
    SaveEvolves(cfg, st, c, call, now, task, false);
    var (st', call', outcome) := TxSave(cfg, st, c, call, now, task, false);
    if outcome.Saved? {
      ConsumedCall(cfg, st, c, st', call, call', task);
    }
  }

  lemma ConsumedCall(cfg: Config, st: Store, c: nat, st': Store, call: Call, call': Call, task: Task)
    requires CallInv(cfg, st, c, call) && Evolves(st, c, st') && InvokesNothing(st, st')
    requires call' == call.(pending := call'.pending)
    requires DurableOf(st'.trace, c) + call'.pending == call.queued
    requires |st.trace| < |st'.trace| && st'.view.row == st.view.row && st.view.row.Some?
    requires st'.trace[|st.trace|] == Written(c, st.view.row.value.fence, task.state, false)
    ensures CallInv(cfg, st', c, call')
  {
    if call.pc.Holds() {
      var own := call.pc.own;
      GrantKept(cfg, st, c, st', c, call, own);
      if call.pc.Executes() {
        WritesStayAbove(st, c, st', own.fence);
      }
      if call.pc.Finalize? {
        ConsumeEndsSoleWriter(st, c, st', call, task, own, call.pc.read);
      }
      if call.pc.FinalRelease? {
        ConsumeEndsSoleWriter(st, c, st', call, task, own, call.pc.final);
      }
    }
  }

  lemma ConsumeStore(cfg: Config, st: Store, c: nat, call: Call, now: int, task: Task)
    requires StoreInv(cfg, st) && CallInv(cfg, st, c, call)
    ensures var st' := TxSave(cfg, st, c, call, now, task, false).0; StoreInv(cfg, st') && Evolves(st, c, st')
  {
    hide StoreInv, Evolves, TxSave;
    SaveKeeps(cfg, st, c, call, now, task, false);
    SaveEvolves(cfg, st, c, call, now, task, false);
  }

  lemma NothingEvolves(st: Store, c: nat)
    ensures Evolves(st, c, st) && SameDurables(st, st)
  {
  }

  lemma StepStore(cfg: Config, st: Store, c: nat, call: Call, step: Step)
    requires StoreInv(cfg, st) && CallInv(cfg, st, c, call)
    ensures var st' := StepCall(cfg, st, c, call, step).0; StoreInv(cfg, st') && Evolves(st, c, st')
  {
    NothingEvolves(st, c);
    hide CallInv, StoreInv, Evolves, AdvanceRun, AdvanceClaim, AdvanceCancel, TxHeartbeat, TxSave;
    if step.Advance? && !call.pc.Crashed? {
      if call.pc.Executes() {
        RunStore(cfg, st, c, call, step.env);
      } else if call.pc.Holds() || call.pc.Acquire? || call.pc.PollTask? || call.pc.PollRow? {
        ClaimStore(cfg, st, c, call, step.env);
      } else {
        CancelStore(cfg, st, c, call, step.env);
      }
    } else if step.Beat? && call.pc.MayBeat() {
      HeartbeatKeeps(cfg, st, c, call, call.pc.own, step.until);
    } else if step.Consume? && !call.pc.Crashed? {
      ConsumeStore(cfg, st, c, call, step.now, step.task);
    }
  }

  lemma BeatCall(cfg: Config, st: Store, c: nat, call: Call, until: int)
    requires StoreInv(cfg, st) && CallInv(cfg, st, c, call) && call.pc.MayBeat()
    ensures CallInv(cfg, TxHeartbeat(st, c, call, call.pc.own, until), c, call)
  {
    hide CallInv, StoreInv, Evolves, TxHeartbeat;
    HeartbeatKeeps(cfg, st, c, call, call.pc.own, until);
    CallSurvives(cfg, st, c, TxHeartbeat(st, c, call, call.pc.own, until), call);
  }

  lemma StepOfCall(cfg: Config, st: Store, c: nat, call: Call, step: Step)
    requires StoreInv(cfg, st) && CallInv(cfg, st, c, call)
    ensures var (st', call') := StepCall(cfg, st, c, call, step); CallInv(cfg, st', c, call')
  {
    if call.pc.Crashed? {
      return;
    }
    hide CallInv, StoreInv, AdvanceRun, AdvanceClaim, AdvanceCancel, TxHeartbeat, TxSave;
    match step
    case Begin(_, _, _, _, _) =>
    case Advance(_, env) =>
      if call.pc.Executes() {
        RunCall(cfg, st, c, call, env);
      } else if call.pc.Holds() || call.pc.Acquire? || call.pc.PollTask? || call.pc.PollRow? {
        ClaimCall(cfg, st, c, call, env);
      } else {
        CancelCall(cfg, st, c, call, env);
      }
    case Beat(_, until) =>
      if call.pc.MayBeat() {
        BeatCall(cfg, st, c, call, until);
      }
    case Consume(_, now, task) => ConsumeCall(cfg, st, c, call, now, task);
    case _ => LocalStep(cfg, st, c, call, step);
  }

  /** Exceptions, cancellations and crashes move a call without touching the store. */
  lemma LocalStep(cfg: Config, st: Store, c: nat, call: Call, step: Step)
    requires CallInv(cfg, st, c, call)
    requires step.Raise? || step.Interrupt? || step.Abandon? || step.Crash?
    ensures StepCall(cfg, st, c, call, step).0 == st
    ensures CallInv(cfg, st, c, StepCall(cfg, st, c, call, step).1)
  {
    NothingEvolves(st, c);
    hide CallInv, Evolves, SameDurables;
    Retire(cfg, st, c, st, call);
    if call.pc.InTry() || call.pc.InHandler() {
      MoveOn(cfg, st, c, call, Excepted(call.pc.own));
      MoveOn(cfg, st, c, call, Interrupted(call.pc.own));
      MoveOn(cfg, st, c, call, Closing(call.pc.own, Released));
    }
  }

  ghost predicate Inv(cfg: Config, s: Sys) {
    StoreInv(cfg, s.store) && forall c :: c in s.calls ==> CallInv(cfg, s.store, c, s.calls[c])
  }

  lemma DoKeeps(cfg: Config, s: Sys, step: Step)
    requires Inv(cfg, s) && NoStrangers(s)
    ensures Inv(cfg, Do(cfg, s, step)) && NoStrangers(Do(cfg, s, step))
  {
    if step.c in s.calls && !step.Begin? {
      CallStepKeeps(cfg, s, step);
    } else if step.c !in s.calls && step.Begin? {
      BeginKeeps(cfg, s, step);
    }
  }

  lemma CallStepKeeps(cfg: Config, s: Sys, step: Step)
    requires Inv(cfg, s) && NoStrangers(s) && step.c in s.calls && !step.Begin?
    ensures Inv(cfg, Do(cfg, s, step)) && NoStrangers(Do(cfg, s, step))
  {
    hide CallInv, StoreInv, Evolves, StepCall, NoStrangers;
    var c, call := step.c, s.calls[step.c];
    StepStore(cfg, s.store, c, call, step);
    StepOfCall(cfg, s.store, c, call, step);
    var (st', call') := StepCall(cfg, s.store, c, call, step);
    OneCallMoved(cfg, s, c, st', call');
    hide Inv;
  }

  lemma BeginKeeps(cfg: Config, s: Sys, step: Step)
    requires Inv(cfg, s) && NoStrangers(s) && step.c !in s.calls && step.Begin?
    ensures Inv(cfg, Do(cfg, s, step)) && NoStrangers(Do(cfg, s, step))
  {
    hide StepCall, StoreInv;
    StrangersDidNothing(s.store.trace, step.c);
  }

  lemma OneCallMoved(cfg: Config, s: Sys, c: nat, st': Store, call': Call)
    requires Inv(cfg, s) && NoStrangers(s) && c in s.calls
    requires StoreInv(cfg, st') && Evolves(s.store, c, st') && CallInv(cfg, st', c, call')
    ensures var s' := Sys(st', s.calls[c := call']); Inv(cfg, s') && NoStrangers(s')
  {
    hide CallInv, StoreInv;
    var s' := Sys(st', s.calls[c := call']);
    forall d | d in s'.calls ensures CallInv(cfg, st', d, s'.calls[d]) {
      if d != c {
        OthersKeep(cfg, s.store, c, st', d, s.calls[d]);
      }
    }
    forall o | o in st'.trace ensures o.call in s'.calls {
      var i :| 0 <= i < |st'.trace| && st'.trace[i] == o;
      if i < |s.store.trace| {
        assert s.store.trace[i] in s.store.trace;
      }
    }
  }

  /** Every observation belongs to a call that has begun. */
  ghost predicate NoStrangers(s: Sys) {
    forall o :: o in s.store.trace ==> o.call in s.calls
  }

  lemma {:induction false} StrangersDidNothing(tr: seq<Obs>, c: nat)
    requires forall o :: o in tr ==> o.call != c
    ensures DurableOf(tr, c) == []
  {
    if tr != [] {
      StrangersDidNothing(tr[..|tr| - 1], c);
    }
  }

  lemma {:induction false} RunFromKeeps(cfg: Config, s: Sys, steps: seq<Step>)
    requires Inv(cfg, s) && NoStrangers(s)
    ensures Inv(cfg, RunFrom(cfg, s, steps)) && NoStrangers(RunFrom(cfg, s, steps))
    decreases |steps|
  {
    if steps != [] {
      DoKeeps(cfg, s, steps[0]);
      RunFromKeeps(cfg, Do(cfg, s, steps[0]), steps[1..]);
    }
  }

  /** The invariant holds after every run. */
  lemma EveryRunIsSafe(cfg: Config, steps: seq<Step>)
    ensures Inv(cfg, Run(cfg, steps)) && NoStrangers(Run(cfg, steps))
  {
    RunFromKeeps(cfg, Initial, steps);
  }
}
