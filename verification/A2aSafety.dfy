/**
  The protocol invariant: what a trace, the store and every call satisfy, and that each
  transaction keeps it.
*/
module A2aSafety {
  import opened Prelude
  import opened A2aOwnership
  import opened A2aEventStore
  import opened A2aTaskStore
  import opened A2aProtocol

  // ---------------------------------------------------------------------------
  // Reading a trace
  // ---------------------------------------------------------------------------

  /** How many times the task was granted. */
  function Grants(tr: seq<Obs>): nat {
    if tr == [] then 0 else Grants(tr[..|tr| - 1]) + (if tr[|tr| - 1].Granted? then 1 else 0)
  }

  /** Every fenced commit carries the fence of the latest grant; the k-th grant is fence k. */
  ghost predicate Stamped(tr: seq<Obs>) {
    tr != [] ==>
      Stamped(tr[..|tr| - 1]) && (tr[|tr| - 1].Fenced() ==> tr[|tr| - 1].fence == Grants(tr))
  }

  /** The fence was released. */
  ghost predicate Spent(tr: seq<Obs>, fence: int) {
    exists o :: o in tr && o.ReleasedBy? && o.fence == fence
  }

  /** Nothing fenced is committed under a fence after its release. */
  ghost predicate NothingAfterRelease(tr: seq<Obs>) {
    tr != [] ==>
      && NothingAfterRelease(tr[..|tr| - 1])
      && (tr[|tr| - 1].Fenced() ==> !Spent(tr[..|tr| - 1], tr[|tr| - 1].fence))
  }

  ghost predicate NoInvoke(tr: seq<Obs>, fence: int) {
    forall o :: o in tr && o.Invoked? ==> o.fence != fence
  }

  ghost predicate InvokedOnce(tr: seq<Obs>) {
    tr != [] ==>
      InvokedOnce(tr[..|tr| - 1]) && (tr[|tr| - 1].Invoked? ==> NoInvoke(tr[..|tr| - 1], tr[|tr| - 1].fence))
  }

  ghost predicate NoWriteBelow(tr: seq<Obs>, fence: int) {
    forall o :: o in tr && o.Written? ==> o.fence >= fence
  }

  /** No agent is invoked under a fence above one the task was written under. */
  ghost predicate NoReplay(tr: seq<Obs>) {
    forall o :: o in tr && o.Invoked? ==> NoWriteBelow(tr, o.fence)
  }

  ghost predicate OnlyGranteesAct(tr: seq<Obs>) {
    forall o :: o in tr && (o.Invoked? || (o.Written? && o.byFinalizer)) ==> Granted(o.call, o.fence) in tr
  }

  /** What the row's cancel flag must be: set by a request, reset by a release. */
  function CancelAfter(tr: seq<Obs>): bool {
    if tr == [] then false
    else
      match tr[|tr| - 1]
      case CancelRecorded(_) => true
      case ReleasedBy(_, _, _, keeps) => keeps
      case _ => CancelAfter(tr[..|tr| - 1])
  }

  /** The state of the last task write. */
  function LastWritten(tr: seq<Obs>): Option<TaskState> {
    if tr == [] then None
    else if tr[|tr| - 1].Written? then Some(tr[|tr| - 1].state)
    else LastWritten(tr[..|tr| - 1])
  }

  /** The log the appends of a trace must have produced: numbered 1, 2, 3, ... */
  function LogFrom(tr: seq<Obs>, tenantId: string, taskId: string): seq<EventRow> {
    if tr == [] then []
    else
      var log := LogFrom(tr[..|tr| - 1], tenantId, taskId);
      match tr[|tr| - 1]
      case Appended(_, fence, event) =>
        log + [EventRow(tenantId, taskId, fence, |log| + 1, event.eventType, event.payload)]
      case _ => log
  }

  /** The events one call made durable, in order. */
  function DurableOf(tr: seq<Obs>, c: nat): seq<PendingEvent> {
    if tr == [] then []
    else
      DurableOf(tr[..|tr| - 1], c)
      + (if tr[|tr| - 1].Appended? && tr[|tr| - 1].call == c then [tr[|tr| - 1].event] else [])
  }

  ghost predicate TraceInv(tr: seq<Obs>) {
    Stamped(tr) && NothingAfterRelease(tr) && InvokedOnce(tr) && NoReplay(tr) && OnlyGranteesAct(tr)
  }

  lemma Unsnoc(tr: seq<Obs>, o: Obs)
    ensures (tr + [o])[..|tr + [o]| - 1] == tr && (tr + [o])[|tr + [o]| - 1] == o
  {
  }

  lemma {:induction false} FencesAreBounded(tr: seq<Obs>, o: Obs)
    requires Stamped(tr) && o in tr && o.Fenced()
    ensures o.fence <= Grants(tr)
  {
    var init := tr[..|tr| - 1];
    if o in init {
      FencesAreBounded(init, o);
    } else {
      assert tr == init + [tr[|tr| - 1]];
    }
  }

  /** A fence is handed out to one call. */
  lemma {:induction false} GrantsAreDistinct(tr: seq<Obs>, c: nat, d: nat, fence: int)
    requires Stamped(tr) && Granted(c, fence) in tr && Granted(d, fence) in tr
    ensures c == d
  {
    var init, last := tr[..|tr| - 1], tr[|tr| - 1];
    assert tr == init + [last];
    if Granted(c, fence) in init && Granted(d, fence) in init {
      GrantsAreDistinct(init, c, d, fence);
    } else if Granted(c, fence) in init {
      FencesAreBounded(init, Granted(c, fence));
    } else if Granted(d, fence) in init {
      FencesAreBounded(init, Granted(d, fence));
    }
  }

  /** What a new observation must satisfy to extend a trace. */
  ghost predicate MayFollow(tr: seq<Obs>, o: Obs) {
    && (o.Fenced() ==> o.fence == Grants(tr) + (if o.Granted? then 1 else 0))
    && (o.Fenced() && !o.Granted? ==> !Spent(tr, o.fence))
    && (o.Invoked? ==> NoWriteBelow(tr, o.fence) && NoInvoke(tr, o.fence))
    && (o.Invoked? || (o.Written? && o.byFinalizer) ==> Granted(o.call, o.fence) in tr)
  }

  lemma EmitKeepsTrace(tr: seq<Obs>, o: Obs)
    requires TraceInv(tr) && MayFollow(tr, o)
    ensures TraceInv(tr + [o])
  {
    Unsnoc(tr, o);
    if o.Granted? && Spent(tr, o.fence) {
      var r :| r in tr && r.ReleasedBy? && r.fence == o.fence;
      FencesAreBounded(tr, r);
    }
    forall v | v in tr + [o] && v.Invoked? ensures NoWriteBelow(tr + [o], v.fence) {
      if v in tr {
        FencesAreBounded(tr, Granted(v.call, v.fence));
      }
    }
  }

  // ---------------------------------------------------------------------------
  // The store invariant
  // ---------------------------------------------------------------------------

  ghost predicate StoreInv(cfg: Config, st: Store) {
    var row, task, log := st.view.row, st.view.task, st.view.log;
    && TraceInv(st.trace)
    && RowOk(row)
    && (row.None? ==> st.trace == [] && task.None? && log == [])
    && (row.Some? ==>
         && row.value.fence == Grants(st.trace)
         && row.value.cancelRequested == CancelAfter(st.trace)
         && (row.value.ownerId.None? <==> Spent(st.trace, row.value.fence))
         && log == LogFrom(st.trace, TenantOf(row.value.scopeKey), cfg.taskId)
         && (task.Some? ==> task.value.owner == row.value.scopeKey && task.value.task.id == cfg.taskId))
    && LastWritten(st.trace) == (if task.Some? then Some(task.value.task.state) else None)
  }

  /** What a transaction of call `c` may have done to the store, as the other calls see it. */
  ghost predicate Evolves(st: Store, c: nat, st': Store) {
    var row, row' := st.view.row, st'.view.row;
    && st.trace <= st'.trace
    && (row.Some? ==> row'.Some? && row.value.fence <= row'.value.fence && row.value.scopeKey == row'.value.scopeKey)
    && (forall i :: |st.trace| <= i < |st'.trace| ==>
         && st'.trace[i].call == c
         && (st'.trace[i].Written? ==> row.Some? && st'.trace[i].fence == row.value.fence)
         && (st'.trace[i].Invoked? ==> Granted(c, st'.trace[i].fence) in st.trace))
    && (st'.view.task != st.view.task ==> |st.trace| < |st'.trace| && st'.trace[|st.trace|].Written?)
    && (forall d :: d != c ==> DurableOf(st'.trace, d) == DurableOf(st.trace, d))
  }

  ghost predicate SameDurables(st: Store, st': Store) {
    forall d :: DurableOf(st'.trace, d) == DurableOf(st.trace, d)
  }

  ghost predicate InvokesNothing(st: Store, st': Store) {
    forall f :: NoInvoke(st.trace, f) ==> NoInvoke(st'.trace, f)
  }

  /** One emission keeps the invariant when the row and the log follow the trace. */
  lemma EmitKeepsStore(cfg: Config, st: Store, view: View, o: Obs)
    requires StoreInv(cfg, st) && MayFollow(st.trace, o)
    requires view.row.Some? && RowOk(view.row)
    requires view.row.value.fence == Grants(st.trace) + (if o.Granted? then 1 else 0)
    requires st.view.row.Some? ==> st.view.row.value.scopeKey == view.row.value.scopeKey
    requires view.row.value.cancelRequested == CancelAfter(st.trace + [o])
    requires o.Granted? ==> view.row.value.ownerId.Some?
    requires o.ReleasedBy? ==> view.row.value.ownerId.None?
    requires !o.Granted? && !o.ReleasedBy? ==>
      st.view.row.Some? && (view.row.value.ownerId.None? <==> st.view.row.value.ownerId.None?)
    requires !o.Appended? ==> view.log == st.view.log
    requires o.Appended? ==>
      view.log == st.view.log + [EventRow(TenantOf(view.row.value.scopeKey), cfg.taskId, o.fence, |st.view.log| + 1,
                                          o.event.eventType, o.event.payload)]
    requires !o.Written? ==> view.task == st.view.task
    requires o.Written? ==>
      view.task.Some? && view.task.value.owner == view.row.value.scopeKey
      && view.task.value.task.id == cfg.taskId && view.task.value.task.state == o.state
    ensures StoreInv(cfg, Store(view, st.trace + [o]))
  {
    var tr := st.trace + [o];
    Unsnoc(st.trace, o);
    EmitKeepsTrace(st.trace, o);
    if o.Granted? {
      forall r | r in st.trace && r.ReleasedBy? ensures r.fence < o.fence {
        FencesAreBounded(st.trace, r);
      }
      assert !Spent(tr, o.fence);
    } else if o.ReleasedBy? {
      assert o in tr;
      assert Spent(tr, o.fence);
    } else {
      assert Spent(tr, Grants(st.trace)) <==> Spent(st.trace, Grants(st.trace));
    }
  }

  // ---------------------------------------------------------------------------
  // Every transaction keeps the store invariant
  // ---------------------------------------------------------------------------

  lemma OneEmission(st: Store, view: View, o: Obs)
    ensures var st' := Emit(st, view, o);
      && st.trace <= st'.trace && |st'.trace| == |st.trace| + 1 && st'.trace[|st.trace|] == o
      && forall d :: d != o.call ==> DurableOf(st'.trace, d) == DurableOf(st.trace, d)
  {
    Unsnoc(st.trace, o);
  }

  lemma AcquireKeeps(cfg: Config, st: Store, c: nat, call: Call, now: int, until: int)
    requires StoreInv(cfg, st)
    ensures var (st', granted) := TxAcquire(cfg, st, c, call, now, until);
      && StoreInv(cfg, st') && Evolves(st, c, st') && SameDurables(st, st')
      && (granted.Some? ==> GrantedNow(cfg, st', c, call, granted.value))
      && (granted.Some? && !granted.value.reclaimed ==> st'.view.task.None?)
  {
    var (st', granted) := TxAcquire(cfg, st, c, call, now, until);
    if granted.Some? {
      var o := Granted(c, granted.value.fence);
      OneEmission(st, st'.view, o);
      Unsnoc(st.trace, o);
      EmitKeepsStore(cfg, st, st'.view, o);
      forall v | v in st'.trace && v.Invoked? ensures v.fence < o.fence {
        assert Granted(v.call, v.fence) in st.trace;
        FencesAreBounded(st.trace, Granted(v.call, v.fence));
      }
    }
  }

  lemma HeartbeatKeeps(cfg: Config, st: Store, c: nat, call: Call, own: Ownership, until: int)
    requires StoreInv(cfg, st)
    ensures var st' := TxHeartbeat(st, c, call, own, until);
      StoreInv(cfg, st') && Evolves(st, c, st') && st'.view.task == st.view.task
      && SameDurables(st, st') && InvokesNothing(st, st')
  {
    var st' := TxHeartbeat(st, c, call, own, until);
    if st' != st {
      var o := Renewed(c, own.fence);
      OneEmission(st, st'.view, o);
      Unsnoc(st.trace, o);
      EmitKeepsStore(cfg, st, st'.view, o);
    }
  }

  lemma BindSessionKeeps(cfg: Config, st: Store, c: nat, call: Call, own: Ownership, sessionId: string)
    requires StoreInv(cfg, st)
    ensures var st' := TxBindSession(st, c, call, own, sessionId).0;
      StoreInv(cfg, st') && Evolves(st, c, st')
      && SameDurables(st, st')
  {
    var (st', bound) := TxBindSession(st, c, call, own, sessionId);
    if bound {
      var o := SessionBound(c, own.fence);
      OneEmission(st, st'.view, o);
      Unsnoc(st.trace, o);
      EmitKeepsStore(cfg, st, st'.view, o);
    }
  }

  lemma RequestCancelKeeps(cfg: Config, st: Store, c: nat, call: Call)
    requires StoreInv(cfg, st)
    ensures var st' := TxRequestCancel(st, c, call);
      StoreInv(cfg, st') && Evolves(st, c, st')
      && SameDurables(st, st')
  {
    var st' := TxRequestCancel(st, c, call);
    if RequestCancelRow(st.view.row, call.scope).1 {
      var o := CancelRecorded(c);
      OneEmission(st, st'.view, o);
      Unsnoc(st.trace, o);
      EmitKeepsStore(cfg, st, st'.view, o);
    }
  }

  lemma ReleaseKeeps(cfg: Config, st: Store, c: nat, call: Call, own: Ownership, closing: RowState)
    requires StoreInv(cfg, st) && !closing.Running?
    ensures var st' := TxRelease(st, c, call, own, closing).0;
      StoreInv(cfg, st') && Evolves(st, c, st')
      && SameDurables(st, st')
  {
    var (st', released) := TxRelease(st, c, call, own, closing);
    if released {
      var o := ReleasedBy(c, own.fence, closing, !closing.Released? && own.cancelRequested);
      OneEmission(st, st'.view, o);
      Unsnoc(st.trace, o);
      EmitKeepsStore(cfg, st, st'.view, o);
    }
  }

  lemma InvokeKeeps(cfg: Config, st: Store, c: nat, fence: int)
    requires StoreInv(cfg, st) && Granted(c, fence) in st.trace
    requires NoWriteBelow(st.trace, fence) && NoInvoke(st.trace, fence)
    ensures var st' := Emit(st, st.view, Invoked(c, fence));
      StoreInv(cfg, st') && Evolves(st, c, st')
      && SameDurables(st, st')
  {
    OneEmission(st, st.view, Invoked(c, fence));
    Unsnoc(st.trace, Invoked(c, fence));
    EmitKeepsStore(cfg, st, st.view, Invoked(c, fence));
  }

  /** The scope and task of a snapshot bound to a call's context. */
  ghost predicate BoundOk(cfg: Config, st: Store, call: Call) {
    call.bound.Some? ==>
      && call.bound.value.taskId == cfg.taskId && call.bound.value.scopeKey == call.scope
      && st.view.row.Some? && st.view.row.value.scopeKey == call.scope
  }

  lemma WriteKeeps(cfg: Config, st: Store, c: nat, own: Ownership, me: string, task: Task, byFinalizer: bool)
    requires StoreInv(cfg, st) && Names(st.view.row, own, me) && task.id == cfg.taskId
    requires byFinalizer ==> Granted(c, own.fence) in st.trace
    ensures var written := Written(c, own.fence, task.state, byFinalizer);
            StoreInv(cfg, Emit(st, st.view.(task := Some(TaskRow(own.scopeKey, task))), written))
  {
    var written := Written(c, own.fence, task.state, byFinalizer);
    Unsnoc(st.trace, written);
    EmitKeepsStore(cfg, st, st.view.(task := Some(TaskRow(own.scopeKey, task))), written);
  }

  lemma AppendKeeps(cfg: Config, st: Store, c: nat, own: Ownership, me: string, event: PendingEvent)
    requires StoreInv(cfg, st) && Names(st.view.row, own, me) && own.taskId == cfg.taskId
    ensures StoreInv(cfg, Emit(st, st.view.(log := AppendedLog(st.view.log, own, event)),
                               Appended(c, own.fence, event)))
  {
    var appended := Appended(c, own.fence, event);
    Unsnoc(st.trace, appended);
    LogIsNumbered(st.trace, TenantOf(own.scopeKey), cfg.taskId);
    NumberedMaximum(st.view.log);
    EmitKeepsStore(cfg, st, st.view.(log := AppendedLog(st.view.log, own, event)), appended);
  }

  lemma SaveKeeps(cfg: Config, st: Store, c: nat, call: Call, now: int, task: Task, byFinalizer: bool)
    requires StoreInv(cfg, st) && BoundOk(cfg, st, call)
    requires byFinalizer ==> call.bound.Some? && Granted(c, call.bound.value.fence) in st.trace
    ensures StoreInv(cfg, TxSave(cfg, st, c, call, now, task, byFinalizer).0)
  {
    var (st', call', outcome) := TxSave(cfg, st, c, call, now, task, byFinalizer);
    if outcome.Saved? {
      var own := call.bound.value;
      WriteKeeps(cfg, st, c, own, call.me, task, byFinalizer);
      if call.pending != [] {
        var mid := Emit(st, st.view.(task := Some(TaskRow(own.scopeKey, task))),
                        Written(c, own.fence, task.state, byFinalizer));
        AppendKeeps(cfg, mid, c, own, call.me, call.pending[0]);
      }
    }
  }

  /** A task write under the row's own fence, as the other calls see it. */
  lemma WriteEvolves(st: Store, c: nat, view: View, o: Obs)
    requires o.Written? && o.call == c && view.row == st.view.row && view.row.Some? && o.fence == view.row.value.fence
    ensures var st' := Emit(st, view, o);
      Evolves(st, c, st') && InvokesNothing(st, st') && SameDurables(st, st')
  {
    OneEmission(st, view, o);
    Unsnoc(st.trace, o);
  }

  /** The same with the append of one event behind it. */
  lemma WriteAndAppendEvolve(st: Store, c: nat, view: View, o: Obs, appended: Obs)
    requires o.Written? && o.call == c && view.row == st.view.row && view.row.Some? && o.fence == view.row.value.fence
    requires appended.Appended? && appended.call == c
    ensures var st' := Store(view, st.trace + [o] + [appended]);
      Evolves(st, c, st') && InvokesNothing(st, st')
      && DurableOf(st'.trace, c) == DurableOf(st.trace, c) + [appended.event]
  {
    WriteEvolves(st, c, view, o);
    var mid := Emit(st, view, o);
    OneEmission(mid, view, appended);
    Unsnoc(mid.trace, appended);
  }

  ghost predicate SaveEffect(st: Store, c: nat, call: Call, task: Task, byFinalizer: bool, st': Store, call': Call,
                             outcome: SaveOutcome)
  {
    && Evolves(st, c, st')
    && call' == call.(pending := call'.pending)
    && DurableOf(st'.trace, c) + call'.pending == DurableOf(st.trace, c) + call.pending
    && (outcome.Saved? ==>
          st'.view.task == Some(TaskRow(call.scope, task)) && st'.view.row == st.view.row
          && st.view.row.Some? && call.bound.Some?
          && |st.trace| < |st'.trace|
          && st'.trace[|st.trace|] == Written(c, st.view.row.value.fence, task.state, byFinalizer)
          && call.bound.value.fence == st.view.row.value.fence)
    && (!outcome.Saved? ==> st' == st && call' == call)
    && InvokesNothing(st, st')
  }

  /** What a save emits and consumes. */
  lemma SaveEvolves(cfg: Config, st: Store, c: nat, call: Call, now: int, task: Task, byFinalizer: bool)
    ensures var (st', call', outcome) := TxSave(cfg, st, c, call, now, task, byFinalizer);
      SaveEffect(st, c, call, task, byFinalizer, st', call', outcome)
  {
    var (st', call', outcome) := TxSave(cfg, st, c, call, now, task, byFinalizer);
    if outcome.Saved? {
      SavedEvolves(cfg, st, c, call, now, task, byFinalizer);
    }
  }

  lemma SavedEvolves(cfg: Config, st: Store, c: nat, call: Call, now: int, task: Task, byFinalizer: bool)
    requires TxSave(cfg, st, c, call, now, task, byFinalizer).2.Saved?
    ensures var (st', call', outcome) := TxSave(cfg, st, c, call, now, task, byFinalizer);
      SaveEffect(st, c, call, task, byFinalizer, st', call', outcome)
  {
    var own := call.bound.value;
    var written := Written(c, own.fence, task.state, byFinalizer);
    var view := SavedView(st.view, own, call.pending, call.scope, task);
    assert st.view.row.Some? && own.fence == st.view.row.value.fence;
    hide SaveOutcomeOf, Evolves, InvokesNothing, DurableOf;
    if call.pending == [] {
      WriteEvolves(st, c, view, written);
    } else {
      HeadAndTail(call.pending[0], call.pending[1..]);
      assert call.pending == [call.pending[0]] + call.pending[1..];
      Regroup(DurableOf(st.trace, c), [call.pending[0]], call.pending[1..]);
      WriteAndAppendEvolve(st, c, view, written, Appended(c, own.fence, call.pending[0]));
    }
  }

  lemma {:induction false} LogIsNumbered(tr: seq<Obs>, tenantId: string, taskId: string)
    ensures Numbered(LogFrom(tr, tenantId, taskId))
  {
    if tr != [] {
      LogIsNumbered(tr[..|tr| - 1], tenantId, taskId);
    }
  }

  // ---------------------------------------------------------------------------
  // The call invariant
  // ---------------------------------------------------------------------------

  /** The snapshot was granted to this call and is at most as new as the row. */
  ghost predicate HoldsGrant(cfg: Config, st: Store, c: nat, call: Call, own: Ownership) {
    && own.taskId == cfg.taskId && own.scopeKey == call.scope
    && Granted(c, own.fence) in st.trace
    && st.view.row.Some? && st.view.row.value.scopeKey == call.scope && own.fence <= st.view.row.value.fence
  }

  ghost predicate GrantedNow(cfg: Config, st: Store, c: nat, call: Call, own: Ownership) {
    HoldsGrant(cfg, st, c, call, own) && NoInvoke(st.trace, own.fence)
  }

  /** Only the finalizer that was granted the fence wrote the task under it. */
  ghost predicate SoleWriter(tr: seq<Obs>, fence: int) {
    forall o :: o in tr && o.Written? && o.fence == fence ==> o.byFinalizer
  }

  /** The task row holds `task`, unless the finalizer was overtaken or not alone at its fence. */
  ghost predicate StillDurable(st: Store, call: Call, own: Ownership, task: Task) {
    SoleWriter(st.trace, own.fence) && st.view.row.Some? && st.view.row.value.fence == own.fence ==>
      st.view.task == Some(TaskRow(call.scope, task))
  }

  ghost predicate FinalizerOk(st: Store, call: Call) {
    && (call.pc.Finalize? ==> StillDurable(st, call, call.pc.own, call.pc.read))
    && (call.pc.FinalRelease? ==>
         && StillDurable(st, call, call.pc.own, call.pc.final)
         && call.pc.final.state == FinalState(call.pc.own, call.pc.read, call.pc.viaCancel)
         && call.pc.closing == ClosingOf(call.pc.final.state)
         && (call.pc.read.state.Final() ==> call.pc.final == call.pc.read))
  }

  ghost predicate CallInv(cfg: Config, st: Store, c: nat, call: Call) {
    && (call.pc.Holds() ==> HoldsGrant(cfg, st, c, call, call.pc.own))
    && BoundOk(cfg, st, call)
    && (call.pc.Executes() ==> NoWriteBelow(st.trace, call.pc.own.fence))
    && (call.pc.BeforeInvoke() ==> NoInvoke(st.trace, call.pc.own.fence))
    && (call.pc.PublishedStatus? || call.pc.InFinally() ==> !call.pc.closing.Running?)
    && FinalizerOk(st, call)
    && DurableOf(st.trace, c) + call.pending == call.queued
  }

  lemma WritesStayAbove(st: Store, c: nat, st': Store, fence: int)
    requires Evolves(st, c, st') && NoWriteBelow(st.trace, fence)
    requires st.view.row.Some? && fence <= st.view.row.value.fence
    ensures NoWriteBelow(st'.trace, fence)
  {
    forall o | o in st'.trace && o.Written? ensures o.fence >= fence {
      var i :| 0 <= i < |st'.trace| && st'.trace[i] == o;
      if i < |st.trace| {
        assert st.trace[i] == o;
      }
    }
  }

  lemma Remembers(st: Store, c: nat, st': Store, o: Obs)
    requires Evolves(st, c, st') && o in st.trace
    ensures o in st'.trace
  {
    var i :| 0 <= i < |st.trace| && st.trace[i] == o;
    assert st'.trace[i] == o;
  }

  lemma OthersDoNotInvoke(st: Store, c: nat, st': Store, d: nat, fence: int)
    requires Stamped(st.trace) && Evolves(st, c, st') && c != d
    requires Granted(d, fence) in st.trace && NoInvoke(st.trace, fence)
    ensures NoInvoke(st'.trace, fence)
  {
    forall o | o in st'.trace && o.Invoked? ensures o.fence != fence {
      var i :| 0 <= i < |st'.trace| && st'.trace[i] == o;
      if i < |st.trace| {
        assert st.trace[i] == o;
      } else if o.fence == fence {
        GrantsAreDistinct(st.trace, c, d, fence);
      }
    }
  }

  /** While a finalizer is the sole writer at its fence, no other call changes the task it read or wrote. */
  lemma OthersLeaveTheTask(cfg: Config, st: Store, c: nat, st': Store, d: nat, other: Call, own: Ownership, task: Task)
    requires StoreInv(cfg, st') && Evolves(st, c, st') && c != d
    requires HoldsGrant(cfg, st, d, other, own) && StillDurable(st, other, own, task)
    ensures StillDurable(st', other, own, task)
  {
    if SoleWriter(st'.trace, own.fence) && st'.view.row.Some? && st'.view.row.value.fence == own.fence {
      forall o | o in st.trace ensures o in st'.trace {
        Remembers(st, c, st', o);
      }
      assert SoleWriter(st.trace, own.fence);
      if st'.view.task != st.view.task {
        var w := st'.trace[|st.trace|];
        assert w in st'.trace && w.byFinalizer && w.call == c && w.fence == own.fence;
        assert Granted(d, own.fence) in st'.trace;
        GrantsAreDistinct(st'.trace, c, d, own.fence);
      }
    }
  }

  lemma StoreIsStamped(cfg: Config, st: Store)
    requires StoreInv(cfg, st)
    ensures Stamped(st.trace)
  {
  }

  /** Whoever moved, a call still holds what it held. */
  lemma GrantKept(cfg: Config, st: Store, c: nat, st': Store, d: nat, call: Call, own: Ownership)
    requires Evolves(st, c, st') && HoldsGrant(cfg, st, d, call, own)
    ensures HoldsGrant(cfg, st', d, call, own)
  {
    Remembers(st, c, st', Granted(d, own.fence));
  }

  lemma BoundKept(cfg: Config, st: Store, c: nat, st': Store, call: Call)
    requires Evolves(st, c, st') && BoundOk(cfg, st, call)
    ensures BoundOk(cfg, st', call)
  {
  }

  lemma OthersDurables(st: Store, c: nat, st': Store, d: nat)
    requires Evolves(st, c, st') && c != d
    ensures DurableOf(st'.trace, d) == DurableOf(st.trace, d)
  {
  }

  /** A transaction of one call keeps the invariant of every other call. */
  lemma OthersKeep(cfg: Config, st: Store, c: nat, st': Store, d: nat, other: Call)
    requires StoreInv(cfg, st) && StoreInv(cfg, st') && Evolves(st, c, st') && c != d
    requires CallInv(cfg, st, d, other)
    ensures CallInv(cfg, st', d, other)
  {
    hide Evolves, StoreInv, BoundOk, NoWriteBelow, NoInvoke, StillDurable, DurableOf;
    BoundKept(cfg, st, c, st', other);
    OthersDurables(st, c, st', d);
    if other.pc.Holds() {
      var own := other.pc.own;
      GrantKept(cfg, st, c, st', d, other, own);
      if other.pc.Executes() {
        WritesStayAbove(st, c, st', own.fence);
      }
      if other.pc.BeforeInvoke() {
        StoreIsStamped(cfg, st);
        OthersDoNotInvoke(st, c, st', d, own.fence);
      }
      if other.pc.Finalize? {
        OthersLeaveTheTask(cfg, st, c, st', d, other, own, other.pc.read);
      }
      if other.pc.FinalRelease? {
        OthersLeaveTheTask(cfg, st, c, st', d, other, own, other.pc.final);
      }
    }
  }
}
