/**
  The executor protocol as a state machine: any number of protocol calls on any
  number of workers share the ownership row, the task row and the event log of
  one task. One step is one database transaction or one local action between
  two awaits. A run is an arbitrary sequence of steps; a step that is not
  enabled does nothing, so every interleaving is some run.

  Clock readings, lease lengths, payloads, agent replies, the tasks the SDK's
  consumer saves, exceptions, timeouts and crashes are all chosen by the run.
  Rows are never deleted.
*/
module A2aProtocol {
  import opened Prelude
  import opened A2aOwnership
  import opened A2aEventStore
  import opened A2aTaskStore

  // ---------------------------------------------------------------------------
  // State
  // ---------------------------------------------------------------------------

  /** The protocol messages an executor publishes; `body` is everything but the state of a status. */
  datatype Message =
    | TaskMessage(body: seq<byte>)
    | ArtifactMessage(body: seq<byte>)
    | StatusMessage(state: TaskState, body: seq<byte>)
  {
    function TypeName(): string {
      match this
      case TaskMessage(_) => "Task"
      case ArtifactMessage(_) => "TaskArtifactUpdateEvent"
      case StatusMessage(_, _) => "TaskStatusUpdateEvent"
    }
  }

  /** The task all calls of a run are about, the event payload limit and the protobuf serialization. */
  datatype Config = Config(taskId: string, maxPayloadBytes: int, serialize: Message -> seq<byte>)

  function EventOf(cfg: Config, message: Message): PendingEvent {
    PendingEvent(message.TypeName(), cfg.serialize(message))
  }

  datatype Reply = Reply(error: bool, sessionId: Option<string>)

  /** Where a call stands in `execute` or `cancel`. */
  datatype Pc =
    // claiming the task
    | Acquire
    | PollTask
    | PollRow(polled: Option<Task>)
    | ReadReclaimed(own: Ownership)
    // finalizing an abandoned task
    | Finalize(own: Ownership, read: Task, viaCancel: bool)
    | FinalRelease(own: Ownership, closing: RowState, final: Task, read: Task, viaCancel: bool)
    // executing; `PublishedTask`, `Complete` and `PublishedStatus` wait for the SDK queue to take the bound event
    | Publish(own: Ownership)
    | PublishedTask(own: Ownership)
    | FirstCheck(own: Ownership)
    | Invoke(own: Ownership)
    | AwaitReply(own: Ownership)
    | SecondCheck(own: Ownership, reply: Reply)
    | BindReply(own: Ownership, sessionId: string)
    | ThirdCheck(own: Ownership)
    | Complete(own: Ownership)
    | PublishedStatus(own: Ownership, closing: RowState, inHandler: bool)
    | Excepted(own: Ownership)
    | Interrupted(own: Ownership)
    // the finally block
    | Closing(own: Ownership, closing: RowState)
    | Draining(own: Ownership, closing: RowState)
    | Releasing(own: Ownership, closing: RowState)
    // cancelling
    | CancelRequest
    | CancelRead
    | CancelPublish
    | CancelWait
    | CancelWaitRow
    | CancelTakeover
    | CancelFinalize(own: Ownership)
    // ended
    | Done
    | Crashed
  {
    /** The call holds a snapshot it was granted. */
    predicate Holds() {
      !(Acquire? || PollTask? || PollRow? || CancelRequest? || CancelRead? || CancelPublish?
        || CancelWait? || CancelWaitRow? || CancelTakeover? || Done? || Crashed?)
    }

    /** Inside the try block of `execute`, where the heartbeat runs. */
    predicate InTry() {
      FirstCheck? || Invoke? || AwaitReply? || SecondCheck? || BindReply? || ThirdCheck? || Complete?
      || (PublishedStatus? && !inHandler)
    }

    /** Inside one of its except blocks. */
    predicate InHandler() {
      Excepted? || Interrupted? || (PublishedStatus? && inHandler)
    }

    /** In the finally block. */
    predicate InFinally() {
      Closing? || Draining? || Releasing?
    }

    /** A heartbeat may commit: the loop runs, or its cancelled transaction is still under way. */
    predicate MayBeat() {
      InTry() || InHandler() || InFinally()
    }

    /** `execute` proceeds with the claim: it read no task after its fence was in force. */
    predicate Executes() {
      Publish? || PublishedTask? || InTry() || InHandler() || InFinally()
    }

    predicate BeforeInvoke() {
      ReadReclaimed? || Publish? || PublishedTask? || FirstCheck? || Invoke? || Finalize? || FinalRelease?
      || CancelFinalize?
    }
  }

  datatype Call = Call(
    me: string,          // the worker's owner identifier
    scope: string,       // the caller's ownership scope
    contextId: string,
    pc: Pc,
    bound: Option<Ownership>,
    replay: Option<Task>,
    pending: seq<PendingEvent>,
    queued: seq<PendingEvent>)   // every event ever queued by this call

  /** What became visible, in commit order. */
  datatype Obs =
    | Granted(call: nat, fence: int)
    | Renewed(call: nat, fence: int)
    | SessionBound(call: nat, fence: int)
    | Written(call: nat, fence: int, state: TaskState, byFinalizer: bool)
    | Appended(call: nat, fence: int, event: PendingEvent)
    | ReleasedBy(call: nat, fence: int, closing: RowState, keepsCancel: bool)
    | CancelRecorded(call: nat)
    | Invoked(call: nat, fence: int)
  {
    /** Committed by a transaction that checked or issued the fence. */
    predicate Fenced() {
      !CancelRecorded? && !Invoked?
    }
  }

  datatype Store = Store(view: View, trace: seq<Obs>)

  datatype Sys = Sys(store: Store, calls: map<nat, Call>)

  const Initial := Sys(Store(View(None, None, []), []), map[])

  // ---------------------------------------------------------------------------
  // Transactions on the store
  // ---------------------------------------------------------------------------

  function Emit(st: Store, view: View, obs: Obs): Store {
    Store(view, st.trace + [obs])
  }

  function TxAcquire(cfg: Config, st: Store, c: nat, call: Call, now: int, until: int): (Store, Option<Ownership>) {
    var (row, granted) := AcquireRow(st.view.row, call.me, now, until, cfg.taskId, call.contextId, call.scope);
    if granted.Some?
    then (Emit(st, st.view.(row := row), Granted(c, granted.value.fence)), granted)
    else (st, None)
  }

  function TxHeartbeat(st: Store, c: nat, call: Call, own: Ownership, until: int): Store {
    var (row, renewed) := HeartbeatRow(st.view.row, own, call.me, until);
    if renewed then Emit(st, st.view.(row := row), Renewed(c, own.fence)) else st
  }

  function TxBindSession(st: Store, c: nat, call: Call, own: Ownership, sessionId: string): (Store, bool) {
    var (row, bound) := BindSessionRow(st.view.row, own, call.me, sessionId);
    if bound then (Emit(st, st.view.(row := row), SessionBound(c, own.fence)), true) else (st, false)
  }

  function TxRequestCancel(st: Store, c: nat, call: Call): Store {
    var (row, recorded) := RequestCancelRow(st.view.row, call.scope);
    if recorded then Emit(st, st.view.(row := row), CancelRecorded(c)) else st
  }

  function TxRelease(st: Store, c: nat, call: Call, own: Ownership, closing: RowState): (Store, bool) {
    var (row, released) := ReleaseRow(st.view.row, own, call.me, closing);
    if released
    then (Emit(st, st.view.(row := row),
               ReleasedBy(c, own.fence, closing, !closing.Released? && own.cancelRequested)), true)
    else (st, false)
  }

  /** One fenced save with whatever the call context holds. */
  function TxSave(cfg: Config, st: Store, c: nat, call: Call, now: int, task: Task, byFinalizer: bool)
    : (Store, Call, SaveOutcome)
  {
    var outcome := SaveOutcomeOf(st.view, call.bound, call.replay, call.pending, call.me, now, call.scope, task,
                                 cfg.maxPayloadBytes);
    if !outcome.Saved? then (st, call, outcome)
    else
      var own := call.bound.value;
      var written := Written(c, own.fence, task.state, byFinalizer);
      var view := SavedView(st.view, own, call.pending, call.scope, task);
      if call.pending == [] then (Emit(st, view, written), call, outcome)
      else
        (Store(view, st.trace + [written] + [Appended(c, own.fence, call.pending[0])]),
         call.(pending := call.pending[1..]), outcome)
  }

  // ---------------------------------------------------------------------------
  // Reads and local actions
  // ---------------------------------------------------------------------------

  function VisibleRow(st: Store, call: Call): Option<Row> {
    if st.view.row.Some? && st.view.row.value.scopeKey == call.scope then st.view.row else None
  }

  function VisibleTask(st: Store, call: Call): Option<Task> {
    ReadTask(st.view.task, call.scope)
  }

  datatype StopReason = Lost | CancelSeen | KeepGoing

  function StopReasonOf(st: Store, call: Call, own: Ownership, now: int): StopReason {
    var current := VisibleRow(st, call);
    if current.None? || !HoldsLease(current, own, call.me, now) then Lost
    else if current.value.cancelRequested then CancelSeen else KeepGoing
  }

  function Queue(call: Call, event: PendingEvent): Call {
    call.(pending := call.pending + [event], queued := call.queued + [event])
  }

  function StatusEvent(cfg: Config, state: TaskState, body: seq<byte>): PendingEvent {
    EventOf(cfg, StatusMessage(state, body))
  }

  function ClosingOf(state: TaskState): RowState
    requires state.Final()
  {
    match state
    case Completed => RowState.Completed
    case Failed => RowState.Failed
    case Canceled => RowState.Canceled
  }

  /** The state a finalizer gives to a task it read. */
  function FinalState(own: Ownership, read: Task, viaCancel: bool): (s: TaskState)
    ensures s.Final()
  {
    if read.state.Final() then read.state
    else if viaCancel || own.cancelRequested then TaskState.Canceled
    else TaskState.Failed
  }

  // ---------------------------------------------------------------------------
  // One step of one call
  // ---------------------------------------------------------------------------

  /** Everything a step may be given from outside. */
  datatype Env = Env(now: int, until: int, content: seq<byte>, body: string, reply: Reply, flag: bool)

  /** What follows a granted claim: a reclaimed task is read before anything is executed. */
  function AfterClaim(own: Ownership): Pc {
    if own.reclaimed then ReadReclaimed(own) else Publish(own)
  }

  function AdvanceClaim(cfg: Config, st: Store, c: nat, call: Call, env: Env): (Store, Call) {
    match call.pc
    case Acquire =>
      var (st', granted) := TxAcquire(cfg, st, c, call, env.now, env.until);
      (st', call.(pc := if granted.Some? then AfterClaim(granted.value) else PollTask))
    case PollTask =>
      var task := VisibleTask(st, call);
      if task.Some? && task.value.state.Final() then (st, call.(replay := task, pc := Done))
      else (st, call.(pc := PollRow(task)))
    case PollRow(polled) =>
      var current := VisibleRow(st, call);
      if current.None? || current.value.state.Released? then (st, call.(pc := Acquire))
      else if current.value.state.Terminal() then
        (st, call.(replay := if polled.Some? then polled else call.replay, pc := Done))
      else (st, call.(pc := PollTask))
    case ReadReclaimed(own) =>
      var task := VisibleTask(st, call);
      (st, call.(pc := if task.Some? then Finalize(own, task.value, false) else Publish(own)))
    case CancelFinalize(own) =>
      var task := VisibleTask(st, call);
      (st, call.(pc := if task.Some? then Finalize(own, task.value, true) else Done))
    case Finalize(own, read, viaCancel) =>
      if read.state.Final() then
        (st, call.(pc := FinalRelease(own, ClosingOf(read.state), read, read, viaCancel)))
      else
        var state := FinalState(own, read, viaCancel);
        var final := read.(state := state, body := if state.Failed? then env.body else read.body);
        var (st', call', outcome) := TxSave(cfg, st, c, call.(bound := Some(own)), env.now, final, true);
        (st', call'.(pc := if outcome.Saved?
                           then FinalRelease(own, ClosingOf(state), final, read, viaCancel) else Done))
    case FinalRelease(own, closing, final, read, _) =>
      var (st', released) := TxRelease(st, c, call, own, closing);
      (st', call.(replay := if released || read.state.Final() then Some(final) else call.replay, pc := Done))
    case _ => (st, call)
  }

  /** Bind a final status; the row state to close with is decided once the SDK queue has taken it. */
  function PublishStatus(cfg: Config, call: Call, own: Ownership, state: TaskState, content: seq<byte>): Call
    requires state.Final()
  {
    Queue(call, StatusEvent(cfg, state, content)).(pc := PublishedStatus(own, ClosingOf(state), call.pc.Excepted?))
  }

  /** A stop check: go on, or leave through the finally block. */
  function UnlessStopped(cfg: Config, st: Store, call: Call, own: Ownership, env: Env, next: Call): Call {
    match StopReasonOf(st, call, own, env.now)
    case Lost => call.(pc := Closing(own, Released))
    case CancelSeen => PublishStatus(cfg, call, own, TaskState.Canceled, env.content)
    case KeepGoing => next
  }

  function AdvanceFinally(st: Store, c: nat, call: Call, env: Env): (Store, Call) {
    match call.pc
    case Closing(own, closing) =>
      var current := VisibleRow(st, call);
      (st, call.(pc := Draining(own, if closing.Released? && current.Some? && current.value.cancelRequested
                                     then RowState.Canceled else closing)))
    case Draining(own, closing) =>
      if !env.flag then (st, call.(pc := Done))  // the drain timed out: no release
      else if call.pending == [] then (st, call.(pc := Releasing(own, closing)))
      else (st, call)
    case Releasing(own, closing) =>
      (TxRelease(st, c, call, own, closing).0, call.(pc := Done))
    case _ => (st, call)
  }

  function AdvanceRun(cfg: Config, st: Store, c: nat, call: Call, env: Env): (Store, Call) {
    match call.pc
    case Publish(own) =>
      (st, Queue(call, EventOf(cfg, TaskMessage(env.content))).(bound := Some(own), pc := PublishedTask(own)))
    case PublishedTask(own) => (st, call.(pc := FirstCheck(own)))
    case FirstCheck(own) => (st, UnlessStopped(cfg, st, call, own, env, call.(pc := Invoke(own))))
    case Invoke(own) => (Emit(st, st.view, Invoked(c, own.fence)), call.(pc := AwaitReply(own)))
    case AwaitReply(own) => (st, call.(pc := SecondCheck(own, env.reply)))
    case SecondCheck(own, reply) =>
      (st, UnlessStopped(cfg, st, call, own, env,
                         if reply.error then PublishStatus(cfg, call, own, TaskState.Failed, env.content)
                         else if reply.sessionId.Some? then call.(pc := BindReply(own, reply.sessionId.value))
                         else call.(pc := ThirdCheck(own))))
    case BindReply(own, sessionId) =>
      if !ValidText(sessionId) then (st, call.(pc := Excepted(own)))
      else
        var (st', bound) := TxBindSession(st, c, call, own, sessionId);
        (st', call.(pc := if bound then ThirdCheck(own) else Closing(own, Released)))
    case ThirdCheck(own) =>
      (st, UnlessStopped(cfg, st, call, own, env,
                         Queue(call, EventOf(cfg, ArtifactMessage(env.content))).(pc := Complete(own))))
    case Complete(own) => (st, PublishStatus(cfg, call, own, TaskState.Completed, env.content))
    case PublishedStatus(own, closing, _) => (st, call.(pc := Closing(own, closing)))
    case Excepted(own) =>
      (st, UnlessStopped(cfg, st, call, own, env, PublishStatus(cfg, call, own, TaskState.Failed, env.content)))
    case Interrupted(own) =>
      var current := VisibleRow(st, call);
      (st, call.(pc := Closing(own, if current.Some? && current.value.cancelRequested
                                    then RowState.Canceled else Released)))
    case _ => AdvanceFinally(st, c, call, env)
  }

  function AdvanceCancel(cfg: Config, st: Store, c: nat, call: Call, env: Env): (Store, Call) {
    match call.pc
    case CancelRequest => (TxRequestCancel(st, c, call), call.(pc := CancelRead))
    case CancelRead =>
      var current := VisibleRow(st, call);
      if current.None? then (st, call.(pc := CancelPublish))
      else if current.value.ownerId == Some(call.me) then
        (st, call.(bound := Some(Snapshot(cfg.taskId, current.value, false)), pc := CancelPublish))
      else (st, call.(pc := CancelWait))
    case CancelPublish => (st, Queue(call, StatusEvent(cfg, TaskState.Canceled, env.content)).(pc := Done))
    case CancelWait =>
      var task := VisibleTask(st, call);
      if task.Some? && task.value.state.Final() then (st, call.(replay := task, pc := Done))
      else (st, call.(pc := CancelWaitRow))
    case CancelWaitRow =>
      var current := VisibleRow(st, call);
      if current.None? then (st, call.(pc := Done))
      else
        var expired := current.value.leaseUntil.None? || current.value.leaseUntil.value <= env.now;
        if current.value.ownerId != Some(call.me) && (!current.value.state.Running? || expired)
        then (st, call.(pc := CancelTakeover))
        else (st, call.(pc := if env.flag then Done else CancelWait))
    case CancelTakeover =>
      var (st', granted) := TxAcquire(cfg, st, c, call, env.now, env.until);
      (st', call.(pc := if granted.Some? then CancelFinalize(granted.value)
                        else if env.flag then Done else CancelWait))
    case _ => (st, call)
  }

  function AdvanceCall(cfg: Config, st: Store, c: nat, call: Call, env: Env): (Store, Call) {
    if call.pc.Executes() then AdvanceRun(cfg, st, c, call, env)
    else if call.pc.Holds() || call.pc.Acquire? || call.pc.PollTask? || call.pc.PollRow?
    then AdvanceClaim(cfg, st, c, call, env)
    else AdvanceCancel(cfg, st, c, call, env)
  }

  datatype Step =
    | Begin(c: nat, me: string, scope: string, contextId: string, cancelling: bool)
    | Advance(c: nat, env: Env)
    | Raise(c: nat)                              // an exception inside the try block or a handler
    | Interrupt(c: nat)                          // the coroutine is cancelled there
    | Abandon(c: nat)                            // the coroutine ends anywhere else
    | Beat(c: nat, until: int)                   // the heartbeat loop
    | Consume(c: nat, now: int, task: Task)      // the SDK's consumer saves a task with this call's context
    | Crash(c: nat)                              // the worker process is gone

  function StepCall(cfg: Config, st: Store, c: nat, call: Call, step: Step): (Store, Call) {
    var pc := call.pc;
    if pc.Crashed? then (st, call)
    else
      match step
      case Begin(_, _, _, _, _) => (st, call)
      case Advance(_, env) => AdvanceCall(cfg, st, c, call, env)
      case Raise(_) =>
        (st, if pc.InTry() then call.(pc := Excepted(pc.own))
             else if pc.InHandler() then call.(pc := Closing(pc.own, Released)) else call)
      case Interrupt(_) =>
        (st, if pc.InTry() then call.(pc := Interrupted(pc.own))
             else if pc.InHandler() then call.(pc := Closing(pc.own, Released)) else call)
      case Abandon(_) => (st, if pc.InTry() || pc.InHandler() then call else call.(pc := Done))
      case Beat(_, until) =>
        (if pc.MayBeat() then TxHeartbeat(st, c, call, pc.own, until) else st, call)
      case Consume(_, now, task) =>
        var (st', call', _) := TxSave(cfg, st, c, call, now, task, false);
        (st', call')
      case Crash(_) => (st, call.(pc := Crashed))
  }

  function Do(cfg: Config, s: Sys, step: Step): Sys {
    if step.Begin? then
      if step.c in s.calls || !ValidText(cfg.taskId) || !ValidText(step.me) || !ValidText(step.scope)
         || !ValidText(step.contextId)
      then s
      else
        var pc := if step.cancelling then CancelRequest else Acquire;
        s.(calls := s.calls[step.c := Call(step.me, step.scope, step.contextId, pc, None, None, [], [])])
    else if step.c !in s.calls then s
    else
      var (st', call') := StepCall(cfg, s.store, step.c, s.calls[step.c], step);
      Sys(st', s.calls[step.c := call'])
  }

  function RunFrom(cfg: Config, s: Sys, steps: seq<Step>): Sys
    decreases |steps|
  {
    if steps == [] then s else RunFrom(cfg, Do(cfg, s, steps[0]), steps[1..])
  }

  /** The state after an arbitrary run. */
  function Run(cfg: Config, steps: seq<Step>): Sys {
    RunFrom(cfg, Initial, steps)
  }
}
