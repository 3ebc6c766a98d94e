/**
  What an undisturbed call achieves: an execution that keeps its lease completes or fails its task
  with exactly its events in the log, and a takeover finishes what it finds.
*/
module A2aExecution {
  import opened Prelude
  import opened A2aOwnership
  import opened A2aEventStore
  import opened A2aTaskStore
  import opened A2aProtocol
  import opened A2aSafety
  import opened A2aRuns
  import opened A2aTheorems
  import opened A2aConduct

  /** After the run, call `c` is `call` and the database shows `view`. */
  ghost predicate Stands(cfg: Config, steps: seq<Step>, c: nat, call: Call, view: View) {
    c in Run(cfg, steps).calls && Run(cfg, steps).calls[c] == call && ViewAfter(cfg, steps) == view
  }

  /** One step of the call, with what it makes of the call and the database. */
  lemma Moves(cfg: Config, steps: seq<Step>, c: nat, call: Call, view: View, step: Step, call': Call, view': View)
    requires Stands(cfg, steps, c, call, view) && step.c == c && !step.Begin?
    requires forall trace :: var (st', after) := StepCall(cfg, Store(view, trace), c, call, step);
      st'.view == view' && after == call'
    ensures Stands(cfg, steps + [step], c, call', view')
    ensures TraceOf(cfg, steps) <= TraceOf(cfg, steps + [step])
  {
    OneStepMore(cfg, steps, step);
    var st := Run(cfg, steps).store;
    assert st == Store(view, st.trace);
    TraceGrows(cfg, st, c, call, step);
    hide RunFrom, StepCall;
  }

  /** The points that wait for nothing but the SDK. */
  predicate LeadsTo(call: Call, env: Env, pc: Pc) {
    match call.pc
    case PublishedTask(own) => pc == FirstCheck(own)
    case AwaitReply(own) => pc == SecondCheck(own, env.reply)
    case PublishedStatus(own, closing, _) => pc == Closing(own, closing)
    case Closing(own, closing) => !closing.Released? && pc == Draining(own, closing)
    case Draining(own, closing) => call.pending == [] && env.flag && pc == Releasing(own, closing)
    case _ => false
  }

  lemma MovesOn(cfg: Config, steps: seq<Step>, c: nat, call: Call, view: View, env: Env, pc: Pc)
    requires Stands(cfg, steps, c, call, view) && LeadsTo(call, env, pc)
    ensures Stands(cfg, steps + [Advance(c, env)], c, call.(pc := pc), view)
    ensures TraceOf(cfg, steps) <= TraceOf(cfg, steps + [Advance(c, env)])
  {
    hide UnlessStopped, PublishStatus, TxBindSession, TxRelease, AdvanceClaim, AdvanceCancel;
    Moves(cfg, steps, c, call, view, Advance(c, env), call.(pc := pc), view);
  }

  /** A check that a live lease and no cancellation let pass. */
  lemma PassesCheck(cfg: Config, steps: seq<Step>, c: nat, call: Call, view: View, env: Env, call': Call)
    requires Stands(cfg, steps, c, call, view) && ChecksRow(call.pc) && call.pc.own.scopeKey == call.scope
    requires OwnsLive(view.row, call, call.pc.own.fence, env.now) && !view.row.value.cancelRequested
    requires GoesOn(cfg, call, env, call')
    ensures Stands(cfg, steps + [Advance(c, env)], c, call', view)
    ensures TraceOf(cfg, steps) <= TraceOf(cfg, steps + [Advance(c, env)])
  {
    forall trace ensures StepCall(cfg, Store(view, trace), c, call, Advance(c, env)) == (Store(view, trace), call') {
      CheckStep(cfg, Store(view, trace), c, call, env);
    }
    hide StepCall;
    Moves(cfg, steps, c, call, view, Advance(c, env), call', view);
  }

  lemma TraceGrows(cfg: Config, st: Store, c: nat, call: Call, step: Step)
    ensures st.trace <= StepCall(cfg, st, c, call, step).0.trace
  {
    hide UnlessStopped, PublishStatus, SaveOutcomeOf, EventOf;
  }

  // ---------------------------------------------------------------------------
  // An execution that keeps its lease
  // ---------------------------------------------------------------------------

  /** What the agent answers, the contents of the events, the clock, and the task the SDK's consumer arrives at. */
  datatype Script = Script(
    now: int,
    submitted: seq<byte>,
    artifact: seq<byte>,
    status: seq<byte>,
    reply: Reply,
    finished: Task)
  {
    function Outcome(): TaskState {
      if reply.error then TaskState.Failed else TaskState.Completed
    }

    function EnvWith(content: seq<byte>): Env {
      Env(now, now, content, "", reply, true)
    }

    /** Everything the execution publishes, in order. */
    function Events(cfg: Config): seq<PendingEvent> {
      if reply.error then
        [EventOf(cfg, TaskMessage(submitted)), EventOf(cfg, StatusMessage(TaskState.Failed, status))]
      else
        [EventOf(cfg, TaskMessage(submitted)), EventOf(cfg, ArtifactMessage(artifact)),
         EventOf(cfg, StatusMessage(TaskState.Completed, status))]
    }

    /** The session of the row afterwards: the one the agent answered with, if it succeeded with one. */
    function SessionAfter(row: Row): Option<string> {
      if !reply.error && reply.sessionId.Some? then reply.sessionId else row.sessionId
    }
  }

  /** The call holds a live lease on an uncancelled row, and its snapshot is valid. */
  ghost predicate MayExecute(cfg: Config, call: Call, own: Ownership, row: Option<Row>, now: int) {
    && OwnsLive(row, call, own.fence, now) && !row.value.cancelRequested
    && own.scopeKey == call.scope && own.taskId == cfg.taskId && ValidOwnership(own)
  }

  lemma Publishes(cfg: Config, steps: seq<Step>, c: nat, call: Call, view: View, script: Script)
    returns (more: seq<Step>)
    requires Stands(cfg, steps, c, call, view) && call.pc.Publish? && call.pending == []
    ensures steps <= more && TraceOf(cfg, steps) <= TraceOf(cfg, more)
    ensures var event := EventOf(cfg, TaskMessage(script.submitted));
      Stands(cfg, more, c, call.(bound := Some(call.pc.own), pc := FirstCheck(call.pc.own), pending := [event],
                                 queued := call.queued + [event]), view)
  {
    var (own, event) := (call.pc.own, EventOf(cfg, TaskMessage(script.submitted)));
    assert [] + [event] == [event];
    var published := call.(bound := Some(own), pc := PublishedTask(own), pending := [event],
                           queued := call.queued + [event]);
    Moves(cfg, steps, c, call, view, Advance(c, script.EnvWith(script.submitted)), published, view);
    more := steps + [Advance(c, script.EnvWith(script.submitted))];
    MovesOn(cfg, more, c, published, view, script.EnvWith([]), FirstCheck(own));
    more := more + [Advance(c, script.EnvWith([]))];
  }

  lemma Invokes(cfg: Config, steps: seq<Step>, c: nat, call: Call, view: View, script: Script)
    returns (more: seq<Step>)
    requires Stands(cfg, steps, c, call, view) && call.pc.FirstCheck?
    requires MayExecute(cfg, call, call.pc.own, view.row, script.now)
    ensures steps <= more && TraceOf(cfg, steps) <= TraceOf(cfg, more)
    ensures Invoked(c, call.pc.own.fence) in TraceOf(cfg, more)
    ensures Stands(cfg, more, c, call.(pc := SecondCheck(call.pc.own, script.reply)), view)
  {
    hide StepCall, Run;
    var (own, step) := (call.pc.own, Advance(c, script.EnvWith([])));
    PassesCheck(cfg, steps, c, call, view, step.env, call.(pc := Invoke(own)));
    more := steps + [step];
    InvocationIsObserved(cfg, more, c, step.env);
    AsksAgent(cfg, more, c, call.(pc := Invoke(own)), view, step.env);
    var asked := TraceOf(cfg, more);
    more := more + [step];
    assert TraceOf(cfg, more)[|asked|] == Invoked(c, own.fence);
    MovesOn(cfg, more, c, call.(pc := AwaitReply(own)), view, step.env, SecondCheck(own, script.reply));
    more := more + [step];
    assert TraceOf(cfg, more)[|asked|] == Invoked(c, own.fence);
  }

  lemma AsksAgent(cfg: Config, steps: seq<Step>, c: nat, call: Call, view: View, env: Env)
    requires Stands(cfg, steps, c, call, view) && call.pc.Invoke?
    ensures Stands(cfg, steps + [Advance(c, env)], c, call.(pc := AwaitReply(call.pc.own)), view)
    ensures TraceOf(cfg, steps) <= TraceOf(cfg, steps + [Advance(c, env)])
  {
    Moves(cfg, steps, c, call, view, Advance(c, env), call.(pc := AwaitReply(call.pc.own)), view);
  }

  lemma InvocationIsObserved(cfg: Config, steps: seq<Step>, c: nat, env: Env)
    requires c in Run(cfg, steps).calls && Run(cfg, steps).calls[c].pc.Invoke?
    ensures TraceOf(cfg, steps + [Advance(c, env)])
         == TraceOf(cfg, steps) + [Invoked(c, Run(cfg, steps).calls[c].pc.own.fence)]
  {
    OneStepMore(cfg, steps, Advance(c, env));
  }

  /** After a successful answer: the session is bound if there is one, and the third check is next. */
  lemma BindsSession(cfg: Config, steps: seq<Step>, c: nat, call: Call, view: View, script: Script)
    returns (more: seq<Step>)
    requires Stands(cfg, steps, c, call, view) && call.pc.SecondCheck? && call.pc.reply == script.reply
    requires MayExecute(cfg, call, call.pc.own, view.row, script.now) && !script.reply.error
    requires script.reply.sessionId.Some? ==> ValidText(script.reply.sessionId.value)
    ensures steps <= more && TraceOf(cfg, steps) <= TraceOf(cfg, more)
    ensures Stands(cfg, more, c, call.(pc := ThirdCheck(call.pc.own)),
                   view.(row := Some(view.row.value.(sessionId := script.SessionAfter(view.row.value)))))
  {
    var (own, step) := (call.pc.own, Advance(c, script.EnvWith([])));
    more := steps + [step];
    hide StepCall, Run, ValidOwnership;
    if script.reply.sessionId.Some? {
      var binding := call.(pc := BindReply(own, script.reply.sessionId.value));
      PassesCheck(cfg, steps, c, call, view, step.env, binding);
      Binds(cfg, more, c, binding, view, step.env);
      more := more + [step];
    } else {
      assert view.row.value.(sessionId := view.row.value.sessionId) == view.row.value;
      PassesCheck(cfg, steps, c, call, view, step.env, call.(pc := ThirdCheck(own)));
    }
  }

  lemma Binds(cfg: Config, steps: seq<Step>, c: nat, call: Call, view: View, env: Env)
    requires Stands(cfg, steps, c, call, view) && call.pc.BindReply? && ValidText(call.pc.sessionId)
    requires OwnsLive(view.row, call, call.pc.own.fence, env.now) && call.pc.own.scopeKey == call.scope
    ensures Stands(cfg, steps + [Advance(c, env)], c, call.(pc := ThirdCheck(call.pc.own)),
                   view.(row := Some(view.row.value.(sessionId := Some(call.pc.sessionId)))))
    ensures TraceOf(cfg, steps) <= TraceOf(cfg, steps + [Advance(c, env)])
  {
    hide ValidText;
    Moves(cfg, steps, c, call, view, Advance(c, env), call.(pc := ThirdCheck(call.pc.own)),
          view.(row := Some(view.row.value.(sessionId := Some(call.pc.sessionId)))));
  }

  /** The last two events of a success. */
  lemma PublishesResult(cfg: Config, steps: seq<Step>, c: nat, call: Call, view: View, script: Script)
    returns (more: seq<Step>)
    requires Stands(cfg, steps, c, call, view) && call.pc.ThirdCheck?
    requires MayExecute(cfg, call, call.pc.own, view.row, script.now)
    ensures steps <= more && TraceOf(cfg, steps) <= TraceOf(cfg, more)
    ensures var events := [EventOf(cfg, ArtifactMessage(script.artifact)),
                           EventOf(cfg, StatusMessage(TaskState.Completed, script.status))];
      Stands(cfg, more, c, call.(pc := PublishedStatus(call.pc.own, RowState.Completed, false),
                                 pending := call.pending + events, queued := call.queued + events), view)
  {
    var own := call.pc.own;
    var (artifact, status) :=
      (EventOf(cfg, ArtifactMessage(script.artifact)), EventOf(cfg, StatusMessage(TaskState.Completed, script.status)));
    var published := call.(pc := Complete(own), pending := call.pending + [artifact],
                           queued := call.queued + [artifact]);
    PassesCheck(cfg, steps, c, call, view, script.EnvWith(script.artifact), published);
    more := steps + [Advance(c, script.EnvWith(script.artifact))];
    assert call.pending + [artifact] + [status] == call.pending + [artifact, status];
    assert call.queued + [artifact] + [status] == call.queued + [artifact, status];
    Moves(cfg, more, c, published, view, Advance(c, script.EnvWith(script.status)),
          call.(pc := PublishedStatus(own, RowState.Completed, false),
                pending := call.pending + [artifact, status], queued := call.queued + [artifact, status]), view);
    more := more + [Advance(c, script.EnvWith(script.status))];
  }

  lemma PublishesFailure(cfg: Config, steps: seq<Step>, c: nat, call: Call, view: View, script: Script)
    returns (more: seq<Step>)
    requires Stands(cfg, steps, c, call, view) && call.pc.SecondCheck? && call.pc.reply == script.reply
    requires MayExecute(cfg, call, call.pc.own, view.row, script.now) && script.reply.error
    ensures steps <= more && TraceOf(cfg, steps) <= TraceOf(cfg, more)
    ensures var event := EventOf(cfg, StatusMessage(TaskState.Failed, script.status));
      Stands(cfg, more, c, call.(pc := PublishedStatus(call.pc.own, RowState.Failed, false),
                                 pending := call.pending + [event], queued := call.queued + [event]), view)
  {
    var step := Advance(c, script.EnvWith(script.status));
    var event := EventOf(cfg, StatusMessage(TaskState.Failed, script.status));
    PassesCheck(cfg, steps, c, call, view, step.env,
                call.(pc := PublishedStatus(call.pc.own, RowState.Failed, false),
                      pending := call.pending + [event], queued := call.queued + [event]));
    more := steps + [step];
  }

  /** A live lease with a valid snapshot bound, and events the store accepts: the consumer can save them all. */
  ghost predicate CanDrain(cfg: Config, call: Call, own: Ownership, row: Option<Row>, now: int) {
    && OwnsLive(row, call, own.fence, now) && call.bound == Some(own) && call.replay.None?
    && own.scopeKey == call.scope && own.taskId == cfg.taskId && ValidOwnership(own)
    && forall event :: event in call.pending ==> EventAccepted(own, event, cfg.maxPayloadBytes)
  }

  lemma {:induction false} Drains(cfg: Config, steps: seq<Step>, c: nat, call: Call, view: View, own: Ownership,
                                  now: int, task: Task)
    returns (more: seq<Step>, view': View)
    requires Stands(cfg, steps, c, call, view) && !call.pc.Crashed? && task.id == cfg.taskId
    requires CanDrain(cfg, call, own, view.row, now)
    ensures steps <= more && TraceOf(cfg, steps) <= TraceOf(cfg, more)
    ensures Stands(cfg, more, c, call.(pending := []), view')
    ensures view'.row == view.row && EventsIn(view'.log) == EventsIn(view.log) + call.pending
    ensures call.pending != [] ==> view'.task == Some(TaskRow(call.scope, task))
    ensures call.pending == [] ==> view' == view
    decreases |call.pending|
  {
    if call.pending == [] {
      more, view' := steps, view;
    } else {
      var (event, rest) := (call.pending[0], call.pending[1..]);
      assert event in call.pending && forall e :: e in rest ==> e in call.pending;
      var next := view.(task := Some(TaskRow(call.scope, task)), log := AppendedLog(view.log, own, event));
      assert EventsIn(next.log) == EventsIn(view.log) + [event];
      hide EventAccepted, ValidOwnership, AppendedLog;
      Saves(cfg, steps, c, call, view, own, now, task);
      more, view' := Drains(cfg, steps + [Consume(c, now, task)], c, call.(pending := rest), next, own, now, task);
      assert EventsIn(view.log) + [event] + rest == EventsIn(view.log) + ([event] + rest);
      assert [event] + rest == call.pending;
    }
  }

  lemma Saves(cfg: Config, steps: seq<Step>, c: nat, call: Call, view: View, own: Ownership, now: int, task: Task)
    requires Stands(cfg, steps, c, call, view) && !call.pc.Crashed? && task.id == cfg.taskId && call.pending != []
    requires CanDrain(cfg, call, own, view.row, now)
    ensures Stands(cfg, steps + [Consume(c, now, task)], c, call.(pending := call.pending[1..]),
                   view.(task := Some(TaskRow(call.scope, task)),
                         log := AppendedLog(view.log, own, call.pending[0])))
    ensures TraceOf(cfg, steps) <= TraceOf(cfg, steps + [Consume(c, now, task)])
  {
    assert call.pending[0] in call.pending;
    hide EventAccepted, ValidOwnership, AppendedLog;
    Moves(cfg, steps, c, call, view, Consume(c, now, task), call.(pending := call.pending[1..]),
          view.(task := Some(TaskRow(call.scope, task)), log := AppendedLog(view.log, own, call.pending[0])));
  }

  /** From the published status to the closed row. */
  lemma Closes(cfg: Config, steps: seq<Step>, c: nat, call: Call, view: View, now: int, task: Task)
    returns (more: seq<Step>)
    requires Stands(cfg, steps, c, call, view) && call.pc.PublishedStatus? && call.pc.closing.Terminal()
    requires task.id == cfg.taskId && call.pending != []
    requires CanDrain(cfg, call, call.pc.own, view.row, now)
    ensures steps <= more && TraceOf(cfg, steps) <= TraceOf(cfg, more)
    ensures var (view', row) := (ViewAfter(cfg, more), view.row.value);
      && view'.row == Some(row.(ownerId := None, leaseUntil := None, state := call.pc.closing,
                                cancelRequested := call.pc.own.cancelRequested))
      && view'.task == Some(TaskRow(call.scope, task))
      && EventsIn(view'.log) == EventsIn(view.log) + call.pending
  {
    hide StepCall, Run, EventAccepted, ValidOwnership;
    var (own, closing) := (call.pc.own, call.pc.closing);
    var step := Advance(c, Env(now, now, [], "", Reply(false, None), true));
    MovesOn(cfg, steps, c, call, view, step.env, Closing(own, closing));
    more := steps + [step];
    MovesOn(cfg, more, c, call.(pc := Closing(own, closing)), view, step.env, Draining(own, closing));
    more := more + [step];
    var view';
    more, view' := Drains(cfg, more, c, call.(pc := Draining(own, closing)), view, own, now, task);
    var drained := call.(pc := Draining(own, closing), pending := []);
    MovesOn(cfg, more, c, drained, view', step.env, Releasing(own, closing));
    more := more + [step];
    Releases(cfg, more, c, drained.(pc := Releasing(own, closing)), view', step.env);
    more := more + [step];
  }

  lemma Releases(cfg: Config, steps: seq<Step>, c: nat, call: Call, view: View, env: Env)
    requires Stands(cfg, steps, c, call, view) && call.pc.Releasing? && call.pc.closing.Terminal()
    requires OwnsLive(view.row, call, call.pc.own.fence, env.now) && call.pc.own.scopeKey == call.scope
    ensures Stands(cfg, steps + [Advance(c, env)], c, call.(pc := Done),
                   view.(row := Some(view.row.value.(ownerId := None, leaseUntil := None, state := call.pc.closing,
                                                     cancelRequested := call.pc.own.cancelRequested))))
    ensures TraceOf(cfg, steps) <= TraceOf(cfg, steps + [Advance(c, env)])
  {
    Moves(cfg, steps, c, call, view, Advance(c, env), call.(pc := Done),
          view.(row := Some(view.row.value.(ownerId := None, leaseUntil := None, state := call.pc.closing,
                                            cancelRequested := call.pc.own.cancelRequested))));
  }

  /**
    From every run in which a call is about to execute under a live lease, with no cancellation
    recorded and events the log accepts, its own steps lead to the end: the agent is invoked, the
    row is completed, or failed if the agent reports an error, the durable task is the one the
    consumer arrived at, and the log grew by exactly the execution's events, in order.
  */
  lemma ExecutionFinishes(cfg: Config, steps: seq<Step>, c: nat, script: Script) returns (more: seq<Step>)
    requires c in Run(cfg, steps).calls
    requires var call := Run(cfg, steps).calls[c];
      && call.pc.Publish? && call.pending == [] && call.replay.None?
      && MayExecute(cfg, call, call.pc.own, ViewAfter(cfg, steps).row, script.now)
      && forall event :: event in script.Events(cfg) ==> EventAccepted(call.pc.own, event, cfg.maxPayloadBytes)
    requires script.finished.id == cfg.taskId && script.finished.state == script.Outcome()
    requires script.reply.sessionId.Some? ==> ValidText(script.reply.sessionId.value)
    ensures steps <= more
    ensures var (call, view, view') := (Run(cfg, steps).calls[c], ViewAfter(cfg, steps), ViewAfter(cfg, more));
      && Invoked(c, call.pc.own.fence) in TraceOf(cfg, more)
      && view'.row.Some? && view'.row.value.state == ClosingOf(script.Outcome())
      && view'.row.value.ownerId == None && view'.row.value.sessionId == script.SessionAfter(view.row.value)
      && view'.task == Some(TaskRow(call.scope, script.finished))
      && EventsIn(view'.log) == EventsIn(view.log) + script.Events(cfg)
  {
    var (call, view) := (Run(cfg, steps).calls[c], ViewAfter(cfg, steps));
    var own := call.pc.own;
    var event := EventOf(cfg, TaskMessage(script.submitted));
    hide Run, EventAccepted, ValidOwnership, StepCall;
    more := Publishes(cfg, steps, c, call, view, script);
    var at := call.(bound := Some(own), pc := FirstCheck(own), pending := [event], queued := call.queued + [event]);
    more := Invokes(cfg, more, c, at, view, script);
    at := at.(pc := SecondCheck(own, script.reply));
    if script.reply.error {
      var status := EventOf(cfg, StatusMessage(TaskState.Failed, script.status));
      more := PublishesFailure(cfg, more, c, at, view, script);
      assert [event] + [status] == script.Events(cfg);
      at := at.(pc := PublishedStatus(own, RowState.Failed, false), pending := [event] + [status],
                queued := at.queued + [status]);
      more := Closes(cfg, more, c, at, view, script.now, script.finished);
    } else {
      more := BindsSession(cfg, more, c, at, view, script);
      view := view.(row := Some(view.row.value.(sessionId := script.SessionAfter(view.row.value))));
      at := at.(pc := ThirdCheck(own));
      more := PublishesResult(cfg, more, c, at, view, script);
      var events := [EventOf(cfg, ArtifactMessage(script.artifact)),
                     EventOf(cfg, StatusMessage(TaskState.Completed, script.status))];
      assert [event] + events == script.Events(cfg);
      at := at.(pc := PublishedStatus(own, RowState.Completed, false), pending := [event] + events,
                queued := at.queued + events);
      more := Closes(cfg, more, c, at, view, script.now, script.finished);
    }
  }

  // ---------------------------------------------------------------------------
  // A takeover that keeps its lease
  // ---------------------------------------------------------------------------

  /** What a takeover makes of the task it reads: a final one stays, any other is given up. */
  function Finished(read: Task, cancelled: bool, body: string): Task {
    match read.state
    case Completed => read
    case Failed => read
    case Canceled => read
    case _ =>
      if cancelled then read.(state := TaskState.Canceled) else read.(state := TaskState.Failed, body := body)
  }

  lemma Reads(cfg: Config, steps: seq<Step>, c: nat, call: Call, view: View, env: Env, read: Task)
    requires Stands(cfg, steps, c, call, view) && (call.pc.ReadReclaimed? || call.pc.CancelFinalize?)
    requires view.task == Some(TaskRow(call.scope, read))
    ensures Stands(cfg, steps + [Advance(c, env)], c,
                   call.(pc := Finalize(call.pc.own, read, call.pc.CancelFinalize?)), view)
  {
    hide TxAcquire, TxSave, TxRelease;
    Moves(cfg, steps, c, call, view, Advance(c, env), call.(pc := Finalize(call.pc.own, read, call.pc.CancelFinalize?)),
          view);
  }

  lemma Finalizes(cfg: Config, steps: seq<Step>, c: nat, call: Call, view: View, env: Env)
    returns (call': Call, view': View)
    requires Stands(cfg, steps, c, call, view) && call.pc.Finalize? && call.pending == [] && call.replay.None?
    requires MayFinalize(cfg, call, call.pc.own, view.row, env.now)
    requires view.task == Some(TaskRow(call.scope, call.pc.read)) && call.pc.read.id == cfg.taskId
    ensures Stands(cfg, steps + [Advance(c, env)], c, call', view')
    ensures var final := Finished(call.pc.read, call.pc.viaCancel || call.pc.own.cancelRequested, env.body);
      && view' == view.(task := Some(TaskRow(call.scope, final)))
      && final.state.Final()
      && call' == call.(bound := call'.bound,
                        pc := FinalRelease(call.pc.own, ClosingOf(final.state), final, call.pc.read, call.pc.viaCancel))
  {
    hide ValidOwnership;
    var pc := call.pc;
    var final := Finished(pc.read, pc.viaCancel || pc.own.cancelRequested, env.body);
    var next := FinalRelease(pc.own, ClosingOf(final.state), final, pc.read, pc.viaCancel);
    view' := view.(task := Some(TaskRow(call.scope, final)));
    call' := if pc.read.state.Final() then call.(pc := next) else call.(bound := Some(pc.own), pc := next);
    Moves(cfg, steps, c, call, view, Advance(c, env), call', view');
  }

  /** The call holds a live lease and its snapshot is valid. */
  ghost predicate MayFinalize(cfg: Config, call: Call, own: Ownership, row: Option<Row>, now: int) {
    OwnsLive(row, call, own.fence, now) && own.scopeKey == call.scope && own.taskId == cfg.taskId && ValidOwnership(own)
  }

  lemma ReleasesFinal(cfg: Config, steps: seq<Step>, c: nat, call: Call, view: View, env: Env)
    requires Stands(cfg, steps, c, call, view) && call.pc.FinalRelease? && call.pc.closing.Terminal()
    requires OwnsLive(view.row, call, call.pc.own.fence, env.now) && call.pc.own.scopeKey == call.scope
    ensures Stands(cfg, steps + [Advance(c, env)], c, call.(pc := Done, replay := Some(call.pc.final)),
                   view.(row := Some(view.row.value.(ownerId := None, leaseUntil := None, state := call.pc.closing,
                                                     cancelRequested := call.pc.own.cancelRequested))))
  {
    hide TxAcquire, TxSave;
    Moves(cfg, steps, c, call, view, Advance(c, env), call.(pc := Done, replay := Some(call.pc.final)),
          view.(row := Some(view.row.value.(ownerId := None, leaseUntil := None, state := call.pc.closing,
                                            cancelRequested := call.pc.own.cancelRequested))));
  }

  /**
    From every run in which a call took the task over under a live lease and finds a durable task,
    its own three steps end it: the row is closed with the state of the durable task, which is the
    one it found when that was final and otherwise given up as canceled or failed; the log and the
    agent are left alone, and the caller gets exactly that task.
  */
  lemma TakeoverFinishes(cfg: Config, steps: seq<Step>, c: nat, env: Env, read: Task)
    requires c in Run(cfg, steps).calls
    requires var (call, view) := (Run(cfg, steps).calls[c], ViewAfter(cfg, steps));
      && (call.pc.ReadReclaimed? || call.pc.CancelFinalize?) && call.pending == [] && call.replay.None?
      && MayFinalize(cfg, call, call.pc.own, view.row, env.now)
      && view.task == Some(TaskRow(call.scope, read)) && read.id == cfg.taskId
    ensures var (s, s') := (Run(cfg, steps),
                            Run(cfg, steps + [Advance(c, env)] + [Advance(c, env)] + [Advance(c, env)]));
      var (call, view, view') := (s.calls[c], s.store.view, s'.store.view);
      var final := Finished(read, call.pc.CancelFinalize? || call.pc.own.cancelRequested, env.body);
      && view'.task == Some(TaskRow(call.scope, final)) && view'.log == view.log
      && final.state.Final() && view'.row.Some? && view'.row.value.state == ClosingOf(final.state)
      && view'.row.value.ownerId == None
      && c in s'.calls && s'.calls[c].pc.Done? && s'.calls[c].replay == Some(final)
      && s'.calls[c].queued == call.queued
  {
    var (call, view) := (Run(cfg, steps).calls[c], ViewAfter(cfg, steps));
    hide Run, ValidOwnership, StepCall;
    Reads(cfg, steps, c, call, view, env, read);
    var at := call.(pc := Finalize(call.pc.own, read, call.pc.CancelFinalize?));
    var at', view' := Finalizes(cfg, steps + [Advance(c, env)], c, at, view, env);
    ReleasesFinal(cfg, steps + [Advance(c, env)] + [Advance(c, env)], c, at', view', env);
  }
}
