/**
  Before the row is terminal nothing is settled: from every run some continuation appends events
  and overwrites the task, also behind the back of a finalizer that is about to release. Only a
  terminal row ends the log and fixes the outcome.
*/
module A2aGrowth {
  import opened Prelude
  import opened Strings
  import opened A2aOwnership
  import opened A2aEventStore
  import opened A2aTaskStore
  import opened A2aProtocol
  import opened A2aSafety
  import opened A2aRuns
  import opened A2aTheorems

  // ---------------------------------------------------------------------------
  // Persisted texts stay valid
  // ---------------------------------------------------------------------------

  predicate RowTexts(cfg: Config, row: Option<Row>) {
    row.Some? ==>
      && ValidText(cfg.taskId) && ValidText(row.value.scopeKey) && ValidText(row.value.contextId)
      && (row.value.sessionId.Some? ==> ValidText(row.value.sessionId.value))
      && (row.value.ownerId.Some? ==> ValidText(row.value.ownerId.value))
  }

  predicate CallTexts(cfg: Config, call: Call) {
    ValidText(cfg.taskId) && ValidText(call.me) && ValidText(call.scope) && ValidText(call.contextId)
  }

  ghost predicate TextsInv(cfg: Config, s: Sys) {
    RowTexts(cfg, s.store.view.row) && forall c :: c in s.calls ==> CallTexts(cfg, s.calls[c])
  }

  lemma StepKeepsRowTexts(cfg: Config, st: Store, c: nat, call: Call, step: Step)
    requires RowTexts(cfg, st.view.row) && CallTexts(cfg, call)
    ensures RowTexts(cfg, StepCall(cfg, st, c, call, step).0.view.row)
  {
    hide ValidText, StopReasonOf, UnlessStopped, PublishStatus, SaveOutcomeOf, EventOf;
    if step.Advance? && call.pc.BindReply? {
      BindKeepsRowTexts(cfg, st, c, call, step.env);
    }
  }

  lemma BindKeepsRowTexts(cfg: Config, st: Store, c: nat, call: Call, env: Env)
    requires RowTexts(cfg, st.view.row) && call.pc.BindReply?
    ensures RowTexts(cfg, AdvanceRun(cfg, st, c, call, env).0.view.row)
  {
    hide ValidText;
  }

  lemma StepKeepsCallTexts(cfg: Config, st: Store, c: nat, call: Call, step: Step)
    ensures var call' := StepCall(cfg, st, c, call, step).1;
      call'.me == call.me && call'.scope == call.scope && call'.contextId == call.contextId
  {
    hide StopReasonOf;
  }

  lemma {:induction false} RunsKeepTexts(cfg: Config, steps: seq<Step>)
    ensures TextsInv(cfg, Run(cfg, steps))
    decreases |steps|
  {
    if steps != [] {
      var init, last := steps[..|steps| - 1], steps[|steps| - 1];
      RunsKeepTexts(cfg, init);
      InitAndLast(steps);
      OneStepMore(cfg, init, last);
      hide StepCall, ValidText;
      var s := Run(cfg, init);
      if last.c in s.calls {
        StepKeepsRowTexts(cfg, s.store, last.c, s.calls[last.c], last);
        StepKeepsCallTexts(cfg, s.store, last.c, s.calls[last.c], last);
      }
    }
  }

  lemma {:induction false} BeforeIsNoLonger(s: string, mark: string)
    ensures |Before(s, mark)| <= |s|
    decreases |s|
  {
    if s != [] && !StartsWith(s, mark) {
      BeforeIsNoLonger(s[1..], mark);
    }
  }

  lemma ScopeResolves(scopeKey: string)
    requires ValidText(scopeKey)
    ensures ResolveTenantId(None, scopeKey).Value?
  {
    if StartsWith(scopeKey, TENANT_PREFIX) {
      BeforeIsNoLonger(scopeKey[|TENANT_PREFIX|..], SUBJECT_MARK);
    }
  }

  // ---------------------------------------------------------------------------
  // A continuation that appends
  // ---------------------------------------------------------------------------

  lemma {:induction false} FreshCall(calls: set<nat>) returns (c: nat)
    ensures forall d :: d in calls ==> d < c
  {
    if calls == {} {
      c := 0;
    } else {
      var d :| d in calls;
      var c' := FreshCall(calls - {d});
      c := Max(c', d + 1);
      assert calls == (calls - {d}) + {d};
    }
  }

  const Worker := "w"

  /** A cancel status with this content is within the payload limit. */
  predicate Fits(cfg: Config, content: seq<byte>) {
    0 < |cfg.serialize(StatusMessage(TaskState.Canceled, content))| <= cfg.maxPayloadBytes
  }

  /** The payload limit admits some cancel status. */
  ghost predicate CancelFits(cfg: Config) {
    exists content :: Fits(cfg, content)
  }

  function At(now: int, content: seq<byte>): Env {
    Env(now, now + 1, content, "", Reply(false, None), true)
  }

  /** A new execution claims the released task. */
  lemma ClaimReleased(cfg: Config, steps: seq<Step>, c: nat) returns (more: seq<Step>)
    requires var s := Run(cfg, steps);
      && c !in s.calls && s.store.view.row.Some? && s.store.view.row.value.state.Released?
      && RowTexts(cfg, s.store.view.row)
    ensures steps <= more
    ensures var (s, s') := (Run(cfg, steps), Run(cfg, more));
      && s'.store.view.log == s.store.view.log && s'.store.view.task == s.store.view.task
      && s'.store.view.row.Some? && s'.store.view.row.value.state.Running?
  {
    hide RunFrom;
    var begin := Begin(c, Worker, Run(cfg, steps).store.view.row.value.scopeKey, "context", false);
    OneStepMore(cfg, steps, begin);
    more := steps + [begin];
    OneStepMore(cfg, more, Advance(c, At(0, [])));
    more := more + [Advance(c, At(0, []))];
  }

  /** A cancel call served by worker `me` records its request. */
  lemma CancelRecords(cfg: Config, steps: seq<Step>, c: nat, me: string) returns (more: seq<Step>)
    requires var s := Run(cfg, steps);
      && c !in s.calls && s.store.view.row.Some? && RowTexts(cfg, s.store.view.row)
      && s.store.view.row.value.state.Running? && ValidText(me)
    ensures steps <= more
    ensures var (s, s') := (Run(cfg, steps), Run(cfg, more));
      var row := s.store.view.row.value.(cancelRequested := true);
      && s'.store.view == s.store.view.(row := Some(row))
      && s'.calls == s.calls[c := Call(me, row.scopeKey, "context", CancelRead, None, None, [], [])]
  {
    hide RunFrom;
    var s := Run(cfg, steps);
    var begin := Begin(c, me, s.store.view.row.value.scopeKey, "context", true);
    OneStepMore(cfg, steps, begin);
    more := steps + [begin];
    OneStepMore(cfg, more, Advance(c, At(0, [])));
    more := more + [Advance(c, At(0, []))];
    assert Run(cfg, more).calls == s.calls[c := Run(cfg, more).calls[c]];
  }

  /** What such a call is once it has found its own worker in the row and published the status. */
  function Published(cfg: Config, me: string, row: Row, content: seq<byte>): Call {
    var status := StatusEvent(cfg, TaskState.Canceled, content);
    Call(me, row.scopeKey, "context", Done, Some(Snapshot(cfg.taskId, row, false)), None, [status], [status])
  }

  lemma CancelPublishes(cfg: Config, steps: seq<Step>, c: nat, me: string, content: seq<byte>)
    returns (more: seq<Step>)
    requires var s := Run(cfg, steps);
      && c in s.calls && s.store.view.row.Some? && s.store.view.row.value.ownerId == Some(me)
      && s.calls[c] == Call(me, s.store.view.row.value.scopeKey, "context", CancelRead, None, None, [], [])
    ensures steps <= more
    ensures var (s, s') := (Run(cfg, steps), Run(cfg, more));
      && s'.store.view == s.store.view
      && s'.calls == s.calls[c := Published(cfg, me, s.store.view.row.value, content)]
  {
    hide RunFrom;
    var (s, step) := (Run(cfg, steps), Advance(c, At(0, content)));
    var own := Snapshot(cfg.taskId, s.store.view.row.value, false);
    OneStepMore(cfg, steps, step);
    more := steps + [step];
    assert Run(cfg, more).calls[c] == s.calls[c].(pc := CancelPublish, bound := Some(own));
    OneStepMore(cfg, more, step);
    more := more + [step];
    var status := StatusEvent(cfg, TaskState.Canceled, content);
    assert [] + [status] == [status];
    assert Run(cfg, more).calls == s.calls[c := Run(cfg, more).calls[c]];
  }

  lemma StatusIsAccepted(cfg: Config, own: Ownership, content: seq<byte>)
    requires ValidText(own.taskId) && ValidText(own.scopeKey) && Fits(cfg, content)
    ensures EventAccepted(own, StatusEvent(cfg, TaskState.Canceled, content), cfg.maxPayloadBytes)
  {
    ScopeResolves(own.scopeKey);
    var t := "TaskStatusUpdateEvent";
    forall i | 1 <= i < |t| ensures NameChar(t[i]) {
    }
  }

  /** The consumer of such a call saves whatever task it aggregated, under the fence in the row. */
  lemma ConsumeSaves(cfg: Config, steps: seq<Step>, c: nat, me: string, content: seq<byte>, task: Task)
    returns (more: seq<Step>)
    requires var s := Run(cfg, steps);
      && c in s.calls && s.store.view.row.Some? && RowTexts(cfg, s.store.view.row)
      && RowOk(s.store.view.row) && s.store.view.row.value.ownerId == Some(me)
      && s.calls[c] == Published(cfg, me, s.store.view.row.value, content)
    requires Fits(cfg, content) && task.id == cfg.taskId
    ensures steps <= more
    ensures var (s, s') := (Run(cfg, steps), Run(cfg, more));
      && s'.store.view.row == s.store.view.row
      && s'.store.view.task == Some(TaskRow(s.store.view.row.value.scopeKey, task))
      && |s'.store.view.log| == |s.store.view.log| + 1
      && forall d :: d in s.calls && d != c ==> d in s'.calls && s'.calls[d] == s.calls[d]
  {
    var row := Run(cfg, steps).store.view.row.value;
    StatusIsAccepted(cfg, Snapshot(cfg.taskId, row, false), content);
    hide RunFrom, EventAccepted;
    var consume := Consume(c, row.leaseUntil.value - 1, task);
    OneStepMore(cfg, steps, consume);
    more := steps + [consume];
  }

  /** From every run with a running row, a cancel request served by the owner saves any task. */
  lemma OwnerCanSave(cfg: Config, steps: seq<Step>, task: Task) returns (more: seq<Step>)
    requires ViewAfter(cfg, steps).row.Some? && ViewAfter(cfg, steps).row.value.state.Running?
    requires CancelFits(cfg) && task.id == cfg.taskId
    ensures steps <= more
    ensures var (s, s') := (Run(cfg, steps), Run(cfg, more));
      && s'.store.view.row == Some(s.store.view.row.value.(cancelRequested := true))
      && s'.store.view.task == Some(TaskRow(s.store.view.row.value.scopeKey, task))
      && |s'.store.view.log| == |s.store.view.log| + 1
      && forall d :: d in s.calls ==> d in s'.calls && s'.calls[d] == s.calls[d]
  {
    hide RunFrom;
    EveryRunIsSafe(cfg, steps);
    RunsKeepTexts(cfg, steps);
    var content :| Fits(cfg, content);
    var c := FreshCall(Run(cfg, steps).calls.Keys);
    assert c !in Run(cfg, steps).calls;
    var me := ViewAfter(cfg, steps).row.value.ownerId.value;
    hide Fits, RowTexts, TextsInv, Inv, NoStrangers;
    more := CancelRecords(cfg, steps, c, me);
    more := CancelPublishes(cfg, more, c, me, content);
    RunsKeepTexts(cfg, more);
    more := ConsumeSaves(cfg, more, c, me, content, task);
  }

  // ---------------------------------------------------------------------------
  // Only a terminal row settles the task
  // ---------------------------------------------------------------------------

  /** A row that is not terminal is running or can be made so. */
  lemma OpenRowCanRun(cfg: Config, steps: seq<Step>) returns (more: seq<Step>)
    requires ViewAfter(cfg, steps).row.Some? && !ViewAfter(cfg, steps).row.value.state.Terminal()
    ensures steps <= more
    ensures var (view, view') := (ViewAfter(cfg, steps), ViewAfter(cfg, more));
      view'.log == view.log && view'.task == view.task && view'.row.Some? && view'.row.value.state.Running?
  {
    hide RunFrom;
    more := steps;
    if ViewAfter(cfg, steps).row.value.state.Released? {
      RunsKeepTexts(cfg, steps);
      var c := FreshCall(Run(cfg, steps).calls.Keys);
      more := ClaimReleased(cfg, steps, c);
    }
  }

  lemma {:induction false} RunningRowGrows(cfg: Config, steps: seq<Step>, n: nat) returns (more: seq<Step>)
    requires ViewAfter(cfg, steps).row.Some? && ViewAfter(cfg, steps).row.value.state.Running? && CancelFits(cfg)
    ensures steps <= more && |ViewAfter(cfg, more).log| == |ViewAfter(cfg, steps).log| + n
    decreases n
  {
    more := steps;
    if n > 0 {
      hide RunFrom, CancelFits;
      more := OwnerCanSave(cfg, steps, Task(cfg.taskId, TaskState.Canceled, ""));
      more := RunningRowGrows(cfg, more, n - 1);
    }
  }

  /** From every run whose row is not terminal some continuation appends any number of events. */
  lemma OpenLogCanGrow(cfg: Config, steps: seq<Step>, n: nat) returns (later: seq<Step>)
    requires ViewAfter(cfg, steps).row.Some? && !ViewAfter(cfg, steps).row.value.state.Terminal() && CancelFits(cfg)
    ensures |ViewAfter(cfg, steps + later).log| == |ViewAfter(cfg, steps).log| + n
  {
    hide RunFrom, CancelFits;
    var more := OpenRowCanRun(cfg, steps);
    more := RunningRowGrows(cfg, more, n);
    later := more[|steps|..];
    assert steps + later == more;
  }

  /** For every run with a row: the log is complete, in every continuation, if and only if the row is terminal. */
  lemma LogIsCompleteIffTerminal(cfg: Config, steps: seq<Step>)
    requires ViewAfter(cfg, steps).row.Some? && CancelFits(cfg)
    ensures (forall later :: ViewAfter(cfg, steps + later).log == ViewAfter(cfg, steps).log)
      <==> ViewAfter(cfg, steps).row.value.state.Terminal()
  {
    if ViewAfter(cfg, steps).row.value.state.Terminal() {
      forall later ensures ViewAfter(cfg, steps + later).log == ViewAfter(cfg, steps).log {
        TerminalRowFreezesEverything(cfg, steps, later);
      }
    } else {
      var later := OpenLogCanGrow(cfg, steps, 1);
    }
  }

  /** Another final state: what the consumer of a cancel request saves, if that is another one. */
  function OtherFinal(state: TaskState): (other: TaskState)
    ensures other.Final() && other != state
  {
    if state.Canceled? then TaskState.Completed else TaskState.Canceled
  }

  /** From every run whose row is not terminal some continuation gives the task another final state. */
  lemma OpenTaskCanChange(cfg: Config, steps: seq<Step>, state: TaskState) returns (later: seq<Step>)
    requires ViewAfter(cfg, steps).row.Some? && !ViewAfter(cfg, steps).row.value.state.Terminal() && CancelFits(cfg)
    ensures ViewAfter(cfg, steps + later).task.Some?
    ensures ViewAfter(cfg, steps + later).task.value.task.state == OtherFinal(state)
  {
    hide RunFrom, CancelFits;
    var more := OpenRowCanRun(cfg, steps);
    more := OwnerCanSave(cfg, more, Task(cfg.taskId, OtherFinal(state), ""));
    later := more[|steps|..];
    assert steps + later == more;
  }

  /**
    For every run with a row: the durable task is settled, in every continuation, if and only if the row is
    terminal.
  */
  lemma OutcomeIsFixedIffTerminal(cfg: Config, steps: seq<Step>)
    requires ViewAfter(cfg, steps).row.Some? && CancelFits(cfg)
    ensures (forall later :: ViewAfter(cfg, steps + later).task == ViewAfter(cfg, steps).task)
      <==> ViewAfter(cfg, steps).row.value.state.Terminal()
  {
    var task := ViewAfter(cfg, steps).task;
    if ViewAfter(cfg, steps).row.value.state.Terminal() {
      forall later ensures ViewAfter(cfg, steps + later).task == task {
        TerminalRowFreezesEverything(cfg, steps, later);
      }
    } else {
      var later := OpenTaskCanChange(cfg, steps, if task.Some? then task.value.task.state else TaskState.Failed);
    }
  }

  /**
    The limit of `FinalizerKeepsTheOutcome`, in every run: until a finalizer has released, a cancel
    request served by its own worker binds its fence and writes another final state, and the row
    then closes with the finalizer's. So it has to be the sole writer at its fence.
  */
  lemma FinalizerCanBeOverwritten(cfg: Config, steps: seq<Step>, c: nat, env: Env) returns (later: seq<Step>)
    requires var s := Run(cfg, steps);
      c in s.calls && s.calls[c].pc.FinalRelease? && Names(s.store.view.row, s.calls[c].pc.own, s.calls[c].me)
    requires CancelFits(cfg)
    ensures var (final, view) := (Run(cfg, steps).calls[c].pc.final, ViewAfter(cfg, steps + later + [Advance(c, env)]));
      && final.state.Final()
      && view.row.Some? && view.row.value.state == ClosingOf(final.state)
      && view.task.Some? && view.task.value.task.state == OtherFinal(final.state)
  {
    hide RunFrom, CancelFits;
    var s := Run(cfg, steps);
    EveryRunIsSafe(cfg, steps);
    assert CallInv(cfg, s.store, c, s.calls[c]);
    hide CallInv, StoreInv;
    var more := OwnerCanSave(cfg, steps, Task(cfg.taskId, OtherFinal(s.calls[c].pc.final.state), ""));
    later := more[|steps|..];
    assert steps + later == more;
    OneStepMore(cfg, more, Advance(c, env));
  }
}
