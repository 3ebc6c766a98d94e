/** What the protocol guarantees after every run. */
module A2aTheorems {
  import opened Prelude
  import opened A2aOwnership
  import opened A2aEventStore
  import opened A2aTaskStore
  import opened A2aProtocol
  import opened A2aSafety
  import opened A2aRuns

  function TraceOf(cfg: Config, steps: seq<Step>): seq<Obs> {
    Run(cfg, steps).store.trace
  }

  function ViewAfter(cfg: Config, steps: seq<Step>): View {
    Run(cfg, steps).store.view
  }

  lemma {:induction false} RunFromSplits(cfg: Config, s: Sys, first: seq<Step>, second: seq<Step>)
    ensures RunFrom(cfg, s, first + second) == RunFrom(cfg, RunFrom(cfg, s, first), second)
    decreases |first|
  {
    if first == [] {
      assert first + second == second;
    } else {
      assert (first + second)[1..] == first[1..] + second;
      RunFromSplits(cfg, Do(cfg, s, first[0]), first[1..], second);
    }
  }

  // ---------------------------------------------------------------------------
  // Fence order
  // ---------------------------------------------------------------------------

  lemma {:induction false} StampedAt(tr: seq<Obs>, i: nat)
    requires Stamped(tr) && i < |tr| && tr[i].Fenced()
    ensures tr[i].fence == Grants(tr[..i + 1])
  {
    if i < |tr| - 1 {
      StampedAt(tr[..|tr| - 1], i);
      assert tr[..|tr| - 1][..i + 1] == tr[..i + 1];
    } else {
      assert tr[..i + 1] == tr;
    }
  }

  lemma {:induction false} GrantsGrow(tr: seq<Obs>, i: nat, j: nat)
    requires i <= j <= |tr|
    ensures Grants(tr[..i]) <= Grants(tr[..j])
    decreases j
  {
    if i < j {
      assert tr[..j][..j - 1] == tr[..j - 1];
      GrantsGrow(tr, i, j - 1);
    }
  }

  /**
    Whatever the clocks say: the k-th grant of a run is fence k, every fenced commit carries
    the fence of the latest grant before it, and the row holds that fence.
  */
  lemma EveryCommitCarriesTheLatestFence(cfg: Config, steps: seq<Step>, i: nat)
    requires i < |TraceOf(cfg, steps)| && TraceOf(cfg, steps)[i].Fenced()
    ensures TraceOf(cfg, steps)[i].fence == Grants(TraceOf(cfg, steps)[..i + 1])
    ensures ViewAfter(cfg, steps).row.Some?
    ensures ViewAfter(cfg, steps).row.value.fence == Grants(TraceOf(cfg, steps))
  {
    EveryRunIsSafe(cfg, steps);
    StampedAt(TraceOf(cfg, steps), i);
  }

  lemma FencesRise(tr: seq<Obs>, i: nat, j: nat)
    requires Stamped(tr) && i < j < |tr| && tr[i].Fenced() && tr[j].Fenced()
    ensures tr[i].fence <= tr[j].fence
    ensures tr[j].Granted? ==> tr[i].fence < tr[j].fence
  {
    StampedAt(tr, i);
    StampedAt(tr, j);
    GrantsGrow(tr, i + 1, j);
    assert tr[..j + 1][..j] == tr[..j];
  }

  /**
    Task writes, event appends, heartbeats, session binds, releases and grants commit in
    non-decreasing fence order; a grant is strictly above everything before it.
  */
  lemma CommitsFollowFenceOrder(cfg: Config, steps: seq<Step>, i: nat, j: nat)
    requires i < j < |TraceOf(cfg, steps)|
    requires TraceOf(cfg, steps)[i].Fenced() && TraceOf(cfg, steps)[j].Fenced()
    ensures TraceOf(cfg, steps)[i].fence <= TraceOf(cfg, steps)[j].fence
    ensures TraceOf(cfg, steps)[j].Granted? ==> TraceOf(cfg, steps)[i].fence < TraceOf(cfg, steps)[j].fence
  {
    EveryRunIsSafe(cfg, steps);
    FencesRise(TraceOf(cfg, steps), i, j);
  }

  lemma {:induction false} SpentAt(tr: seq<Obs>, i: nat, j: nat)
    requires NothingAfterRelease(tr) && i < j < |tr| && tr[i].ReleasedBy? && tr[j].Fenced()
    ensures tr[j].fence != tr[i].fence
  {
    var init := tr[..|tr| - 1];
    if j < |init| {
      SpentAt(init, i, j);
    } else {
      assert init[i] == tr[i] && tr[i] in init;
    }
  }

  /** A release succeeds at most once per grant, and nothing is committed under the fence after it. */
  lemma ReleaseEndsTheFence(cfg: Config, steps: seq<Step>, i: nat, j: nat)
    requires i < j < |TraceOf(cfg, steps)|
    requires TraceOf(cfg, steps)[i].ReleasedBy? && TraceOf(cfg, steps)[j].Fenced()
    ensures TraceOf(cfg, steps)[j].fence > TraceOf(cfg, steps)[i].fence
  {
    EveryRunIsSafe(cfg, steps);
    CommitsFollowFenceOrder(cfg, steps, i, j);
    SpentAt(TraceOf(cfg, steps), i, j);
  }

  // ---------------------------------------------------------------------------
  // No replay of side effects
  // ---------------------------------------------------------------------------

  /** Once the task was written under a fence, no agent is ever invoked under a later fence. */
  lemma WrittenTaskIsNeverReplayed(cfg: Config, steps: seq<Step>, i: nat, j: nat)
    requires i < |TraceOf(cfg, steps)| && j < |TraceOf(cfg, steps)|
    requires TraceOf(cfg, steps)[i].Written? && TraceOf(cfg, steps)[j].Invoked?
    ensures TraceOf(cfg, steps)[j].fence <= TraceOf(cfg, steps)[i].fence
  {
    var tr := TraceOf(cfg, steps);
    EveryRunIsSafe(cfg, steps);
    assert tr[i] in tr && tr[j] in tr;
  }

  lemma {:induction false} InvokedOnceAt(tr: seq<Obs>, i: nat, j: nat)
    requires InvokedOnce(tr) && i < j < |tr| && tr[i].Invoked? && tr[j].Invoked?
    ensures tr[i].fence != tr[j].fence
  {
    var init := tr[..|tr| - 1];
    if j < |init| {
      InvokedOnceAt(init, i, j);
    } else {
      assert init[i] == tr[i] && tr[i] in init;
    }
  }

  /** Each fence starts at most one invocation, by the call it was granted to. */
  lemma OneInvocationPerFence(cfg: Config, steps: seq<Step>, i: nat, j: nat)
    requires i < j < |TraceOf(cfg, steps)|
    requires TraceOf(cfg, steps)[i].Invoked? && TraceOf(cfg, steps)[j].Invoked?
    ensures TraceOf(cfg, steps)[i].fence != TraceOf(cfg, steps)[j].fence
    ensures Granted(TraceOf(cfg, steps)[i].call, TraceOf(cfg, steps)[i].fence) in TraceOf(cfg, steps)
  {
    EveryRunIsSafe(cfg, steps);
    InvokedOnceAt(TraceOf(cfg, steps), i, j);
    assert TraceOf(cfg, steps)[i] in TraceOf(cfg, steps);
  }

  /**
    A reclaiming call executes exactly when the task was never written: it then finds no task
    and publishes, and otherwise it finalizes what it finds.
  */
  lemma ReclaimedTaskRunsIffUnwritten(cfg: Config, steps: seq<Step>, c: nat, env: Env)
    requires c in Run(cfg, steps).calls && Run(cfg, steps).calls[c].pc.ReadReclaimed?
    ensures var after := Run(cfg, steps + [Advance(c, env)]);
      && c in after.calls && (after.calls[c].pc.Publish? || after.calls[c].pc.Finalize?)
      && (after.calls[c].pc.Publish? <==> forall o :: o in TraceOf(cfg, steps) ==> !o.Written?)
  {
    var s := Run(cfg, steps);
    EveryRunIsSafe(cfg, steps);
    assert CallInv(cfg, s.store, c, s.calls[c]);
    OneStepMore(cfg, steps, Advance(c, env));
    if s.store.view.task.None? {
      UnwrittenTraceHasNoWrites(s.store.trace);
    } else {
      WrittenTraceHasAWrite(s.store.trace);
    }
  }

  lemma {:induction false} WrittenTraceHasAWrite(tr: seq<Obs>)
    requires LastWritten(tr).Some?
    ensures exists o :: o in tr && o.Written?
  {
    if !tr[|tr| - 1].Written? {
      WrittenTraceHasAWrite(tr[..|tr| - 1]);
    } else {
      assert tr[|tr| - 1] in tr;
    }
  }

  lemma OneStepMore(cfg: Config, steps: seq<Step>, step: Step)
    ensures Run(cfg, steps + [step]) == Do(cfg, Run(cfg, steps), step)
  {
    RunFromSplits(cfg, Initial, steps, [step]);
    assert RunFrom(cfg, Run(cfg, steps), [step]) == Do(cfg, Run(cfg, steps), step);
  }

  // ---------------------------------------------------------------------------
  // Exactly-once event log
  // ---------------------------------------------------------------------------

  ghost predicate EpochsOrdered(log: seq<EventRow>) {
    forall i, j :: 0 <= i <= j < |log| ==> log[i].fencingEpoch <= log[j].fencingEpoch
  }

  /** Numbered 1..n with non-decreasing fencing epochs. */
  lemma EventLogIsOrdered(cfg: Config, steps: seq<Step>)
    ensures Numbered(ViewAfter(cfg, steps).log)
    ensures EpochsOrdered(ViewAfter(cfg, steps).log)
  {
    EveryRunIsSafe(cfg, steps);
    var st := Run(cfg, steps).store;
    if st.view.row.Some? {
      LogIsNumbered(st.trace, TenantOf(st.view.row.value.scopeKey), cfg.taskId);
      EpochsAreOrdered(st.trace, TenantOf(st.view.row.value.scopeKey), cfg.taskId);
    }
  }

  lemma {:induction false} EpochsAreOrdered(tr: seq<Obs>, tenantId: string, taskId: string)
    requires Stamped(tr)
    ensures EpochsOrdered(LogFrom(tr, tenantId, taskId))
    ensures forall row :: row in LogFrom(tr, tenantId, taskId) ==> row.fencingEpoch <= Grants(tr)
  {
    if tr != [] {
      var init, last := tr[..|tr| - 1], tr[|tr| - 1];
      EpochsAreOrdered(init, tenantId, taskId);
      var log, before := LogFrom(tr, tenantId, taskId), LogFrom(init, tenantId, taskId);
      assert Grants(init) <= Grants(tr);
      if last.Appended? {
        assert |log| == |before| + 1 && log[..|before|] == before && log[|before|].fencingEpoch == Grants(tr);
        forall i, j | 0 <= i <= j < |log| ensures log[i].fencingEpoch <= log[j].fencingEpoch {
          if i < |before| {
            assert log[i] == before[i] && before[i] in before;
          }
        }
      } else {
        assert log == before;
      }
    }
  }

  /** The (event type, payload) pairs of a log. */
  function EventsIn(log: seq<EventRow>): seq<PendingEvent> {
    seq(|log|, i requires 0 <= i < |log| => PendingEvent(log[i].eventType, log[i].payload))
  }

  /** The appended events of a trace, each with the call that queued it. */
  function AppendsOf(tr: seq<Obs>): seq<(nat, PendingEvent)> {
    if tr == [] then []
    else AppendsOf(tr[..|tr| - 1]) + (if tr[|tr| - 1].Appended? then [(tr[|tr| - 1].call, tr[|tr| - 1].event)] else [])
  }

  function FromCall(appends: seq<(nat, PendingEvent)>, c: nat): seq<PendingEvent> {
    if appends == [] then []
    else
      var last := appends[|appends| - 1];
      FromCall(appends[..|appends| - 1], c) + (if last.0 == c then [last.1] else [])
  }

  lemma LogIsTheAppends(cfg: Config, steps: seq<Step>)
    ensures var (log, appends) := (ViewAfter(cfg, steps).log, AppendsOf(TraceOf(cfg, steps)));
      |log| == |appends| && forall i :: 0 <= i < |log| ==> appends[i].1 == EventsIn(log)[i]
  {
    EveryRunIsSafe(cfg, steps);
    var st := Run(cfg, steps).store;
    if st.view.row.Some? {
      LogMatchesAppends(st.trace, TenantOf(st.view.row.value.scopeKey), cfg.taskId);
    }
  }

  /**
    The log is an interleaving of the calls' queues: each row came from one call, and for
    every call the rows it produced, in log order, followed by the events it still holds
    are exactly the events it ever queued. Nothing is lost, repeated or reordered, however
    many saves failed or were fenced out.
  */
  lemma EventsAreDurableExactlyOnce(cfg: Config, steps: seq<Step>, c: nat)
    requires c in Run(cfg, steps).calls
    ensures var (log, appends) := (ViewAfter(cfg, steps).log, AppendsOf(TraceOf(cfg, steps)));
      && |log| == |appends|
      && (forall i :: 0 <= i < |log| ==> appends[i].1 == EventsIn(log)[i])
      && FromCall(appends, c) + Run(cfg, steps).calls[c].pending == Run(cfg, steps).calls[c].queued
  {
    EveryRunIsSafe(cfg, steps);
    LogIsTheAppends(cfg, steps);
    DurableIsFromCall(TraceOf(cfg, steps), c);
  }

  lemma {:induction false} DurableIsFromCall(tr: seq<Obs>, c: nat)
    ensures FromCall(AppendsOf(tr), c) == DurableOf(tr, c)
  {
    if tr != [] {
      var init, last := tr[..|tr| - 1], tr[|tr| - 1];
      DurableIsFromCall(init, c);
      if last.Appended? {
        assert AppendsOf(tr)[..|AppendsOf(tr)| - 1] == AppendsOf(init);
      } else {
        assert AppendsOf(tr) == AppendsOf(init);
      }
    }
  }

  lemma {:induction false} LogMatchesAppends(tr: seq<Obs>, tenantId: string, taskId: string)
    ensures var (log, appends) := (LogFrom(tr, tenantId, taskId), AppendsOf(tr));
      |log| == |appends| && forall i :: 0 <= i < |log| ==> appends[i].1 == EventsIn(log)[i]
  {
    if tr != [] {
      LogMatchesAppends(tr[..|tr| - 1], tenantId, taskId);
      assert forall i :: 0 <= i < |LogFrom(tr[..|tr| - 1], tenantId, taskId)| ==>
        EventsIn(LogFrom(tr, tenantId, taskId))[i] == EventsIn(LogFrom(tr[..|tr| - 1], tenantId, taskId))[i];
    }
  }

  // ---------------------------------------------------------------------------
  // Terminal rows and durable outcomes
  // ---------------------------------------------------------------------------

  lemma TerminalStep(cfg: Config, s: Sys, step: Step)
    requires RowOk(s.store.view.row) && s.store.view.row.Some? && s.store.view.row.value.state.Terminal()
    ensures Do(cfg, s, step).store.view == s.store.view
  {
  }

  lemma {:induction false} TerminalFrom(cfg: Config, s: Sys, later: seq<Step>)
    requires RowOk(s.store.view.row) && s.store.view.row.Some? && s.store.view.row.value.state.Terminal()
    ensures RunFrom(cfg, s, later).store.view == s.store.view
    decreases |later|
  {
    if later != [] {
      TerminalStep(cfg, s, later[0]);
      TerminalFrom(cfg, Do(cfg, s, later[0]), later[1..]);
    }
  }

  /** Once the ownership row is terminal, the row, the task and the event log never change again. */
  lemma TerminalRowFreezesEverything(cfg: Config, steps: seq<Step>, later: seq<Step>)
    requires ViewAfter(cfg, steps).row.Some? && ViewAfter(cfg, steps).row.value.state.Terminal()
    ensures ViewAfter(cfg, steps + later) == ViewAfter(cfg, steps)
  {
    EveryRunIsSafe(cfg, steps);
    RunFromSplits(cfg, Initial, steps, later);
    TerminalFrom(cfg, Run(cfg, steps), later);
  }

  /**
    Takeover keeps the outcome. Take any run in which a finalizer is about to release a fence
    that is still its own and under which nobody else wrote the task. Its release then makes
    the row terminal with exactly the state of the durable task: the task it read, untouched,
    when that was final; otherwise CANCELED when a cancellation was recorded in the acquired
    snapshot (or this is the cancel path), FAILED when not. No later step changes any of it.
  */
  lemma FinalizerKeepsTheOutcome(cfg: Config, steps: seq<Step>, c: nat, env: Env, later: seq<Step>)
    requires var s := Run(cfg, steps);
      && c in s.calls && s.calls[c].pc.FinalRelease?
      && Names(s.store.view.row, s.calls[c].pc.own, s.calls[c].me)
      && SoleWriter(s.store.trace, s.calls[c].pc.own.fence)
    ensures var (call, view) :=
        (Run(cfg, steps).calls[c], ViewAfter(cfg, steps + [Advance(c, env)] + later));
      && view.task == Some(TaskRow(call.scope, call.pc.final))
      && view.row.Some? && view.row.value.state.Terminal()
      && call.pc.final.state.Final() && view.row.value.state == ClosingOf(call.pc.final.state)
      && (call.pc.read.state.Final() ==> call.pc.final == call.pc.read)
      && (!call.pc.read.state.Final() ==>
            call.pc.final.state
            == (if call.pc.viaCancel || call.pc.own.cancelRequested then TaskState.Canceled else TaskState.Failed))
  {
    var s := Run(cfg, steps);
    var call := s.calls[c];
    EveryRunIsSafe(cfg, steps);
    assert CallInv(cfg, s.store, c, call);
    assert StillDurable(s.store, call, call.pc.own, call.pc.final);
    var s' := Do(cfg, s, Advance(c, env));
    assert s'.store.view.task == s.store.view.task;
    RunFromSplits(cfg, Initial, steps, [Advance(c, env)]);
    assert RunFrom(cfg, s, [Advance(c, env)]) == s';
    TerminalRowFreezesEverything(cfg, steps + [Advance(c, env)], later);
  }

  /** The row's cancel flag is the one the trace says: recorded by a request, reset only by a release. */
  lemma CancelFlagFollowsTheTrace(cfg: Config, steps: seq<Step>)
    requires ViewAfter(cfg, steps).row.Some?
    ensures ViewAfter(cfg, steps).row.value.cancelRequested == CancelAfter(TraceOf(cfg, steps))
    ensures ViewAfter(cfg, steps).row.value.state.Running? <==> ViewAfter(cfg, steps).row.value.ownerId.Some?
    ensures ViewAfter(cfg, steps).row.value.state.Running? <==> ViewAfter(cfg, steps).row.value.leaseUntil.Some?
  {
    EveryRunIsSafe(cfg, steps);
  }

  // ---------------------------------------------------------------------------
  // The log only grows (used by the relay)
  // ---------------------------------------------------------------------------

  lemma LogGrowsInStep(cfg: Config, s: Sys, step: Step)
    ensures s.store.view.log <= Do(cfg, s, step).store.view.log
  {
  }

  lemma {:induction false} LogOnlyGrows(cfg: Config, s: Sys, later: seq<Step>)
    ensures s.store.view.log <= RunFrom(cfg, s, later).store.view.log
    decreases |later|
  {
    if later != [] {
      LogGrowsInStep(cfg, s, later[0]);
      LogOnlyGrows(cfg, Do(cfg, s, later[0]), later[1..]);
    }
  }
}
