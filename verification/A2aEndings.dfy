/**
  How a stream over the log of a closed row ends. What an ending on a closed row is worth:
  everything if the row is terminal, nothing beyond the rows already read if it is merely
  released. And a row closed by an executor that announced it ends every stream on a terminal event.
*/
module A2aEndings {
  import opened Prelude
  import opened A2aOwnership
  import opened A2aEventStore
  import opened A2aTaskStore
  import opened A2aProtocol
  import opened A2aSafety
  import opened A2aRuns
  import opened A2aTheorems
  import opened A2aClosing
  import opened A2aGrowth
  import opened A2aRelay

  /**
    What an ending on a closed row is worth, for every run: when nothing changed since the row was
    read, what was yielded is everything that is ever appended if and only if the row is terminal.
  */
  lemma RowClosedIsCompleteIff(codec: Codec, cfg: Config, steps: seq<Step>, after: nat, yielded: seq<EventRow>,
                               cursor: int)
    requires ViewAfter(cfg, steps).row.Some? && !ViewAfter(cfg, steps).row.value.state.Running?
    requires Ended(codec, cfg, Run(cfg, steps), after, yielded, cursor,
                   RowClosed(ViewAfter(cfg, steps).row.value.state))
    requires CancelFits(cfg)
    ensures (forall later :: Drop(ViewAfter(cfg, steps + later).log, after) == yielded)
      <==> ViewAfter(cfg, steps).row.value.state.Terminal()
  {
    hide Ended;
    if ViewAfter(cfg, steps).row.value.state.Terminal() {
      forall later ensures Drop(ViewAfter(cfg, steps + later).log, after) == yielded {
        TerminalRowFreezesEverything(cfg, steps, later);
        YieldedTheLog(codec, cfg, Run(cfg, steps), after, yielded, cursor, ViewAfter(cfg, steps).row.value.state);
      }
    } else {
      YieldedTheLog(codec, cfg, Run(cfg, steps), after, yielded, cursor, ViewAfter(cfg, steps).row.value.state);
      var later := OpenLogCanGrow(cfg, steps, after + 1);
      assert |Drop(ViewAfter(cfg, steps + later).log, after)| > |yielded|;
    }
  }

  lemma YieldedTheLog(codec: Codec, cfg: Config, final: Sys, after: nat, yielded: seq<EventRow>, cursor: int,
                      state: RowState)
    requires Ended(codec, cfg, final, after, yielded, cursor, RowClosed(state))
    ensures yielded == Drop(final.store.view.log, after)
  {
  }

  /** From every run with a released row a relay that has read the log ends there, and events can follow. */
  method RelayLeavesReleasedRow(relay: A2aTaskEventRelay, cfg: Config, steps: seq<Step>, start: int, timeout: int,
                                clock: int)
    returns (yielded: seq<EventRow>, ending: Ending, ghost later: seq<Step>)
    requires relay.pageSize >= 1 && timeout > 0 && CancelFits(cfg)
    requires ViewAfter(cfg, steps).row.Some? && ViewAfter(cfg, steps).row.value.state.Released?
    ensures yielded == [] && ending == RowClosed(Released)
    ensures Drop(ViewAfter(cfg, steps + later).log, |ViewAfter(cfg, steps).log|) != []
  {
    var view := ViewAfter(cfg, steps);
    RunsKeepTexts(cfg, steps);
    var schedule := [Round([], [], clock)];
    assert Moved(schedule, 0) == [] && Moved(schedule, 1) == [] && steps + [] == steps;
    hide Run;
    var cursor, final, rounds;
    yielded, ending, cursor, final, rounds :=
      relay.Stream(cfg, steps, view.row.value.scopeKey, |view.log|, start, timeout, schedule);
    assert !WentOn(cfg, steps, view.row.value.scopeKey, start + timeout, schedule, |view.log|, relay.pageSize, 0);
    later := OpenLogCanGrow(cfg, steps, 1);
  }

  // ---------------------------------------------------------------------------
  // Every row of the log is a serialized message
  // ---------------------------------------------------------------------------

  /** The protobuf library reads back what it serialized. */
  ghost predicate ReadsBack(codec: Codec, cfg: Config) {
    && (forall message: Message :: codec.parses(message.TypeName(), cfg.serialize(message)))
    && (forall state, content :: codec.statusOf(cfg.serialize(StatusMessage(state, content))) == state)
  }

  ghost predicate Serialized(cfg: Config, event: PendingEvent) {
    exists message :: event == EventOf(cfg, message)
  }

  /** Nothing was queued, or one serialized message. */
  ghost predicate QueuesOne(cfg: Config, call: Call, call': Call) {
    || call'.queued == call.queued
    || (|call'.queued| == |call.queued| + 1 && call'.queued[..|call.queued|] == call.queued
        && Serialized(cfg, call'.queued[|call.queued|]))
  }

  lemma RunQueues(cfg: Config, st: Store, c: nat, call: Call, env: Env)
    ensures QueuesOne(cfg, call, AdvanceRun(cfg, st, c, call, env).1)
  {
    hide StopReasonOf, TxBindSession, TxRelease;
  }

  lemma ClaimQueues(cfg: Config, st: Store, c: nat, call: Call, env: Env)
    ensures QueuesOne(cfg, call, AdvanceClaim(cfg, st, c, call, env).1)
  {
    hide SaveOutcomeOf, SavedView, TxAcquire, TxRelease;
  }

  lemma StepQueues(cfg: Config, st: Store, c: nat, call: Call, step: Step)
    ensures QueuesOne(cfg, call, StepCall(cfg, st, c, call, step).1)
  {
    hide AdvanceRun, AdvanceClaim, SaveOutcomeOf, SavedView, TxAcquire;
    if step.Advance? {
      RunQueues(cfg, st, c, call, step.env);
      ClaimQueues(cfg, st, c, call, step.env);
    }
  }

  lemma CallQueues(cfg: Config, s: Sys, step: Step, c: nat)
    requires c in s.calls
    ensures c in Do(cfg, s, step).calls && QueuesOne(cfg, s.calls[c], Do(cfg, s, step).calls[c])
  {
    if step.c == c {
      StepQueues(cfg, s.store, c, s.calls[c], step);
    }
    hide StepCall, Serialized;
  }

  ghost predicate AllSerialized(cfg: Config, events: seq<PendingEvent>) {
    forall i :: 0 <= i < |events| ==> Serialized(cfg, events[i])
  }

  lemma QueueStaysSerialized(cfg: Config, call: Call, call': Call)
    requires AllSerialized(cfg, call.queued) && QueuesOne(cfg, call, call')
    ensures AllSerialized(cfg, call'.queued)
  {
    hide Serialized;
    if call'.queued != call.queued {
      forall i | 0 <= i < |call.queued| ensures call'.queued[i] == call.queued[i] {
        assert call'.queued[..|call.queued|][i] == call'.queued[i];
      }
    }
  }

  lemma NewCallsAreEmpty(cfg: Config, s: Sys, step: Step, c: nat)
    requires c !in s.calls && c in Do(cfg, s, step).calls
    ensures Do(cfg, s, step).calls[c].queued == []
  {
    hide StepCall;
  }

  lemma {:induction false} QueuesAreSerialized(cfg: Config, steps: seq<Step>, c: nat)
    requires c in Run(cfg, steps).calls
    ensures AllSerialized(cfg, Run(cfg, steps).calls[c].queued)
    decreases |steps|
  {
    if steps != [] {
      var init, last := steps[..|steps| - 1], steps[|steps| - 1];
      InitAndLast(steps);
      OneStepMore(cfg, init, last);
      var s := Run(cfg, init);
      hide RunFrom, Do, QueuesOne;
      if c in s.calls {
        QueuesAreSerialized(cfg, init, c);
        CallQueues(cfg, s, last, c);
        hide AllSerialized;
        QueueStaysSerialized(cfg, s.calls[c], Run(cfg, steps).calls[c]);
      } else {
        NewCallsAreEmpty(cfg, s, last, c);
      }
    }
  }

  lemma {:induction false} AppendIsFromItsCall(appends: seq<(nat, PendingEvent)>, i: nat)
    requires i < |appends|
    ensures appends[i].1 in FromCall(appends, appends[i].0)
  {
    var init := appends[..|appends| - 1];
    if i < |init| {
      AppendIsFromItsCall(init, i);
      assert init[i] == appends[i];
    }
  }

  lemma {:induction false} FromCallIsAppended(appends: seq<(nat, PendingEvent)>, c: nat, event: PendingEvent)
    returns (i: nat)
    requires event in FromCall(appends, c)
    ensures i < |appends| && appends[i] == (c, event)
  {
    var n := |appends| - 1;
    if event in FromCall(appends[..n], c) {
      i := FromCallIsAppended(appends[..n], c, event);
    } else {
      i := n;
    }
  }

  lemma {:induction false} AppendsAreObserved(tr: seq<Obs>, i: nat)
    requires i < |AppendsOf(tr)|
    ensures exists o :: o in tr && o.call == AppendsOf(tr)[i].0
  {
    var init := tr[..|tr| - 1];
    if i < |AppendsOf(init)| {
      AppendsAreObserved(init, i);
    } else {
      assert tr[|tr| - 1] in tr;
    }
  }

  /** The message behind a row of the log, and the call that queued it. */
  lemma RowIsSerialized(cfg: Config, steps: seq<Step>, i: nat) returns (c: nat)
    requires i < |ViewAfter(cfg, steps).log|
    ensures c in Run(cfg, steps).calls && EventsIn(ViewAfter(cfg, steps).log)[i] in DurableEvents(cfg, steps, c)
    ensures Serialized(cfg, EventsIn(ViewAfter(cfg, steps).log)[i])
  {
    var s := Run(cfg, steps);
    EveryRunIsSafe(cfg, steps);
    hide Inv, Serialized;
    LogIsTheAppends(cfg, steps);
    var appends := AppendsOf(s.store.trace);
    c := appends[i].0;
    AppendsAreObserved(s.store.trace, i);
    EventsAreDurableExactlyOnce(cfg, steps, c);
    AppendIsFromItsCall(appends, i);
    var queued := s.calls[c].queued;
    assert appends[i].1 in queued;
    var k :| 0 <= k < |queued| && queued[k] == appends[i].1;
    QueuesAreSerialized(cfg, steps, c);
  }

  // ---------------------------------------------------------------------------
  // A stream over the log of a closed row
  // ---------------------------------------------------------------------------

  lemma LogDecodes(codec: Codec, cfg: Config, steps: seq<Step>)
    requires ReadsBack(codec, cfg)
    ensures forall i :: 0 <= i < |ViewAfter(cfg, steps).log| ==> codec.Decodes(ViewAfter(cfg, steps).log[i])
  {
    var log := ViewAfter(cfg, steps).log;
    forall i | 0 <= i < |log| ensures codec.Decodes(log[i]) {
      var c := RowIsSerialized(cfg, steps, i);
      var message :| EventsIn(log)[i] == EventOf(cfg, message);
      assert log[i].eventType == message.TypeName() && log[i].payload == cfg.serialize(message);
    }
  }

  /** Rows that all decode are streamed up to the first terminal event among them. */
  lemma {:induction false} StreamEndsOnTerminal(codec: Codec, rows: seq<EventRow>, i: nat)
    requires forall k :: 0 <= k < |rows| ==> codec.Decodes(rows[k])
    requires i < |rows| && codec.IsTerminalEvent(rows[i])
    ensures var stream := codec.Stream(rows);
      stream != [] && codec.IsTerminalEvent(stream[|stream| - 1]) && stream[|stream| - 1] in rows
    decreases i
  {
    if !codec.IsTerminalEvent(rows[0]) {
      StreamEndsOnTerminal(codec, rows[1..], i - 1);
      var (stream, rest) := (codec.Stream(rows), codec.Stream(rows[1..]));
      assert stream[|stream| - 1] == rest[|rest| - 1];
    }
  }

  lemma PassedIsNotTerminal(codec: Codec, log: seq<EventRow>, after: nat, i: nat)
    requires i < after <= |log| && codec.Passed(log[..after])
    ensures !codec.IsTerminalEvent(log[i])
  {
    assert log[..after][i] == log[i];
  }

  /** The only status in the log is the last event of call `c`. */
  ghost predicate SoleStatus(cfg: Config, steps: seq<Step>, c: nat) {
    var events := DurableEvents(cfg, steps, c);
    && events != [] && WithoutStatus(events[..|events| - 1])
    && forall d :: d in Run(cfg, steps).calls && d != c ==> WithoutStatus(DurableEvents(cfg, steps, d))
  }

  lemma NoEarlierStatus(events: seq<PendingEvent>, k: nat)
    requires k < |events| - 1 && WithoutStatus(events[..|events| - 1])
    ensures !IsStatus(events[k])
  {
    assert events[..|events| - 1][k] == events[k];
  }

  lemma TerminalRowIsTheStatus(codec: Codec, cfg: Config, steps: seq<Step>, c: nat, i: nat)
    requires SoleStatus(cfg, steps, c) && i < |ViewAfter(cfg, steps).log|
    requires codec.IsTerminalEvent(ViewAfter(cfg, steps).log[i])
    ensures var events := DurableEvents(cfg, steps, c); EventsIn(ViewAfter(cfg, steps).log)[i] == events[|events| - 1]
  {
    var d := RowIsSerialized(cfg, steps, i);
    var (events, event) := (DurableEvents(cfg, steps, d), EventsIn(ViewAfter(cfg, steps).log)[i]);
    var k :| 0 <= k < |events| && events[k] == event;
    assert IsStatus(events[k]);
    if d == c && k < |events| - 1 {
      NoEarlierStatus(events, k);
    }
  }

  /**
    A row closed by an executor that did not leave undecided, as completed and failed rows always
    are: in every continuation, a stream from any cursor that has passed no terminal event ends on
    one. It carries the state of the row if the executor's status is the only one in the log.
  */
  lemma AnnouncedRowEndsItsStream(codec: Codec, cfg: Config, steps: seq<Step>, step: Step, later: seq<Step>, after: nat)
    requires ReadsBack(codec, cfg) && ClosesRow(cfg, steps, step)
    requires step.c in Run(cfg, steps).calls && Run(cfg, steps).calls[step.c].pc.Releasing?
    requires !LeftUndecided(cfg, steps, step.c)
    requires after <= |ViewAfter(cfg, steps).log| && codec.Passed(ViewAfter(cfg, steps).log[..after])
    ensures var (view, final) := (ViewAfter(cfg, steps), ViewAfter(cfg, steps + [step] + later));
      var stream := codec.Stream(Drop(final.log, after));
      && final.log == view.log && stream != [] && codec.IsTerminalEvent(stream[|stream| - 1])
      && (SoleStatus(cfg, steps, step.c) ==>
            var state := codec.statusOf(stream[|stream| - 1].payload);
            state.Final() && final.row.Some? && final.row.value.state == ClosingOf(state))
  {
    var (log, c) := (ViewAfter(cfg, steps).log, step.c);
    ClosedRowHasItsStatusIff(cfg, steps, step);
    ReleaseKeepsLog(cfg, steps, step);
    TerminalRowFreezesEverything(cfg, steps + [step], later);
    var closing := ViewAfter(cfg, steps + [step]).row.value.state;
    var i, state := StatusIsInTheLog(codec, cfg, steps, c, closing);
    LogDecodes(codec, cfg, steps);
    if i < after {
      PassedIsNotTerminal(codec, log, after, i);
    }
    var rows := Drop(log, after);
    assert rows[i - after] == log[i];
    StreamEndsOnTerminal(codec, rows, i - after);
    var stream := codec.Stream(rows);
    if SoleStatus(cfg, steps, c) {
      var last := stream[|stream| - 1];
      var k :| 0 <= k < |rows| && rows[k] == last;
      TerminalRowIsTheStatus(codec, cfg, steps, c, after + k);
      TerminalRowIsTheStatus(codec, cfg, steps, c, i);
      assert log[after + k].payload == log[i].payload;
    }
  }

  lemma ReleaseKeepsLog(cfg: Config, steps: seq<Step>, step: Step)
    requires step.Advance? && step.c in Run(cfg, steps).calls && Run(cfg, steps).calls[step.c].pc.Releasing?
    ensures ViewAfter(cfg, steps + [step]).log == ViewAfter(cfg, steps).log
  {
    OneStepMore(cfg, steps, step);
  }

  /** The status an executor ended on is a terminal event of the log. */
  lemma StatusIsInTheLog(codec: Codec, cfg: Config, steps: seq<Step>, c: nat, closing: RowState)
    returns (i: nat, state: TaskState)
    requires ReadsBack(codec, cfg) && c in Run(cfg, steps).calls
    requires EndsAnnouncing(cfg, DurableEvents(cfg, steps, c), closing)
    ensures i < |ViewAfter(cfg, steps).log| && codec.IsTerminalEvent(ViewAfter(cfg, steps).log[i])
    ensures state.Final() && ClosingOf(state) == closing
    ensures codec.statusOf(ViewAfter(cfg, steps).log[i].payload) == state
  {
    var events := DurableEvents(cfg, steps, c);
    var last := events[|events| - 1];
    var content;
    state, content :| state.Final() && ClosingOf(state) == closing && last == StatusEvent(cfg, state, content);
    LogIsTheAppends(cfg, steps);
    i := FromCallIsAppended(AppendsOf(TraceOf(cfg, steps)), c, last);
    assert EventsIn(ViewAfter(cfg, steps).log)[i] == last;
  }
}
