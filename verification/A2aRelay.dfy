/**
  The cursor relay that streams a task's durable events to a non-owner while the
  owners keep appending.

  Between any two reads of the relay the rest of the system takes arbitrary
  steps: a `Round` lists the steps before the ownership read, the steps between
  that read and the page read, and the relay's clock afterwards.
*/
module A2aRelay {
  import opened Prelude
  import opened A2aOwnership
  import opened A2aEventStore
  import opened A2aTaskStore
  import opened A2aProtocol
  import opened A2aSafety
  import opened A2aRuns
  import opened A2aTheorems

  datatype Round = Round(before: seq<Step>, between: seq<Step>, clock: int)

  datatype Ending =
    | InvalidArguments  // ValueError
    | Unauthorized      // no ownership row in the caller's scope
    | TerminalEvent     // a terminal status event was yielded
    | RowClosed(state: RowState)
    | TimedOut          // A2aEventStreamTimeoutError
    | Undecodable       // A2aEventDecodeError
    | Detached          // the caller stopped listening

  /** The protobuf library: which stored payloads parse, and the state a status event carries. */
  datatype Codec = Codec(parses: (string, seq<byte>) -> bool, statusOf: seq<byte> -> TaskState) {
    predicate Decodes(row: EventRow) {
      (row.eventType == "Task" || row.eventType == "TaskArtifactUpdateEvent"
       || row.eventType == "TaskStatusUpdateEvent")
      && parses(row.eventType, row.payload)
    }

    predicate IsTerminalEvent(row: EventRow) {
      row.eventType == "TaskStatusUpdateEvent"
      && var state := statusOf(row.payload);
         state.Completed? || state.Failed? || state.Canceled? || state.Rejected?
    }

    /** What a stream over `rows` may yield: up to the first terminal event, nothing undecodable. */
    function Stream(rows: seq<EventRow>): seq<EventRow>
      decreases |rows|
    {
      if rows == [] || !Decodes(rows[0]) then []
      else if IsTerminalEvent(rows[0]) then [rows[0]]
      else [rows[0]] + Stream(rows[1..])
    }

    /** Yielded in full and not yet over. */
    predicate Passed(rows: seq<EventRow>) {
      forall i :: 0 <= i < |rows| ==> Decodes(rows[i]) && !IsTerminalEvent(rows[i])
    }
  }

  /** A stream continues after any prefix without a terminal event as if it had started there. */
  lemma {:induction false} StreamComposes(codec: Codec, rows: seq<EventRow>, n: nat)
    requires n <= |rows| && codec.Passed(rows[..n])
    ensures codec.Stream(rows) == rows[..n] + codec.Stream(rows[n..])
    decreases n
  {
    if n > 0 {
      assert rows[..n][0] == rows[0];
      assert rows[1..][..n - 1] == rows[..n][1..];
      assert codec.Passed(rows[1..][..n - 1]);
      StreamComposes(codec, rows[1..], n - 1);
      assert rows[1..][n - 1..] == rows[n..];
      assert rows[..n] == [rows[0]] + rows[1..][..n - 1];
    } else {
      assert rows[0..] == rows;
    }
  }

  /** Resuming from the last acknowledged sequence yields exactly what the first stream had left. */
  lemma ResumingLosesNothing(codec: Codec, log: seq<EventRow>, after: nat, acknowledged: nat)
    requires after <= acknowledged <= |log| && codec.Passed(log[after..acknowledged])
    ensures codec.Stream(Drop(log, after)) == log[after..acknowledged] + codec.Stream(Drop(log, acknowledged))
  {
    var rows := log[after..];
    assert rows[..acknowledged - after] == log[after..acknowledged];
    assert rows[acknowledged - after..] == log[acknowledged..];
    StreamComposes(codec, rows, acknowledged - after);
  }

  lemma {:induction false} StreamIsPrefix(codec: Codec, rows: seq<EventRow>)
    ensures codec.Stream(rows) <= rows
    decreases |rows|
  {
    if rows != [] && codec.Decodes(rows[0]) && !codec.IsTerminalEvent(rows[0]) {
      StreamIsPrefix(codec, rows[1..]);
      assert rows == [rows[0]] + rows[1..];
    }
  }

  /** The yielded rows are the log after the cursor, in order, up to the first terminal event at most. */
  ghost predicate Delivered(codec: Codec, log: seq<EventRow>, after: nat, yielded: seq<EventRow>) {
    && yielded <= codec.Stream(Drop(log, after))
    && forall i :: 0 <= i < |yielded| ==> yielded[i].sequence == after + i + 1
  }

  /** While the stream goes on: all of `yielded` was read from the log and none of it ended the stream. */
  ghost predicate Reading(codec: Codec, log: seq<EventRow>, after: nat, yielded: seq<EventRow>, cursor: int) {
    cursor == after + |yielded| && yielded <= Drop(log, after) && codec.Passed(yielded)
  }

  lemma ReadingIsDelivered(codec: Codec, log: seq<EventRow>, after: nat, yielded: seq<EventRow>, cursor: int)
    requires Reading(codec, log, after, yielded, cursor) && Numbered(log)
    ensures Delivered(codec, log, after, yielded)
    ensures codec.Stream(Drop(log, after)) == yielded + codec.Stream(Drop(log, cursor))
  {
    ReadNumbers(log, after, yielded);
    hide Numbered;
    assert Drop(log, after)[|yielded|..] == Drop(log, cursor);
    StreamComposes(codec, Drop(log, after), |yielded|);
  }

  lemma ReadNumbers(log: seq<EventRow>, after: nat, yielded: seq<EventRow>)
    requires Numbered(log) && yielded <= Drop(log, after)
    ensures forall i :: 0 <= i < |yielded| ==> yielded[i].sequence == after + i + 1
  {
  }

  lemma StreamStopsAt(codec: Codec, log: seq<EventRow>, after: nat, yielded: seq<EventRow>, cursor: int)
    requires Reading(codec, log, after, yielded, cursor) && Numbered(log) && cursor < |log|
    requires !codec.Decodes(log[cursor])
    ensures codec.Stream(Drop(log, after)) == yielded
  {
    ReadingIsDelivered(codec, log, after, yielded, cursor);
    assert Drop(log, cursor)[0] == log[cursor];
    assert codec.Stream(Drop(log, cursor)) == [];
  }

  lemma StreamTakes(codec: Codec, log: seq<EventRow>, after: nat, yielded: seq<EventRow>, cursor: int)
    requires Reading(codec, log, after, yielded, cursor) && Numbered(log) && cursor < |log|
    requires codec.Decodes(log[cursor])
    ensures Delivered(codec, log, after, yielded + [log[cursor]])
    ensures codec.IsTerminalEvent(log[cursor]) ==> codec.Stream(Drop(log, after)) == yielded + [log[cursor]]
  {
    var rest, row := Drop(log, cursor), log[cursor];
    assert row.sequence == after + |yielded| + 1;
    assert rest[0] == row;
    var more := if codec.IsTerminalEvent(row) then [] else codec.Stream(rest[1..]);
    assert codec.Stream(rest) == [row] + more;
    ReadingIsDelivered(codec, log, after, yielded, cursor);
    hide Reading, Numbered, Drop;
    Regroup(yielded, [row], more);
    TakesOneMore(codec, log, after, yielded, row, more);
  }

  lemma TakesOneMore(
    codec: Codec, log: seq<EventRow>, after: nat, yielded: seq<EventRow>, row: EventRow, more: seq<EventRow>)
    requires Delivered(codec, log, after, yielded) && row.sequence == after + |yielded| + 1
    requires codec.Stream(Drop(log, after)) == yielded + [row] + more
    ensures Delivered(codec, log, after, yielded + [row])
  {
  }

  lemma ReadOn(codec: Codec, log: seq<EventRow>, after: nat, yielded: seq<EventRow>, cursor: int)
    requires Reading(codec, log, after, yielded, cursor) && cursor < |log|
    requires codec.Decodes(log[cursor]) && !codec.IsTerminalEvent(log[cursor])
    ensures Reading(codec, log, after, yielded + [log[cursor]], cursor + 1)
  {
    assert Drop(log, after)[|yielded|] == log[cursor];
  }

  /** A row of one of the three event types whose payload parses as that type. */
  predicate IsMessage(codec: Codec, row: EventRow) {
    row.eventType in ["Task", "TaskArtifactUpdateEvent", "TaskStatusUpdateEvent"]
    && codec.parses(row.eventType, row.payload)
  }

  lemma YieldedAreMessages(codec: Codec, log: seq<EventRow>, after: nat, yielded: seq<EventRow>)
    requires Delivered(codec, log, after, yielded)
    ensures forall row :: row in yielded ==> IsMessage(codec, row)
  {
    StreamHoldsMessages(codec, Drop(log, after));
    var stream := codec.Stream(Drop(log, after));
    forall row | row in yielded ensures row in stream {
      var i :| 0 <= i < |yielded| && yielded[i] == row;
      assert stream[i] == row;
    }
  }

  lemma {:induction false} StreamHoldsMessages(codec: Codec, rows: seq<EventRow>)
    ensures forall row :: row in codec.Stream(rows) ==> IsMessage(codec, row)
    decreases |rows|
  {
    if rows != [] {
      StreamHoldsMessages(codec, rows[1..]);
    }
  }

  /**
    How a stream ends. Always: the yielded rows are the log after the cursor, in order, at
    most up to the first terminal event.
  */
  ghost predicate Ended(codec: Codec, cfg: Config, final: Sys, after: nat, yielded: seq<EventRow>, cursor: int,
                        ending: Ending) {
    var log := final.store.view.log;
    && cursor == after + |yielded|
    && Delivered(codec, log, after, yielded)
    && (!ending.TerminalEvent? ==> codec.Passed(yielded))
    // nothing is yielded that is no protocol message, and the stream breaks off at the first such row
    && (forall row :: row in yielded ==> IsMessage(codec, row))
    && (ending.Undecodable? ==> cursor < |log| && !IsMessage(codec, log[cursor]))
    // on an event: the terminal one, or the first that does not decode
    && (ending.TerminalEvent? ==> yielded != [] && codec.IsTerminalEvent(yielded[|yielded| - 1]))
    && (ending.TerminalEvent? || ending.Undecodable? ==> yielded == codec.Stream(Drop(log, after)))
    // on a closed row: the whole log was read, and if the row is terminal nothing is ever appended after that
    && (ending.RowClosed? ==> yielded == Drop(log, after))
    && (ending.RowClosed? && ending.state.Terminal() ==>
          forall later :: Drop(RunFrom(cfg, final, later).store.view.log, after) == yielded)
  }

  lemma StartsReading(codec: Codec, log: seq<EventRow>, after: nat)
    ensures Reading(codec, log, after, [], after)
  {
  }

  /** What was read stays read while the log grows. */
  lemma ReadingGrows(codec: Codec, log: seq<EventRow>, log': seq<EventRow>, after: nat, yielded: seq<EventRow>,
                     cursor: int)
    requires Reading(codec, log, after, yielded, cursor) && log <= log'
    ensures Reading(codec, log', after, yielded, cursor)
  {
  }

  /** What one page did: it was read on, or the stream ended inside it. */
  ghost predicate PageRead(codec: Codec, log: seq<EventRow>, after: nat, yielded: seq<EventRow>, cursor: int,
                           ending: Option<Ending>) {
    && cursor == after + |yielded|
    && Delivered(codec, log, after, yielded)
    && (ending.None? ==> Reading(codec, log, after, yielded, cursor))
    && (ending.Some? ==>
         && yielded == codec.Stream(Drop(log, after))
         && (ending.value.TerminalEvent? || ending.value.Undecodable?)
         && (ending.value.TerminalEvent? ==> yielded != [] && codec.IsTerminalEvent(yielded[|yielded| - 1]))
         && (ending.value.Undecodable? ==>
               codec.Passed(yielded) && cursor < |log| && !codec.Decodes(log[cursor])))
  }

  lemma IsRead(codec: Codec, log: seq<EventRow>, after: nat, yielded: seq<EventRow>, cursor: int)
    requires Reading(codec, log, after, yielded, cursor) && Numbered(log)
    ensures PageRead(codec, log, after, yielded, cursor, None)
  {
    ReadingIsDelivered(codec, log, after, yielded, cursor);
  }

  /** What the next row does to the stream: break it off, end it, or be read. */
  lemma TakesRow(codec: Codec, log: seq<EventRow>, after: nat, yielded: seq<EventRow>, cursor: nat)
    requires Reading(codec, log, after, yielded, cursor) && Numbered(log) && cursor < |log|
    ensures log[cursor].sequence == cursor + 1
    ensures var row := log[cursor];
      && (!codec.Decodes(row) ==> PageRead(codec, log, after, yielded, cursor, Some(Undecodable)))
      && (codec.Decodes(row) && codec.IsTerminalEvent(row) ==>
            PageRead(codec, log, after, yielded + [row], cursor + 1, Some(TerminalEvent)))
      && (codec.Decodes(row) && !codec.IsTerminalEvent(row) ==>
            Reading(codec, log, after, yielded + [row], cursor + 1))
  {
    if !codec.Decodes(log[cursor]) {
      StreamStopsAt(codec, log, after, yielded, cursor);
      ReadingIsDelivered(codec, log, after, yielded, cursor);
    } else {
      StreamTakes(codec, log, after, yielded, cursor);
      if !codec.IsTerminalEvent(log[cursor]) {
        ReadOn(codec, log, after, yielded, cursor);
      }
    }
  }

  lemma StillReading(codec: Codec, log: seq<EventRow>, after: nat, yielded: seq<EventRow>, cursor: int)
    requires PageRead(codec, log, after, yielded, cursor, None)
    ensures Reading(codec, log, after, yielded, cursor)
  {
  }

  lemma EndsOnEvent(codec: Codec, cfg: Config, final: Sys, after: nat, yielded: seq<EventRow>, cursor: int,
                    ending: Ending)
    requires PageRead(codec, final.store.view.log, after, yielded, cursor, Some(ending))
    ensures Ended(codec, cfg, final, after, yielded, cursor, ending)
    ensures ending.TerminalEvent? || ending.Undecodable?
  {
    YieldedAreMessages(codec, final.store.view.log, after, yielded);
  }

  lemma EndsWhileReading(codec: Codec, cfg: Config, final: Sys, after: nat, yielded: seq<EventRow>, cursor: int,
                         ending: Ending)
    requires Reading(codec, final.store.view.log, after, yielded, cursor) && Numbered(final.store.view.log)
    requires ending.Unauthorized? || ending.TimedOut? || ending.Detached?
    ensures Ended(codec, cfg, final, after, yielded, cursor, ending)
  {
    ReadingIsDelivered(codec, final.store.view.log, after, yielded, cursor);
    YieldedAreMessages(codec, final.store.view.log, after, yielded);
  }

  /** The ownership row was read before the page, and a terminal row admits no append after it. */
  lemma EndsOnClosedRow(codec: Codec, cfg: Config, authorized: Sys, between: seq<Step>, after: nat,
                        yielded: seq<EventRow>, cursor: int)
    requires var log := RunFrom(cfg, authorized, between).store.view.log;
      Reading(codec, log, after, yielded, cursor) && Numbered(log) && Drop(log, cursor) == []
    requires RowOk(authorized.store.view.row) && authorized.store.view.row.Some?
    ensures var final := RunFrom(cfg, authorized, between);
      Ended(codec, cfg, final, after, yielded, cursor, RowClosed(authorized.store.view.row.value.state))
  {
    var final := RunFrom(cfg, authorized, between);
    ReadingIsDelivered(codec, final.store.view.log, after, yielded, cursor);
    YieldedAreMessages(codec, final.store.view.log, after, yielded);
    assert |yielded| == |Drop(final.store.view.log, after)|;
    if authorized.store.view.row.value.state.Terminal() {
      TerminalFrom(cfg, authorized, between);
      forall later ensures Drop(RunFrom(cfg, final, later).store.view.log, after) == yielded {
        TerminalFrom(cfg, final, later);
      }
    }
  }

  // ---------------------------------------------------------------------------
  // What the relay finds in each round
  // ---------------------------------------------------------------------------

  /** The steps of the system before round `k`. */
  function Moved(schedule: seq<Round>, k: nat): seq<Step>
    requires k <= |schedule|
  {
    if k == 0 then [] else Moved(schedule, k - 1) + schedule[k - 1].before + schedule[k - 1].between
  }

  /** The ownership row that round `k` reads. */
  function RowReadIn(cfg: Config, started: seq<Step>, schedule: seq<Round>, k: nat): Option<Row>
    requires k < |schedule|
  {
    ViewAfter(cfg, started + (Moved(schedule, k) + schedule[k].before)).row
  }

  /** The log that round `k` reads its page from. */
  function LogReadIn(cfg: Config, started: seq<Step>, schedule: seq<Round>, k: nat): seq<EventRow>
    requires k < |schedule|
  {
    ViewAfter(cfg, started + Moved(schedule, k + 1)).log
  }

  /** Where the cursor stands before round `k`, if every earlier page was yielded in full. */
  function CursorBefore(cfg: Config, started: seq<Step>, schedule: seq<Round>, after: nat, pageSize: nat, k: nat): nat
    requires k <= |schedule|
  {
    if k == 0 then after
    else
      var cursor := CursorBefore(cfg, started, schedule, after, pageSize, k - 1);
      cursor + Min(pageSize, |Drop(LogReadIn(cfg, started, schedule, k - 1), cursor)|)
  }

  /** Round `k` finds nothing beyond the cursor. */
  predicate NothingNew(cfg: Config, started: seq<Step>, schedule: seq<Round>, after: nat, pageSize: nat, k: nat)
    requires k < |schedule|
  {
    |LogReadIn(cfg, started, schedule, k)| <= CursorBefore(cfg, started, schedule, after, pageSize, k)
  }

  /** The caller may read in round `k`: the row is there and of exactly this scope. */
  predicate Allowed(cfg: Config, started: seq<Step>, schedule: seq<Round>, scopeKey: string, k: nat)
    requires k < |schedule|
  {
    var row := RowReadIn(cfg, started, schedule, k);
    row.Some? && row.value.scopeKey == scopeKey
  }

  /** The task still runs in round `k`, and the deadline has not passed. */
  predicate WorthWaiting(cfg: Config, started: seq<Step>, schedule: seq<Round>, deadline: int, k: nat)
    requires k < |schedule|
  {
    var row := RowReadIn(cfg, started, schedule, k);
    row.Some? && row.value.state == Running && schedule[k].clock < deadline
  }

  /** Round `k` was allowed, and if it found nothing it was worth waiting. */
  predicate WentOn(cfg: Config, started: seq<Step>, scopeKey: string, deadline: int, schedule: seq<Round>, after: nat,
                   pageSize: nat, k: nat)
    requires k < |schedule|
  {
    && Allowed(cfg, started, schedule, scopeKey, k)
    && (NothingNew(cfg, started, schedule, after, pageSize, k) ==> WorthWaiting(cfg, started, schedule, deadline, k))
  }

  ghost predicate AllWentOn(cfg: Config, started: seq<Step>, scopeKey: string, deadline: int, schedule: seq<Round>,
                            after: nat, pageSize: nat, n: nat)
    requires n <= |schedule|
  {
    forall k :: 0 <= k < n ==> WentOn(cfg, started, scopeKey, deadline, schedule, after, pageSize, k)
  }

  /** Why the last round ended the stream, by what it read alone. */
  ghost predicate EndedBecause(ending: Ending, cfg: Config, started: seq<Step>, scopeKey: string, deadline: int,
                               schedule: seq<Round>, after: nat, pageSize: nat, k: nat)
    requires k < |schedule|
  {
    var row := RowReadIn(cfg, started, schedule, k);
    var nothing := NothingNew(cfg, started, schedule, after, pageSize, k);
    && (ending.Unauthorized? <==> !Allowed(cfg, started, schedule, scopeKey, k))
    && (ending.TerminalEvent? || ending.Undecodable? ==> !nothing)
    && (ending.RowClosed? <==> Allowed(cfg, started, schedule, scopeKey, k) && nothing && row.value.state != Running)
    && (ending.RowClosed? ==> ending.state == row.value.state)
    && (ending.TimedOut? <==>
          && Allowed(cfg, started, schedule, scopeKey, k) && nothing && row.value.state == Running
          && deadline <= schedule[k].clock)
  }

  class A2aTaskEventRelay {
    const codec: Codec
    const pageSize: int

    constructor (codec: Codec, pageSize: int)
      requires pageSize >= 1
      ensures this.codec == codec && this.pageSize == pageSize
    {
      this.codec := codec;
      this.pageSize := pageSize;
    }

    /** Yields one page; an ending is returned when the page contains the last event of the stream. */
    method YieldPage(log: seq<EventRow>, after: nat, already: seq<EventRow>, position: int)
      returns (yielded: seq<EventRow>, cursor: int, ending: Option<Ending>, empty: bool)
      requires pageSize >= 1 && Numbered(log) && Reading(codec, log, after, already, position)
      ensures empty <==> Drop(log, position) == []
      ensures empty ==> ending.None? && yielded == already && cursor == position
      ensures ending.None? ==> cursor == position + Min(pageSize, |Drop(log, position)|)
      ensures PageRead(codec, log, after, yielded, cursor, ending)
    {
      yielded, cursor := already, position;
      PageIsSlice(log, cursor, pageSize);
      var page := Page(log, cursor, pageSize);
      empty := page == [];
      hide Page, Reading, PageRead, Numbered;
      for n := 0 to |page|
        invariant cursor == position + n
        invariant Reading(codec, log, after, yielded, cursor)
        invariant n == 0 ==> yielded == already
      {
        var row := page[n];
        assert row == Drop(log, position)[n] && row == log[cursor];
        TakesRow(codec, log, after, yielded, cursor);
        if !codec.Decodes(row) {
          return yielded, cursor, Some(Undecodable), false;
        }
        cursor := row.sequence;
        yielded := yielded + [row];
        if codec.IsTerminalEvent(row) {
          return yielded, cursor, Some(TerminalEvent), false;
        }
      }
      IsRead(codec, log, after, yielded, cursor);
      return yielded, cursor, None, empty;
    }

    /** Before round `k`: all that came before was yielded and nothing ended the stream. */
    ghost predicate Polling(cfg: Config, started: seq<Step>, schedule: seq<Round>, after: nat, k: nat, s: Sys,
                            yielded: seq<EventRow>, cursor: int)
      requires k <= |schedule| && pageSize >= 1
    {
      && s == Run(cfg, started + Moved(schedule, k)) && Numbered(s.store.view.log)
      && Reading(codec, s.store.view.log, after, yielded, cursor)
      && cursor == CursorBefore(cfg, started, schedule, after, pageSize, k)
    }

    /** The stream ended in round `k`: what it yielded, why, and which state of the system it saw last. */
    ghost predicate EndedIn(cfg: Config, started: seq<Step>, scopeKey: string, deadline: int, schedule: seq<Round>,
                            after: nat, k: nat, final: Sys, yielded: seq<EventRow>, cursor: int, ending: Ending)
      requires k < |schedule| && pageSize >= 1
    {
      && Ended(codec, cfg, final, after, yielded, cursor, ending)
      && !ending.InvalidArguments? && !ending.Detached?
      && EndedBecause(ending, cfg, started, scopeKey, deadline, schedule, after, pageSize, k)
      && (ending.Unauthorized? ==>
            && final == Run(cfg, started + (Moved(schedule, k) + schedule[k].before))
            && cursor == CursorBefore(cfg, started, schedule, after, pageSize, k))
      && (!ending.Unauthorized? ==> final == Run(cfg, started + Moved(schedule, k + 1)))
      && (ending.RowClosed? || ending.TimedOut? ==>
            cursor == CursorBefore(cfg, started, schedule, after, pageSize, k + 1))
    }

    /** One turn of the loop: authorize, read a page, yield it, and decide whether to wait. */
    method PollOnce(cfg: Config, ghost started: seq<Step>, scopeKey: string, after: nat, deadline: int,
                    schedule: seq<Round>, k: nat, s: Sys, already: seq<EventRow>, position: int)
      returns (yielded: seq<EventRow>, cursor: int, ending: Option<Ending>, final: Sys)
      requires pageSize >= 1 && k < |schedule| && Polling(cfg, started, schedule, after, k, s, already, position)
      ensures ending.None? ==>
        && Polling(cfg, started, schedule, after, k + 1, final, yielded, cursor)
        && WentOn(cfg, started, scopeKey, deadline, schedule, after, pageSize, k)
      ensures ending.Some? ==>
        EndedIn(cfg, started, scopeKey, deadline, schedule, after, k, final, yielded, cursor, ending.value)
      ensures ending.None? || yielded != already ==> Allowed(cfg, started, schedule, scopeKey, k)
    {
      hide Ended, Reading, Delivered, PageRead, Numbered, Run, RowOk;
      ghost var moved := Moved(schedule, k);
      assert Moved(schedule, k + 1) == moved + schedule[k].before + schedule[k].between;
      hide Moved;
      final := Interfere(cfg, started, moved, s, schedule[k].before);
      ReadingGrows(codec, s.store.view.log, final.store.view.log, after, already, position);
      var ownership := final.store.view.row;
      if ownership.None? || ownership.value.scopeKey != scopeKey {
        EndsWhileReading(codec, cfg, final, after, already, position, Unauthorized);
        return already, position, Some(Unauthorized), final;
      }
      ghost var authorized := final;
      final := Interfere(cfg, started, moved + schedule[k].before, final, schedule[k].between);
      var log := final.store.view.log;
      assert log == LogReadIn(cfg, started, schedule, k);
      assert CursorBefore(cfg, started, schedule, after, pageSize, k + 1)
        == position + Min(pageSize, |Drop(log, position)|);
      ReadingGrows(codec, authorized.store.view.log, log, after, already, position);
      var empty;
      yielded, cursor, ending, empty := YieldPage(log, after, already, position);
      if ending.Some? {
        EndsOnEvent(codec, cfg, final, after, yielded, cursor, ending.value);
        return;
      }
      StillReading(codec, log, after, yielded, cursor);
      if empty {
        if !ownership.value.state.Running? {
          EndsOnClosedRow(codec, cfg, authorized, schedule[k].between, after, yielded, cursor);
          ending := Some(RowClosed(ownership.value.state));
        } else if deadline - schedule[k].clock <= 0 {
          EndsWhileReading(codec, cfg, final, after, yielded, cursor, TimedOut);
          ending := Some(TimedOut);
        }
      }
    }

    /**
      The stream over a schedule that was started with valid arguments: every round but the last
      was allowed and went on, the last one says why the stream ended, and without such a round it
      went through the whole schedule. A caller of another scope never gets anything.
    */
    ghost predicate Polled(cfg: Config, started: seq<Step>, scopeKey: string, deadline: int, schedule: seq<Round>,
                           after: nat, yielded: seq<EventRow>, ending: Ending, cursor: int, final: Sys, rounds: nat)
      requires pageSize >= 1
    {
      && rounds <= |schedule| && !ending.InvalidArguments?
      && Ended(codec, cfg, final, after, yielded, cursor, ending)
      && (!ending.Detached? ==>
            && rounds >= 1
            && EndedIn(cfg, started, scopeKey, deadline, schedule, after, rounds - 1, final, yielded, cursor, ending)
            && AllWentOn(cfg, started, scopeKey, deadline, schedule, after, pageSize, rounds - 1))
      && (ending.Detached? ==>
            && rounds == |schedule|
            && Polling(cfg, started, schedule, after, rounds, final, yielded, cursor)
            && AllWentOn(cfg, started, scopeKey, deadline, schedule, after, pageSize, rounds))
      && (yielded != [] ==> rounds >= 1 && Allowed(cfg, started, schedule, scopeKey, 0))
    }

    /**
      `started` is the run so far; `final` is the system as the stream saw it last, in round
      `rounds - 1` or, when the caller detached, after all of them. The relay reads only: all
      changes come from the schedule.
    */
    method Stream(cfg: Config, started: seq<Step>, scopeKey: string, afterSequence: int, start: int, timeout: int,
                  schedule: seq<Round>)
      returns (yielded: seq<EventRow>, ending: Ending, cursor: int, final: Sys, rounds: nat)
      requires pageSize >= 1
      ensures ending.InvalidArguments? <==>
        !ValidText(scopeKey) || !ValidText(cfg.taskId) || afterSequence < 0 || timeout <= 0
      ensures ending.InvalidArguments? ==> yielded == [] && cursor == afterSequence && final == Run(cfg, started)
      ensures !ending.InvalidArguments? ==>
        Polled(cfg, started, scopeKey, start + timeout, schedule, afterSequence, yielded, ending, cursor, final, rounds)
    {
      hide Polled, Run;
      if !ValidText(scopeKey) || !ValidText(cfg.taskId) || afterSequence < 0 || timeout <= 0 {
        return [], InvalidArguments, afterSequence, Run(cfg, started), 0;
      }
      yielded, ending, cursor, final, rounds := Poll(cfg, started, scopeKey, afterSequence, start + timeout, schedule);
    }

    method Poll(cfg: Config, started: seq<Step>, scopeKey: string, after: nat, deadline: int, schedule: seq<Round>)
      returns (yielded: seq<EventRow>, ending: Ending, cursor: int, final: Sys, rounds: nat)
      requires pageSize >= 1
      ensures !ending.InvalidArguments?
      ensures Polled(cfg, started, scopeKey, deadline, schedule, after, yielded, ending, cursor, final, rounds)
    {
      hide Ended, Run, EndedIn, WentOn, Polling, AllWentOn, Allowed;
      yielded, cursor, final := [], after, Run(cfg, started);
      StartsPolling(cfg, started, scopeKey, deadline, schedule, after);
      for k := 0 to |schedule|
        invariant Polling(cfg, started, schedule, after, k, final, yielded, cursor)
        invariant if k == 0 then yielded == [] else Allowed(cfg, started, schedule, scopeKey, 0)
        invariant AllWentOn(cfg, started, scopeKey, deadline, schedule, after, pageSize, k)
      {
        var ended;
        yielded, cursor, ended, final :=
          PollOnce(cfg, started, scopeKey, after, deadline, schedule, k, final, yielded, cursor);
        if ended.Some? {
          EndedInMeans(cfg, started, scopeKey, deadline, schedule, after, k, final, yielded, cursor, ended.value);
          return yielded, ended.value, cursor, final, k + 1;
        }
        OneMoreRound(cfg, started, scopeKey, deadline, schedule, after, k);
      }
      EndsDetached(cfg, started, schedule, after, final, yielded, cursor);
      return yielded, Detached, cursor, final, |schedule|;
    }

    lemma StartsPolling(cfg: Config, started: seq<Step>, scopeKey: string, deadline: int, schedule: seq<Round>,
                        after: nat)
      requires pageSize >= 1
      ensures Polling(cfg, started, schedule, after, 0, Run(cfg, started), [], after)
      ensures AllWentOn(cfg, started, scopeKey, deadline, schedule, after, pageSize, 0)
    {
      RunFacts(cfg, started);
      assert started + Moved(schedule, 0) == started;
      StartsReading(codec, Run(cfg, started).store.view.log, after);
      hide Run, Reading, Numbered;
    }

    lemma OneMoreRound(cfg: Config, started: seq<Step>, scopeKey: string, deadline: int, schedule: seq<Round>,
                       after: nat, k: nat)
      requires pageSize >= 1 && k < |schedule|
      requires AllWentOn(cfg, started, scopeKey, deadline, schedule, after, pageSize, k)
      requires WentOn(cfg, started, scopeKey, deadline, schedule, after, pageSize, k)
      ensures AllWentOn(cfg, started, scopeKey, deadline, schedule, after, pageSize, k + 1)
    {
      hide WentOn;
    }

    lemma EndsDetached(cfg: Config, started: seq<Step>, schedule: seq<Round>, after: nat, final: Sys,
                       yielded: seq<EventRow>, cursor: int)
      requires pageSize >= 1 && Polling(cfg, started, schedule, after, |schedule|, final, yielded, cursor)
      ensures Ended(codec, cfg, final, after, yielded, cursor, Detached)
    {
      hide Run, Reading, Numbered, Ended;
      EndsWhileReading(codec, cfg, final, after, yielded, cursor, Detached);
    }

    lemma EndedInMeans(cfg: Config, started: seq<Step>, scopeKey: string, deadline: int, schedule: seq<Round>,
                       after: nat, k: nat, final: Sys, yielded: seq<EventRow>, cursor: int, ending: Ending)
      requires k < |schedule| && pageSize >= 1
      requires EndedIn(cfg, started, scopeKey, deadline, schedule, after, k, final, yielded, cursor, ending)
      ensures Ended(codec, cfg, final, after, yielded, cursor, ending)
      ensures !ending.InvalidArguments? && !ending.Detached?
    {
    }
  }

  /** What the relay uses of the protocol invariant. */
  lemma RunFacts(cfg: Config, steps: seq<Step>)
    ensures Numbered(ViewAfter(cfg, steps).log) && RowOk(ViewAfter(cfg, steps).row)
  {
    EveryRunIsSafe(cfg, steps);
    EventLogIsOrdered(cfg, steps);
  }

  /** The system runs on while the relay waits. */
  method Interfere(cfg: Config, ghost started: seq<Step>, ghost taken: seq<Step>, s: Sys, steps: seq<Step>)
    returns (s': Sys)
    requires s == Run(cfg, started + taken)
    ensures s' == RunFrom(cfg, s, steps) && s' == Run(cfg, started + (taken + steps))
    ensures s.store.view.log <= s'.store.view.log
    ensures Numbered(s'.store.view.log) && RowOk(s'.store.view.row)
  {
    s' := RunFrom(cfg, s, steps);
    assert started + (taken + steps) == (started + taken) + steps;
    RunFromSplits(cfg, Initial, started + taken, steps);
    LogOnlyGrows(cfg, s, steps);
    RunFacts(cfg, started + (taken + steps));
  }
}
