/**
  The replica-shared ownership row of an A2A task: leases, fencing and durable
  cancellation.

  One row exists per task. Workers change it only through the operations below,
  each of which is one database transaction. Clocks are local to a worker, so
  `now` is an arbitrary integer (microseconds) in every call, unrelated to the
  `now` of any other call.
*/
module A2aOwnership {
  import opened Prelude

  const MAX_PERSISTED_TEXT_LENGTH := 255
  const MICROSECONDS := 1_000_000

  predicate ValidText(s: string) {
    0 < |s| <= MAX_PERSISTED_TEXT_LENGTH
  }

  datatype RowState = Released | Running | Completed | Failed | Canceled {
    predicate Terminal() {
      Completed? || Failed? || Canceled?
    }
  }

  datatype Row = Row(
    contextId: string,
    scopeKey: string,
    ownerId: Option<string>,
    fence: int,
    leaseUntil: Option<int>,
    sessionId: Option<string>,
    cancelRequested: bool,
    state: RowState)

  /** The snapshot a worker holds; it goes stale as soon as the row changes. */
  datatype Ownership = Ownership(
    taskId: string,
    contextId: string,
    scopeKey: string,
    ownerId: Option<string>,
    fence: int,
    leaseUntil: Option<int>,
    sessionId: Option<string>,
    cancelRequested: bool,
    state: RowState,
    reclaimed: bool)

  predicate ValidOwnership(own: Ownership) {
    && ValidText(own.taskId)
    && ValidText(own.contextId)
    && ValidText(own.scopeKey)
    && (own.ownerId.Some? ==> ValidText(own.ownerId.value))
    && (own.sessionId.Some? ==> ValidText(own.sessionId.value))
  }

  /** A snapshot is valid exactly when the texts in it, where there are any, have 1 to 255 characters. */
  lemma SnapshotIsValidIff(own: Ownership)
    ensures ValidOwnership(own) <==>
      forall s :: s in [Some(own.taskId), Some(own.contextId), Some(own.scopeKey), own.ownerId, own.sessionId] ==>
        s.None? || 0 < |s.value| < 256
  {
    var texts := [Some(own.taskId), Some(own.contextId), Some(own.scopeKey), own.ownerId, own.sessionId];
    assert forall i :: 0 <= i < |texts| ==> texts[i] in texts;
    assert texts[0] == Some(own.taskId) && texts[1] == Some(own.contextId) && texts[2] == Some(own.scopeKey);
    assert texts[3] == own.ownerId && texts[4] == own.sessionId;
  }

  function Snapshot(taskId: string, row: Row, reclaimed: bool): Ownership {
    Ownership(taskId, row.contextId, row.scopeKey, row.ownerId, row.fence, row.leaseUntil,
              row.sessionId, row.cancelRequested, row.state, reclaimed)
  }

  // ---------------------------------------------------------------------------
  // What each transaction does to the row of its task
  // ---------------------------------------------------------------------------

  function AcquireRow(row: Option<Row>, me: string, now: int, until: int,
                      taskId: string, contextId: string, scopeKey: string)
    : (Option<Row>, Option<Ownership>)
  {
    match row
    case None =>
      var first := Row(contextId, scopeKey, Some(me), 1, Some(until), None, false, Running);
      (Some(first), Some(Snapshot(taskId, first, false)))
    case Some(r) =>
      if r.scopeKey != scopeKey then (row, None)
      else if r.state.Running? && r.leaseUntil.Some? && r.leaseUntil.value > now then (row, None)
      else if r.state.Terminal() then (row, None)
      else
        var taken := r.(contextId := contextId, ownerId := Some(me), fence := r.fence + 1,
                        leaseUntil := Some(until), state := Running);
        (Some(taken), Some(Snapshot(taskId, taken, true)))
  }

  /** The row matches the snapshot's scope and fence and names this worker. */
  predicate Names(row: Option<Row>, own: Ownership, me: string) {
    row.Some? && row.value.scopeKey == own.scopeKey && row.value.ownerId == Some(me)
    && row.value.fence == own.fence
  }

  /** The test `run_if_owned` makes under the row lock. */
  predicate HoldsLease(row: Option<Row>, own: Ownership, me: string, now: int) {
    Names(row, own, me) && row.value.state.Running?
    && row.value.leaseUntil.Some? && row.value.leaseUntil.value > now
  }

  function HeartbeatRow(row: Option<Row>, own: Ownership, me: string, until: int): (Option<Row>, bool) {
    if Names(row, own, me) && row.value.state.Running?
    then (Some(row.value.(leaseUntil := Some(until))), true)
    else (row, false)
  }

  function RequestCancelRow(row: Option<Row>, scopeKey: string): (Option<Row>, bool) {
    if row.Some? && row.value.scopeKey == scopeKey && row.value.state.Running?
    then (Some(row.value.(cancelRequested := true)), true)
    else (row, false)
  }

  function BindSessionRow(row: Option<Row>, own: Ownership, me: string, sessionId: string): (Option<Row>, bool) {
    if Names(row, own, me) && row.value.state.Running?
    then (Some(row.value.(sessionId := Some(sessionId))), true)
    else (row, false)
  }

  /** Tests neither the state nor the lease: only the scope, the owner and the fence. */
  function ReleaseRow(row: Option<Row>, own: Ownership, me: string, state: RowState): (Option<Row>, bool) {
    if Names(row, own, me)
    then (Some(row.value.(ownerId := None, leaseUntil := None,
                          cancelRequested := !state.Released? && own.cancelRequested,
                          state := state)), true)
    else (row, false)
  }

  // ---------------------------------------------------------------------------
  // The store: one instance per worker, all sharing one table
  // ---------------------------------------------------------------------------

  class OwnershipTable {
    var rows: map<string, Row>

    constructor ()
      ensures rows == map[]
    {
      rows := map[];
    }

    function RowOf(taskId: string): Option<Row>
      reads this
    {
      if taskId in rows then Some(rows[taskId]) else None
    }
  }

  /** `rows` after the row of one task became `row`; other tasks keep theirs. */
  function Put(rows: map<string, Row>, taskId: string, row: Option<Row>): map<string, Row> {
    if row.Some? then rows[taskId := row.value] else rows
  }

  /** The rows of all other tasks are as before. */
  predicate OnlyRowChanged(rows: map<string, Row>, rows': map<string, Row>, taskId: string) {
    && taskId in rows' && rows'.Keys == rows.Keys + {taskId}
    && forall k :: k in rows && k != taskId ==> rows'[k] == rows[k]
  }

  /** A caller of this scope may not have the task at this time. */
  predicate Unavailable(row: Row, scopeKey: string, now: int) {
    || row.scopeKey != scopeKey
    || row.state == Completed || row.state == Failed || row.state == Canceled
    || (row.state == Running && row.leaseUntil.Some? && now < row.leaseUntil.value)
  }

  predicate ClaimedBy(row: Row, me: string, contextId: string, scopeKey: string, until: int) {
    row.state == Running && row.ownerId == Some(me) && row.leaseUntil == Some(until)
    && row.contextId == contextId && row.scopeKey == scopeKey
  }

  /** A first claim starts at fence 1; a later one goes one up and inherits session and cancellation. */
  predicate TakesOver(row: Row, before: Option<Row>) {
    match before
    case None => row.fence == 1 && row.sessionId == None && !row.cancelRequested
    case Some(b) =>
      row.fence == b.fence + 1 && row.sessionId == b.sessionId && row.cancelRequested == b.cancelRequested
  }

  /** The conditions of the fenced updates, on the row. */
  predicate OwnedBy(row: Row, own: Ownership, me: string) {
    row.scopeKey == own.scopeKey && row.ownerId == Some(me) && row.fence == own.fence
  }

  /** The row of the snapshot's task is running under its fence for this worker, and has not expired. */
  predicate LiveFor(rows: map<string, Row>, own: Ownership, me: string, now: int) {
    own.taskId in rows && OwnedBy(rows[own.taskId], own, me) && rows[own.taskId].state == Running
    && rows[own.taskId].leaseUntil.Some? && now < rows[own.taskId].leaseUntil.value
  }

  class A2aTaskOwnershipStore {
    const table: OwnershipTable
    const ownerId: string
    const leaseSeconds: int

    constructor (table: OwnershipTable, ownerId: string, leaseSeconds: int)
      requires ValidText(ownerId)
      requires leaseSeconds >= 5
      ensures this.table == table && this.ownerId == ownerId && this.leaseSeconds == leaseSeconds
    {
      this.table := table;
      this.ownerId := ownerId;
      this.leaseSeconds := leaseSeconds;
    }

    function Until(now: int): int {
      now + leaseSeconds * MICROSECONDS
    }

    method Get(taskId: string, scopeKey: string) returns (r: Checked<Option<Ownership>>)
      ensures r.ValueError? <==> !(ValidText(taskId) && ValidText(scopeKey))
      ensures r.Value? ==>
        (r.value.Some? <==> taskId in table.rows && table.rows[taskId].scopeKey == scopeKey)
      ensures r.Value? && r.value.Some? ==> r.value.value == Snapshot(taskId, table.rows[taskId], false)
    {
      if !ValidText(taskId) || !ValidText(scopeKey) {
        return ValueError;
      }
      if taskId in table.rows && table.rows[taskId].scopeKey == scopeKey {
        return Value(Some(Snapshot(taskId, table.rows[taskId], false)));
      }
      return Value(None);
    }

    method Acquire(taskId: string, contextId: string, scopeKey: string, now: int)
      returns (r: Checked<Option<Ownership>>)
      modifies table
      ensures r.ValueError? <==> !(ValidText(taskId) && ValidText(contextId) && ValidText(scopeKey))
      ensures r.ValueError? ==> table.rows == old(table.rows)
      ensures r.Value? ==>
        var (row, granted) :=
          AcquireRow(old(table.RowOf(taskId)), ownerId, now, Until(now), taskId, contextId, scopeKey);
        r.value == granted && table.rows == Put(old(table.rows), taskId, row)
      // the same on the row itself: who is refused, and what a grant leaves
      ensures r.Value? ==>
        (r.value.None? <==> taskId in old(table.rows) && Unavailable(old(table.rows)[taskId], scopeKey, now))
      ensures r.Value? && r.value.None? ==> table.rows == old(table.rows)
      ensures r.Value? && r.value.Some? ==>
        && OnlyRowChanged(old(table.rows), table.rows, taskId)
        && ClaimedBy(table.rows[taskId], ownerId, contextId, scopeKey, now + leaseSeconds * MICROSECONDS)
        && TakesOver(table.rows[taskId], old(table.RowOf(taskId)))
        && r.value.value == Snapshot(taskId, table.rows[taskId], taskId in old(table.rows))
    {
      if !ValidText(taskId) || !ValidText(contextId) || !ValidText(scopeKey) {
        return ValueError;
      }
      var leaseUntil := Until(now);
      if taskId !in table.rows {
        var first := Row(contextId, scopeKey, Some(ownerId), 1, Some(leaseUntil), None, false, Running);
        table.rows := table.rows[taskId := first];
        return Value(Some(Ownership(taskId, contextId, scopeKey, Some(ownerId), 1, Some(leaseUntil),
                                    None, false, Running, false)));
      }
      var row := table.rows[taskId];
      assert Put(table.rows, taskId, Some(row)) == table.rows;
      if row.scopeKey != scopeKey {
        return Value(None);
      }
      var leaseActive := row.state.Running? && row.leaseUntil.Some? && row.leaseUntil.value > now;
      if leaseActive {
        return Value(None);
      }
      if row.state.Terminal() {
        return Value(None);
      }
      var fence := row.fence + 1;
      table.rows := table.rows[taskId :=
        Row(contextId, scopeKey, Some(ownerId), fence, Some(leaseUntil), row.sessionId,
            row.cancelRequested, Running)];
      return Value(Some(Ownership(taskId, contextId, scopeKey, Some(ownerId), fence, Some(leaseUntil),
                                  row.sessionId, row.cancelRequested, Running, true)));
    }

    method Heartbeat(own: Ownership, now: int) returns (r: Checked<bool>)
      modifies table
      ensures r.ValueError? <==> !ValidOwnership(own)
      ensures r.ValueError? ==> table.rows == old(table.rows)
      ensures r.Value? ==>
        var (row, renewed) := HeartbeatRow(old(table.RowOf(own.taskId)), own, ownerId, Until(now));
        r.value == renewed && table.rows == Put(old(table.rows), own.taskId, row)
      ensures r.Value? ==>
        (r.value <==> own.taskId in old(table.rows) && OwnedBy(old(table.rows)[own.taskId], own, ownerId)
                      && old(table.rows)[own.taskId].state == Running)
      ensures r == Value(false) ==> table.rows == old(table.rows)
      ensures r == Value(true) ==>
        table.rows == old(table.rows)[own.taskId := old(table.rows)[own.taskId].(
          leaseUntil := Some(now + leaseSeconds * MICROSECONDS))]
    {
      if !ValidOwnership(own) {
        return ValueError;
      }
      var matched := Matched(own);
      if matched && table.rows[own.taskId].state.Running? {
        table.rows := table.rows[own.taskId := table.rows[own.taskId].(leaseUntil := Some(Until(now)))];
        return Value(true);
      }
      return Value(false);
    }

    /** The WHERE clause shared by the fenced updates; `Put` of the same row changes nothing. */
    method Matched(own: Ownership) returns (matched: bool)
      ensures matched == Names(table.RowOf(own.taskId), own, ownerId)
      ensures matched ==> own.taskId in table.rows
      ensures Put(table.rows, own.taskId, table.RowOf(own.taskId)) == table.rows
    {
      matched := own.taskId in table.rows
        && table.rows[own.taskId].scopeKey == own.scopeKey
        && table.rows[own.taskId].ownerId == Some(ownerId)
        && table.rows[own.taskId].fence == own.fence;
    }

    /** The check that opens every fenced transaction; the caller's mutation follows under the same lock. */
    method CheckOwned(own: Ownership, now: int) returns (r: Checked<bool>)
      ensures r.ValueError? <==> !ValidOwnership(own)
      ensures r.Value? ==> r.value == HoldsLease(table.RowOf(own.taskId), own, ownerId, now)
      ensures r.Value? ==> (r.value <==> LiveFor(table.rows, own, ownerId, now))
    {
      if !ValidOwnership(own) {
        return ValueError;
      }
      if own.taskId !in table.rows || table.rows[own.taskId].scopeKey != own.scopeKey {
        return Value(false);
      }
      var row := table.rows[own.taskId];
      return Value(row.ownerId == Some(ownerId) && row.fence == own.fence && row.state.Running?
                   && row.leaseUntil.Some? && row.leaseUntil.value > now);
    }

    method RequestCancel(taskId: string, scopeKey: string) returns (r: Checked<bool>)
      modifies table
      ensures r.ValueError? <==> !(ValidText(taskId) && ValidText(scopeKey))
      ensures r.ValueError? ==> table.rows == old(table.rows)
      ensures r.Value? ==>
        var (row, recorded) := RequestCancelRow(old(table.RowOf(taskId)), scopeKey);
        r.value == recorded && table.rows == Put(old(table.rows), taskId, row)
      ensures r.Value? ==>
        (r.value <==> taskId in old(table.rows) && old(table.rows)[taskId].scopeKey == scopeKey
                      && old(table.rows)[taskId].state == Running)
      ensures r == Value(false) ==> table.rows == old(table.rows)
      ensures r == Value(true) ==>
        table.rows == old(table.rows)[taskId := old(table.rows)[taskId].(cancelRequested := true)]
    {
      if !ValidText(taskId) || !ValidText(scopeKey) {
        return ValueError;
      }
      if taskId in table.rows && table.rows[taskId].scopeKey == scopeKey && table.rows[taskId].state.Running? {
        table.rows := table.rows[taskId := table.rows[taskId].(cancelRequested := true)];
        return Value(true);
      }
      assert Put(table.rows, taskId, table.RowOf(taskId)) == table.rows;
      return Value(false);
    }

    method BindSession(own: Ownership, sessionId: string) returns (r: Checked<bool>)
      modifies table
      ensures r.ValueError? <==> !(ValidOwnership(own) && ValidText(sessionId))
      ensures r.ValueError? ==> table.rows == old(table.rows)
      ensures r.Value? ==>
        var (row, bound) := BindSessionRow(old(table.RowOf(own.taskId)), own, ownerId, sessionId);
        r.value == bound && table.rows == Put(old(table.rows), own.taskId, row)
      ensures r.Value? ==>
        (r.value <==> own.taskId in old(table.rows) && OwnedBy(old(table.rows)[own.taskId], own, ownerId)
                      && old(table.rows)[own.taskId].state == Running)
      ensures r == Value(false) ==> table.rows == old(table.rows)
      ensures r == Value(true) ==>
        table.rows == old(table.rows)[own.taskId := old(table.rows)[own.taskId].(sessionId := Some(sessionId))]
    {
      if !ValidOwnership(own) || !ValidText(sessionId) {
        return ValueError;
      }
      var matched := Matched(own);
      if matched && table.rows[own.taskId].state.Running? {
        table.rows := table.rows[own.taskId := table.rows[own.taskId].(sessionId := Some(sessionId))];
        return Value(true);
      }
      return Value(false);
    }

    method Release(own: Ownership, state: RowState) returns (r: Checked<bool>)
      modifies table
      ensures r.ValueError? <==> state.Running? || !ValidOwnership(own)
      ensures r.ValueError? ==> table.rows == old(table.rows)
      ensures r.Value? ==>
        var (row, released) := ReleaseRow(old(table.RowOf(own.taskId)), own, ownerId, state);
        r.value == released && table.rows == Put(old(table.rows), own.taskId, row)
      ensures r.Value? ==>
        (r.value <==> own.taskId in old(table.rows) && OwnedBy(old(table.rows)[own.taskId], own, ownerId))
      ensures r == Value(false) ==> table.rows == old(table.rows)
      ensures r == Value(true) ==>
        && OnlyRowChanged(old(table.rows), table.rows, own.taskId)
        && table.rows[own.taskId].ownerId == None && table.rows[own.taskId].leaseUntil == None
        && table.rows[own.taskId].state == state
        && (table.rows[own.taskId].cancelRequested <==> state != Released && own.cancelRequested)
        && table.rows[own.taskId].fence == old(table.rows)[own.taskId].fence
        && table.rows[own.taskId].sessionId == old(table.rows)[own.taskId].sessionId
        && table.rows[own.taskId].scopeKey == old(table.rows)[own.taskId].scopeKey
        && table.rows[own.taskId].contextId == old(table.rows)[own.taskId].contextId
    {
      if state.Running? || !ValidOwnership(own) {
        return ValueError;
      }
      var matched := Matched(own);
      if matched {
        var row := table.rows[own.taskId];
        var cancel := if state.Released? then false else own.cancelRequested;
        table.rows := table.rows[own.taskId :=
          row.(ownerId := None, leaseUntil := None, cancelRequested := cancel, state := state)];
        return Value(true);
      }
      return Value(false);
    }
  }

  // ---------------------------------------------------------------------------
  // Every run of the row: any workers, any snapshots, any clocks, any order
  // ---------------------------------------------------------------------------

  datatype Op =
    | AcquireOp(me: string, now: int, until: int, taskId: string, contextId: string, scopeKey: string)
    | HeartbeatOp(own: Ownership, me: string, until: int)
    | CancelOp(scopeKey: string)
    | BindOp(own: Ownership, me: string, sessionId: string)
    | ReleaseOp(own: Ownership, me: string, closing: RowState)

  /** The row after one operation. A release to `running` is refused before the transaction. */
  function Apply(row: Option<Row>, op: Op): Option<Row> {
    match op
    case AcquireOp(me, now, until, taskId, contextId, scopeKey) =>
      AcquireRow(row, me, now, until, taskId, contextId, scopeKey).0
    case HeartbeatOp(own, me, until) => HeartbeatRow(row, own, me, until).0
    case CancelOp(scopeKey) => RequestCancelRow(row, scopeKey).0
    case BindOp(own, me, sessionId) => BindSessionRow(row, own, me, sessionId).0
    case ReleaseOp(own, me, closing) => if closing.Running? then row else ReleaseRow(row, own, me, closing).0
  }

  function ApplyAll(row: Option<Row>, ops: seq<Op>): Option<Row>
    decreases |ops|
  {
    if ops == [] then row else ApplyAll(Apply(row, ops[0]), ops[1..])
  }

  /** Whether the operation changes the row by a release. */
  predicate Releases(row: Option<Row>, op: Op) {
    op.ReleaseOp? && !op.closing.Running? && ReleaseRow(row, op.own, op.me, op.closing).1
  }

  /** Running exactly when an owner and a lease are recorded. */
  ghost predicate RowOk(row: Option<Row>) {
    row.Some? ==>
      && 1 <= row.value.fence
      && (row.value.state.Running? <==> row.value.ownerId.Some?)
      && (row.value.state.Running? <==> row.value.leaseUntil.Some?)
  }

  lemma {:induction false} RunningIffOwnedAndLeased(row: Option<Row>, ops: seq<Op>)
    requires RowOk(row)
    ensures RowOk(ApplyAll(row, ops))
    decreases |ops|
  {
    if ops != [] {
      RunningIffOwnedAndLeased(Apply(row, ops[0]), ops[1..]);
    }
  }

  /** A completed, failed or canceled row is never changed again. */
  lemma {:induction false} TerminalRowIsFrozen(row: Option<Row>, ops: seq<Op>)
    requires RowOk(row) && row.Some? && row.value.state.Terminal()
    ensures ApplyAll(row, ops) == row
    decreases |ops|
  {
    if ops != [] {
      assert Apply(row, ops[0]) == row;
      TerminalRowIsFrozen(row, ops[1..]);
    }
  }

  /** Fences never go down and the scope never changes. */
  lemma {:induction false} FenceNeverFalls(row: Option<Row>, ops: seq<Op>)
    requires row.Some?
    ensures ApplyAll(row, ops).Some?
    ensures ApplyAll(row, ops).value.fence >= row.value.fence
    ensures ApplyAll(row, ops).value.scopeKey == row.value.scopeKey
    decreases |ops|
  {
    if ops != [] {
      FenceNeverFalls(Apply(row, ops[0]), ops[1..]);
    }
  }

  /**
    Once a release has succeeded under a fence, no snapshot carrying that fence or an
    older one is ever accepted again: not to renew, bind, write or release.
  */
  lemma {:induction false} ReleasedFenceIsSpent(row: Option<Row>, op: Op, later: seq<Op>, own: Ownership, me: string)
    requires Releases(row, op)
    requires own.fence <= op.own.fence
    ensures !Names(ApplyAll(Apply(row, op), later), own, me)
  {
    OwnerlessFenceIsSpent(Apply(row, op), later, own, me);
  }

  lemma {:induction false} OwnerlessFenceIsSpent(row: Option<Row>, ops: seq<Op>, own: Ownership, me: string)
    requires row.Some? && row.value.ownerId.None? && own.fence <= row.value.fence
    ensures !Names(ApplyAll(row, ops), own, me)
    decreases |ops|
  {
    if ops != [] {
      var next := Apply(row, ops[0]);
      if next.value.ownerId.None? {
        OwnerlessFenceIsSpent(next, ops[1..], own, me);
      } else {
        FenceNeverFalls(next, ops[1..]);
      }
    }
  }

  /** A recorded cancellation stays recorded until some release succeeds. */
  lemma {:induction false} CancelSurvivesUntilRelease(row: Option<Row>, ops: seq<Op>)
    requires row.Some? && row.value.cancelRequested
    requires forall i :: 0 <= i < |ops| ==> !Releases(ApplyAll(row, ops[..i]), ops[i])
    ensures ApplyAll(row, ops).Some? && ApplyAll(row, ops).value.cancelRequested
    decreases |ops|
  {
    if ops != [] {
      assert ops[..0] == [];
      assert !Releases(ApplyAll(row, ops[..0]), ops[0]);
      var next, rest := Apply(row, ops[0]), ops[1..];
      forall i | 0 <= i < |rest| ensures !Releases(ApplyAll(next, rest[..i]), rest[i]) {
        assert ops[..i + 1][1..] == rest[..i];
        assert !Releases(ApplyAll(row, ops[..i + 1]), ops[i + 1]);
      }
      CancelSurvivesUntilRelease(next, rest);
    }
  }

  /** A session that was bound is the row's session until another one is bound, through every takeover and release. */
  lemma {:induction false} SessionSurvivesUntilRebound(row: Option<Row>, ops: seq<Op>)
    requires row.Some?
    requires forall i :: 0 <= i < |ops| ==> ops[i].BindOp? ==> !Binds(ApplyAll(row, ops[..i]), ops[i])
    ensures ApplyAll(row, ops).Some? && ApplyAll(row, ops).value.sessionId == row.value.sessionId
    decreases |ops|
  {
    if ops != [] {
      assert ops[..0] == [];
      var next, rest := Apply(row, ops[0]), ops[1..];
      forall i | 0 <= i < |rest| && rest[i].BindOp? ensures !Binds(ApplyAll(next, rest[..i]), rest[i]) {
        assert ops[..i + 1][1..] == rest[..i] && ops[i + 1] == rest[i];
      }
      SessionSurvivesUntilRebound(next, rest);
    }
  }

  /** A bind that is accepted: of a running row, by its owner under its fence. */
  predicate Binds(row: Option<Row>, op: Op) {
    op.BindOp? && row.Some? && row.value.state == Running && OwnedBy(row.value, op.own, op.me)
  }

  /** What an accepted bind leaves, and what the next owner then finds in its snapshot. */
  lemma BoundSessionIsHandedOver(row: Option<Row>, op: Op, later: seq<Op>, claim: Op)
    requires Binds(row, op) && claim.AcquireOp?
    requires forall i :: 0 <= i < |later| ==>
      later[i].BindOp? ==> !Binds(ApplyAll(Apply(row, op), later[..i]), later[i])
    ensures var (_, granted) := AcquireRow(ApplyAll(Apply(row, op), later), claim.me, claim.now, claim.until,
                                           claim.taskId, claim.contextId, claim.scopeKey);
      granted.Some? ==> granted.value.sessionId == Some(op.sessionId)
  {
    SessionSurvivesUntilRebound(Apply(row, op), later);
  }

  /** Every acquire of the scope reads a clock before the expiry that the row then records. */
  ghost predicate ReadBeforeExpiry(row: Option<Row>, ops: seq<Op>) {
    forall i :: 0 <= i < |ops| ==>
      var at := ApplyAll(row, ops[..i]);
      ops[i].AcquireOp? && at.Some? && at.value.scopeKey == ops[i].scopeKey && at.value.leaseUntil.Some? ==>
        ops[i].now < at.value.leaseUntil.value
  }

  /**
    A lease excludes everybody. As long as no release succeeds, a running row keeps its owner and
    fence, whatever anyone tries, if and only if every acquire of its scope reads a clock before
    the expiry recorded in the row at that time.
  */
  lemma {:induction false} LeaseExcludesIff(row: Option<Row>, ops: seq<Op>)
    requires RowOk(row) && row.Some? && row.value.state == Running
    requires forall i :: 0 <= i < |ops| ==> !Releases(ApplyAll(row, ops[..i]), ops[i])
    ensures var after := ApplyAll(row, ops);
      && after.Some? && after.value.state == Running && after.value.fence >= row.value.fence
      && (after.value.fence == row.value.fence <==> ReadBeforeExpiry(row, ops))
      && (ReadBeforeExpiry(row, ops) ==> after.value.ownerId == row.value.ownerId)
    decreases |ops|
  {
    if ops != [] {
      var next, rest := Apply(row, ops[0]), ops[1..];
      assert ops[..0] == [];
      assert !Releases(ApplyAll(row, ops[..0]), ops[0]);
      forall i | 0 <= i < |rest|
        ensures ApplyAll(row, ops[..i + 1]) == ApplyAll(next, rest[..i]) && ops[i + 1] == rest[i]
      {
        assert ops[..i + 1][1..] == rest[..i];
      }
      forall i | 0 <= i < |rest| ensures !Releases(ApplyAll(next, rest[..i]), rest[i]) {
        assert !Releases(ApplyAll(row, ops[..i + 1]), ops[i + 1]);
      }
      LeaseExcludesIff(next, rest);
      FirstReading(row, ops);
    }
  }

  lemma FirstReading(row: Option<Row>, ops: seq<Op>)
    requires ops != []
    ensures ReadBeforeExpiry(row, ops) <==>
      ReadBeforeExpiry(row, ops[..1]) && ReadBeforeExpiry(Apply(row, ops[0]), ops[1..])
  {
    var next, rest := Apply(row, ops[0]), ops[1..];
    assert ops[..0] == [] && ops[..1][..0] == [];
    forall i | 0 <= i < |rest|
      ensures ApplyAll(row, ops[..i + 1]) == ApplyAll(next, rest[..i]) && ops[i + 1] == rest[i]
    {
      assert ops[..i + 1][1..] == rest[..i];
    }
    if ReadBeforeExpiry(next, rest) && ReadBeforeExpiry(row, ops[..1]) {
      forall i | 0 <= i < |ops|
        ensures var at := ApplyAll(row, ops[..i]);
          ops[i].AcquireOp? && at.Some? && at.value.scopeKey == ops[i].scopeKey && at.value.leaseUntil.Some? ==>
            ops[i].now < at.value.leaseUntil.value
      {
        if i > 0 {
          assert ops[i] == rest[i - 1];
          assert ApplyAll(row, ops[..i - 1 + 1]) == ApplyAll(next, rest[..i - 1]);
        } else {
          assert ops[..1][0] == ops[0];
        }
      }
    }
    if ReadBeforeExpiry(row, ops) {
      forall i | 0 <= i < |rest|
        ensures var at := ApplyAll(next, rest[..i]);
          rest[i].AcquireOp? && at.Some? && at.value.scopeKey == rest[i].scopeKey && at.value.leaseUntil.Some? ==>
            rest[i].now < at.value.leaseUntil.value
      {
        assert ApplyAll(row, ops[..i + 1]) == ApplyAll(next, rest[..i]);
      }
    }
  }
}
