/**
  Fenced persistence of A2A tasks: a task row and at most one pending protocol
  event are written together, in the transaction that checks the fence.
*/
module A2aTaskStore {
  import opened Prelude
  import opened A2aOwnership
  import opened A2aEventStore

  datatype TaskState =
    | Unspecified | Submitted | Working | Completed | Failed | Canceled | InputRequired | Rejected | AuthRequired
  {
    /** The states the executor treats as final. */
    predicate Final() {
      Completed? || Failed? || Canceled?
    }
  }

  /** A protocol task; `body` stands for the artifacts, history and message, compared as a whole. */
  datatype Task = Task(id: string, state: TaskState, body: string)

  datatype TaskRow = TaskRow(owner: string, task: Task)

  datatype PendingEvent = PendingEvent(eventType: string, payload: seq<byte>)

  /** What the database holds about one task. */
  datatype View = View(row: Option<Row>, task: Option<TaskRow>, log: seq<EventRow>)

  /** Tasks are read by identifier and owner. */
  function ReadTask(task: Option<TaskRow>, owner: string): Option<Task> {
    if task.Some? && task.value.owner == owner then Some(task.value.task) else None
  }

  datatype SaveOutcome =
    | ReplayAccepted  // identical terminal snapshot, nothing written
    | Saved           // task row written, with the head of the pending events when there is one
    | OwnershipLost   // A2aTaskOwnershipLostError
    | InvalidInput    // ValueError, transaction rolled back

  predicate EventAccepted(own: Ownership, event: PendingEvent, maxPayloadBytes: int) {
    ValidEvent(own, event.eventType, event.payload, maxPayloadBytes)
    && ResolveTenantId(None, own.scopeKey).Value?
  }

  function AppendedLog(log: seq<EventRow>, own: Ownership, event: PendingEvent): seq<EventRow> {
    log + [NextRow(log, TenantOf(own.scopeKey), own, event.eventType, event.payload)]
  }

  function SaveOutcomeOf(v: View, bound: Option<Ownership>, replay: Option<Task>, pending: seq<PendingEvent>,
                         me: string, now: int, owner: string, task: Task, maxPayloadBytes: int): SaveOutcome
  {
    if replay.Some? then
      if replay.value.id == task.id && ReadTask(v.task, owner) == replay then ReplayAccepted else OwnershipLost
    else if bound.None? || bound.value.taskId != task.id then OwnershipLost
    else if !ValidOwnership(bound.value) then InvalidInput
    else if !HoldsLease(v.row, bound.value, me, now) then OwnershipLost
    else if pending != [] && !EventAccepted(bound.value, pending[0], maxPayloadBytes) then InvalidInput
    else Saved
  }

  /** The database after a successful fenced save. */
  function SavedView(v: View, own: Ownership, pending: seq<PendingEvent>, owner: string, task: Task): View {
    v.(task := Some(TaskRow(owner, task)),
       log := if pending == [] then v.log else AppendedLog(v.log, own, pending[0]))
  }

  /** The event table after the operation inside the fenced transaction. */
  function RowsAfter(rows: seq<EventRow>, own: Ownership, event: Option<PendingEvent>): seq<EventRow> {
    if event.None? then rows
    else
      var log := LogOf(rows, TenantOf(own.scopeKey), own.taskId);
      rows + [NextRow(log, TenantOf(own.scopeKey), own, event.value.eventType, event.value.payload)]
  }

  lemma RowsAfterByLog(rows: seq<EventRow>, own: Ownership, event: Option<PendingEvent>)
    ensures var log := LogOf(rows, TenantOf(own.scopeKey), own.taskId);
      LogOf(RowsAfter(rows, own, event), TenantOf(own.scopeKey), own.taskId)
      == if event.None? then log else AppendedLog(log, own, event.value)
    ensures forall tenantId, other :: other != own.taskId ==>
      LogOf(RowsAfter(rows, own, event), tenantId, other) == LogOf(rows, tenantId, other)
  {
    if event.Some? {
      assert RowsAfter(rows, own, event)[..|rows|] == rows;
    }
  }

  /** The event, if there is one, became one numbered row under the snapshot's fence. */
  ghost predicate EventAppended(rows: seq<EventRow>, rows': seq<EventRow>, own: Ownership,
                                event: Option<PendingEvent>) {
    if event.None? then rows' == rows
    else exists number ::
      && IsNextNumber(number, rows, TenantOf(own.scopeKey), own.taskId)
      && rows' == rows + [EventRow(TenantOf(own.scopeKey), own.taskId, own.fence, number,
                                   event.value.eventType, event.value.payload)]
  }

  class TaskTable {
    var rows: map<string, TaskRow>

    constructor ()
      ensures rows == map[]
    {
      rows := map[];
    }

    function RowOf(taskId: string): Option<TaskRow>
      reads this
    {
      if taskId in rows then Some(rows[taskId]) else None
    }
  }

  /** The mutable state one protocol call shares with the SDK's background consumer. */
  class CallContext {
    const owner: string
    var ownership: Option<Ownership>
    var replay: Option<Task>
    var pending: seq<PendingEvent>
    ghost var bound: seq<PendingEvent>    // every event ever queued
    ghost var durable: seq<PendingEvent>  // every event a save made durable

    /** Exactly once: what became durable followed by what still waits is what was queued. */
    ghost predicate Conserved()
      reads this
    {
      durable + pending == bound
    }

    constructor (owner: string)
      ensures this.owner == owner && ownership.None? && replay.None? && pending == []
      ensures bound == [] && durable == [] && Conserved()
    {
      this.owner := owner;
      ownership, replay, pending := None, None, [];
      bound, durable := [], [];
    }

    method BindTaskOwnership(own: Ownership)
      modifies this`ownership
      ensures ownership == Some(own)
    {
      ownership := Some(own);
    }

    method BindTaskReplay(task: Task)
      modifies this`replay
      ensures replay == Some(task)
    {
      replay := Some(task);
    }

    method BindTaskEvent(event: PendingEvent)
      requires Conserved()
      modifies this`pending, this`bound
      ensures pending == old(pending) + [event] && bound == old(bound) + [event]
      ensures Conserved()
    {
      pending := pending + [event];
      bound := bound + [event];
      assert durable + pending == old(durable + pending) + [event];
    }

    method PeekTaskEvent() returns (event: Option<PendingEvent>)
      ensures event == if pending == [] then None else Some(pending[0])
    {
      event := if pending == [] then None else Some(pending[0]);
    }

    /** Fails when the head of the queue is no longer the event that was saved. */
    method ConsumeTaskEvent(event: PendingEvent) returns (ok: bool)
      modifies this`pending
      ensures ok <==> old(pending) != [] && old(pending)[0] == event
      ensures pending == if ok then old(pending)[1..] else old(pending)
    {
      ok := pending != [] && pending[0] == event;
      if ok {
        pending := pending[1..];
      }
    }
  }

  class FencedDatabaseTaskStore {
    const tasks: TaskTable
    const ownershipStore: A2aTaskOwnershipStore
    const eventStore: A2aTaskEventStore

    constructor (tasks: TaskTable, ownershipStore: A2aTaskOwnershipStore, eventStore: A2aTaskEventStore)
      ensures this.tasks == tasks && this.ownershipStore == ownershipStore && this.eventStore == eventStore
    {
      this.tasks := tasks;
      this.ownershipStore := ownershipStore;
      this.eventStore := eventStore;
    }

    ghost function ViewOf(taskId: string, scopeKey: string): View
      reads tasks, ownershipStore.table, eventStore.table
    {
      View(ownershipStore.table.RowOf(taskId), tasks.RowOf(taskId),
           LogOf(eventStore.table.rows, TenantOf(scopeKey), taskId))
    }

    /** The scope whose tenant column the save writes to. */
    static ghost function ScopeOf(ctx: CallContext): string
      reads ctx
    {
      if ctx.ownership.Some? then ctx.ownership.value.scopeKey else ctx.owner
    }

    method Get(taskId: string, owner: string) returns (task: Option<Task>)
      ensures task == ReadTask(tasks.RowOf(taskId), owner)
    {
      if taskId in tasks.rows && tasks.rows[taskId].owner == owner {
        return Some(tasks.rows[taskId].task);
      }
      return None;
    }

    /** What runs inside the fenced transaction; on false the transaction is rolled back. */
    method Operation(own: Ownership, owner: string, task: Task, event: Option<PendingEvent>) returns (ok: bool)
      modifies tasks, eventStore.table
      ensures ok <==> event.None? || EventAccepted(own, event.value, eventStore.maxPayloadBytes)
      ensures !ok ==> tasks.rows == old(tasks.rows) && eventStore.table.rows == old(eventStore.table.rows)
      ensures ok ==> tasks.rows == old(tasks.rows)[task.id := TaskRow(owner, task)]
      ensures ok ==> eventStore.table.rows == RowsAfter(old(eventStore.table.rows), own, event)
      ensures ok ==>
        EventAppended(old(eventStore.table.rows), eventStore.table.rows, own, event)
      ensures old(AllNumbered(eventStore.table.rows)) ==> AllNumbered(eventStore.table.rows)
    {
      var before := tasks.rows;
      tasks.rows := tasks.rows[task.id := TaskRow(owner, task)];
      if event.Some? {
        var sequence := eventStore.AppendOnConnection(own, event.value.eventType, event.value.payload, None);
        if sequence.ValueError? {
          tasks.rows := before;  // the rollback
          return false;
        }
      }
      return true;
    }

    method Save(task: Task, ctx: CallContext, now: int) returns (outcome: SaveOutcome)
      requires ctx.Conserved()
      modifies tasks, eventStore.table, ctx`pending, ctx`durable
      // the outcome, decided on the state the transaction found
      ensures outcome == old(SaveOutcomeOf(ViewOf(task.id, ScopeOf(ctx)), ctx.ownership, ctx.replay, ctx.pending,
                                           ownershipStore.ownerId, now, ctx.owner, task, eventStore.maxPayloadBytes))
      // a replay writes nothing and passes only while the database holds exactly the replayed task
      ensures old(ctx.replay).Some? ==>
        && (outcome.ReplayAccepted? || outcome.OwnershipLost?)
        && (outcome.ReplayAccepted? <==>
              && ctx.replay.value.id == task.id && task.id in old(tasks.rows)
              && old(tasks.rows)[task.id] == TaskRow(ctx.owner, ctx.replay.value))
      // a write passes only under the bound snapshot's live lease, with its head event acceptable
      ensures old(ctx.replay).None? ==>
        var (own, rows) := (ctx.ownership, ownershipStore.table.rows);
        && (outcome.Saved? <==>
              && own.Some? && own.value.taskId == task.id && ValidOwnership(own.value)
              && LiveFor(rows, own.value, ownershipStore.ownerId, now)
              && (old(ctx.pending) == [] || EventAccepted(own.value, old(ctx.pending)[0], eventStore.maxPayloadBytes)))
        && (outcome.OwnershipLost? <==>
              || own.None? || own.value.taskId != task.id
              || (ValidOwnership(own.value) && !LiveFor(rows, own.value, ownershipStore.ownerId, now)))
      ensures outcome.Saved? ==> tasks.rows == old(tasks.rows)[task.id := TaskRow(ctx.owner, task)]
      ensures outcome.Saved? ==>
        EventAppended(old(eventStore.table.rows), eventStore.table.rows, ctx.ownership.value,
                      if old(ctx.pending) == [] then None else Some(old(ctx.pending)[0]))
      // a refused save changes nothing, in particular it consumes no event
      ensures !outcome.Saved? ==>
        && tasks.rows == old(tasks.rows) && eventStore.table.rows == old(eventStore.table.rows)
        && ctx.pending == old(ctx.pending) && ctx.durable == old(ctx.durable)
      // a successful save writes this task and one event, and nothing of any other task
      ensures outcome.Saved? ==>
        && ViewOf(task.id, ScopeOf(ctx))
           == old(SavedView(ViewOf(task.id, ScopeOf(ctx)), ctx.ownership.value, ctx.pending, ctx.owner, task))
        && ctx.pending == (if old(ctx.pending) == [] then [] else old(ctx.pending)[1..])
      ensures forall other :: other != task.id ==> tasks.RowOf(other) == old(tasks.RowOf(other))
      ensures forall tenantId, other :: other != task.id ==>
        LogOf(eventStore.table.rows, tenantId, other) == old(LogOf(eventStore.table.rows, tenantId, other))
      ensures old(AllNumbered(eventStore.table.rows)) ==> AllNumbered(eventStore.table.rows)
      ensures ctx.Conserved()
    {
      hide AllNumbered, LogOf, HoldsLease, ValidOwnership, RowsAfter, EventAccepted, AppendedLog, EventAppended,
        LiveFor;
      if ctx.replay.Some? {
        if ctx.replay.value.id != task.id {
          return OwnershipLost;
        }
        var current := Get(task.id, ctx.owner);
        if current.None? || current != ctx.replay {
          return OwnershipLost;
        }
        return ReplayAccepted;
      }
      if ctx.ownership.None? || ctx.ownership.value.taskId != task.id {
        return OwnershipLost;
      }
      var own := ctx.ownership.value;
      var pendingEvent := ctx.PeekTaskEvent();
      var owned := ownershipStore.CheckOwned(own, now);
      if owned.ValueError? {
        return InvalidInput;
      }
      if !owned.value {
        return OwnershipLost;
      }
      RowsAfterByLog(eventStore.table.rows, own, pendingEvent);
      var written := Operation(own, ctx.owner, task, pendingEvent);
      if !written {
        return InvalidInput;
      }
      if pendingEvent.Some? {
        ghost var pending := ctx.pending;
        var consumed := ctx.ConsumeTaskEvent(pendingEvent.value);
        ctx.durable := ctx.durable + [pendingEvent.value];
        assert ctx.durable + ctx.pending == old(ctx.durable) + pending;
      }
      return Saved;
    }
  }
}
