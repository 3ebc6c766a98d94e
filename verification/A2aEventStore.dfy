/**
  The append-only table of protocol events: sequence allocation, cursor pages
  and the tenant part of an ownership scope.
*/
module A2aEventStore {
  import opened Prelude
  import opened Strings
  import opened A2aOwnership

  const MAX_EVENT_TYPE_LENGTH := 64
  const MAX_EVENT_PAYLOAD_BYTES := 1024 * 1024

  datatype EventRow = EventRow(
    tenantId: string,
    taskId: string,
    fencingEpoch: int,
    sequence: int,
    eventType: string,
    payload: seq<byte>)

  // ---------------------------------------------------------------------------
  // Tenant scope
  // ---------------------------------------------------------------------------

  const TENANT_PREFIX := "tenant:"
  const SUBJECT_MARK := ":subject:"

  /** The part of `s` before the first `mark`, or all of `s` when there is none. */
  function Before(s: string, mark: string): string
    decreases |s|
  {
    if s == [] || StartsWith(s, mark) then []
    else [s[0]] + Before(s[1..], mark)
  }

  function ResolveTenantId(tenantId: Option<string>, scopeKey: string): Checked<string> {
    if tenantId.Some? then
      if ValidText(tenantId.value) then Value(tenantId.value) else ValueError
    else if !ValidText(scopeKey) then ValueError
    else if StartsWith(scopeKey, TENANT_PREFIX) && Before(scopeKey[|TENANT_PREFIX|..], SUBJECT_MARK) != [] then
      var tenant := Before(scopeKey[|TENANT_PREFIX|..], SUBJECT_MARK);
      if ValidText(tenant) then Value(tenant) else ValueError
    else Value(scopeKey)
  }

  /** The tenant column of the events of one scope. */
  function TenantOf(scopeKey: string): string {
    match ResolveTenantId(None, scopeKey)
    case Value(tenant) => tenant
    case ValueError => scopeKey
  }

  /** The mark begins somewhere before position `n`. */
  predicate MarkedBefore(s: string, n: nat)
    requires n <= |s|
  {
    exists i :: 0 <= i < n && StartsWith(s[i..], SUBJECT_MARK)
  }

  /** `Before` stops at the first mark. */
  lemma {:induction false} BeforeStopsAtFirst(tenant: string, rest: string)
    requires StartsWith(rest, SUBJECT_MARK)
    ensures |Before(tenant + rest, SUBJECT_MARK)| <= |tenant|
    ensures Before(tenant + rest, SUBJECT_MARK) == tenant <==> !MarkedBefore(tenant + rest, |tenant|)
  {
    var s := tenant + rest;
    assert s[0..] == s;
    if tenant == [] {
      assert s == rest;
    } else if StartsWith(s, SUBJECT_MARK) {
      assert StartsWith(s[0..], SUBJECT_MARK);
    } else {
      assert s[1..] == tenant[1..] + rest;
      BeforeStopsAtFirst(tenant[1..], rest);
      assert tenant == [tenant[0]] + tenant[1..];
      LaterMarks(s, |tenant|);
    }
  }

  lemma LaterMarks(s: string, n: nat)
    requires 0 < n <= |s| && !StartsWith(s, SUBJECT_MARK)
    ensures MarkedBefore(s, n) <==> MarkedBefore(s[1..], n - 1)
  {
    assert s[0..] == s;
    if i :| 0 <= i < n && StartsWith(s[i..], SUBJECT_MARK) {
      assert s[1..][i - 1..] == s[i..];
    }
    if i :| 0 <= i < n - 1 && StartsWith(s[1..][i..], SUBJECT_MARK) {
      assert s[1..][i..] == s[i + 1..];
    }
  }

  /** Whether a mark begins inside the tenant depends on nothing behind the mark that follows it. */
  lemma SubjectDoesNotMatter(tenant: string, subject: string)
    ensures MarkedBefore(tenant + SUBJECT_MARK + subject, |tenant|) <==> MarkedBefore(tenant + SUBJECT_MARK, |tenant|)
  {
    var (s, t) := (tenant + SUBJECT_MARK + subject, tenant + SUBJECT_MARK);
    assert s[..|t|] == t;
    forall i | 0 <= i < |tenant| ensures StartsWith(s[i..], SUBJECT_MARK) <==> StartsWith(t[i..], SUBJECT_MARK) {
      assert s[i..][..|SUBJECT_MARK|] == t[i..][..|SUBJECT_MARK|];
    }
  }

  /**
    A scope built from a tenant and a subject resolves to that tenant, whatever the subject is, if
    and only if `:subject:` does not begin earlier in the tenant followed by `:subject:`.
  */
  lemma ScopeResolvesToItsTenantIff(tenant: string, subject: string)
    requires tenant != [] && ValidText(TENANT_PREFIX + tenant + SUBJECT_MARK + subject)
    ensures ResolveTenantId(None, TENANT_PREFIX + tenant + SUBJECT_MARK + subject) == Value(tenant)
      <==> !MarkedBefore(tenant + SUBJECT_MARK, |tenant|)
  {
    var scope := TENANT_PREFIX + tenant + SUBJECT_MARK + subject;
    var rest := SUBJECT_MARK + subject;
    assert scope == TENANT_PREFIX + (tenant + rest);
    assert scope[..|TENANT_PREFIX|] == TENANT_PREFIX;
    assert scope[|TENANT_PREFIX|..] == tenant + rest;
    assert rest[..|SUBJECT_MARK|] == SUBJECT_MARK;
    assert tenant + rest == tenant + SUBJECT_MARK + subject;
    BeforeStopsAtFirst(tenant, rest);
    SubjectDoesNotMatter(tenant, subject);
    hide Before, MarkedBefore;
    assert |scope| > |tenant|;
  }

  /** A tenant without ':' always does. */
  lemma ColonFreeTenantIsUnmarked(tenant: string)
    requires ':' !in tenant
    ensures !MarkedBefore(tenant + SUBJECT_MARK, |tenant|)
  {
    var s := tenant + SUBJECT_MARK;
    forall i | 0 <= i < |tenant| ensures !StartsWith(s[i..], SUBJECT_MARK) {
      assert s[i..][0] == tenant[i] && tenant[i] in tenant;
      if StartsWith(s[i..], SUBJECT_MARK) {
        MarkBeginsWithColon(s[i..]);
      }
    }
  }

  lemma MarkBeginsWithColon(s: string)
    requires StartsWith(s, SUBJECT_MARK)
    ensures s != [] && s[0] == ':'
  {
    assert s[..|SUBJECT_MARK|][0] == s[0];
  }

  /** A tenant given with the call is taken if it is valid; a scope that names no tenant is its own. */
  lemma TenantIsGivenOrScope(tenantId: string, scopeKey: string)
    ensures ResolveTenantId(Some(tenantId), scopeKey)
      == if 1 <= |tenantId| <= 255 then Value(tenantId) else ValueError
    ensures !StartsWith(scopeKey, "tenant:") ==>
      ResolveTenantId(None, scopeKey) == if 1 <= |scopeKey| <= 255 then Value(scopeKey) else ValueError
  {
  }

  // ---------------------------------------------------------------------------
  // One task's log inside the shared table
  // ---------------------------------------------------------------------------

  /** The rows of one (tenant, task) in insertion order. */
  function LogOf(rows: seq<EventRow>, tenantId: string, taskId: string): seq<EventRow> {
    if rows == [] then []
    else
      var last := rows[|rows| - 1];
      LogOf(rows[..|rows| - 1], tenantId, taskId)
      + (if last.tenantId == tenantId && last.taskId == taskId then [last] else [])
  }

  /** SQL's `coalesce(max(sequence), 0)` over one log. */
  function MaxSequence(log: seq<EventRow>): int {
    if log == [] then 0
    else if |log| == 1 then log[0].sequence
    else Max(MaxSequence(log[..|log| - 1]), log[|log| - 1].sequence)
  }

  function NextRow(log: seq<EventRow>, tenantId: string, own: Ownership, eventType: string, payload: seq<byte>)
    : EventRow
  {
    EventRow(tenantId, own.taskId, own.fence, MaxSequence(log) + 1, eventType, payload)
  }

  /** Sequences run 1, 2, 3, ... in insertion order. */
  ghost predicate Numbered(log: seq<EventRow>) {
    forall i :: 0 <= i < |log| ==> log[i].sequence == i + 1
  }

  lemma {:induction false} NumberedMaximum(log: seq<EventRow>)
    requires Numbered(log)
    ensures MaxSequence(log) == |log|
  {
    if |log| > 1 {
      NumberedMaximum(log[..|log| - 1]);
    }
  }

  /** Every log of the table is numbered, whatever tenant and task it belongs to. */
  ghost predicate AllNumbered(rows: seq<EventRow>) {
    forall tenantId, taskId :: Numbered(LogOf(rows, tenantId, taskId))
  }

  lemma AppendKeepsNumbering(rows: seq<EventRow>, tenantId: string, own: Ownership, eventType: string,
                             payload: seq<byte>)
    requires AllNumbered(rows)
    ensures AllNumbered(rows + [NextRow(LogOf(rows, tenantId, own.taskId), tenantId, own, eventType, payload)])
  {
    var row := NextRow(LogOf(rows, tenantId, own.taskId), tenantId, own, eventType, payload);
    forall t, k ensures Numbered(LogOf(rows + [row], t, k)) {
      assert (rows + [row])[..|rows|] == rows;
      assert Numbered(LogOf(rows, t, k));
      NumberedMaximum(LogOf(rows, t, k));
    }
  }

  // ---------------------------------------------------------------------------
  // Cursor pages
  // ---------------------------------------------------------------------------

  /** The row with the lowest sequence beyond the cursor. */
  function Lowest(log: seq<EventRow>, after: int): Option<EventRow> {
    if log == [] then None
    else
      var last := log[|log| - 1];
      match Lowest(log[..|log| - 1], after)
      case None => if last.sequence > after then Some(last) else None
      case Some(found) => if after < last.sequence < found.sequence then Some(last) else Some(found)
  }

  /** WHERE sequence > after ORDER BY sequence LIMIT limit, for distinct sequences. */
  function Page(log: seq<EventRow>, after: int, limit: nat): seq<EventRow>
    decreases limit
  {
    if limit == 0 then []
    else
      match Lowest(log, after)
      case None => []
      case Some(row) => [row] + Page(log, row.sequence, limit - 1)
  }

  lemma {:induction false} LowestOfNumbered(log: seq<EventRow>, after: nat)
    requires Numbered(log)
    ensures Lowest(log, after) == if after < |log| then Some(log[after]) else None
  {
    if log != [] {
      LowestOfNumbered(log[..|log| - 1], after);
    }
  }

  lemma TakeStep(log: seq<EventRow>, after: nat, limit: nat)
    requires limit > 0 && after < |log|
    ensures Drop(log, after)[..Min(limit, |Drop(log, after)|)]
         == [log[after]] + Drop(log, after + 1)[..Min(limit - 1, |Drop(log, after + 1)|)]
  {
    var rest := Drop(log, after + 1);
    assert Drop(log, after) == [log[after]] + rest;
    var m := Min(limit - 1, |rest|);
    assert ([log[after]] + rest)[..m + 1] == [log[after]] + rest[..m];
  }

  /** On a numbered log a page is the slice after the cursor: no gap, no repetition, in order. */
  lemma {:induction false} PageIsSlice(log: seq<EventRow>, after: nat, limit: nat)
    requires Numbered(log)
    ensures Page(log, after, limit) == Drop(log, after)[..Min(limit, |Drop(log, after)|)]
    decreases limit
  {
    LowestOfNumbered(log, after);
    if limit > 0 && after < |log| {
      PageIsSlice(log, after + 1, limit - 1);
      TakeStep(log, after, limit);
      hide Lowest, Numbered;
    }
  }

  // ---------------------------------------------------------------------------
  // What a page means for the shared table
  // ---------------------------------------------------------------------------

  /** Rows are told apart by tenant and task, both of them. */
  predicate BelongsTo(row: EventRow, tenantId: string, taskId: string) {
    row.tenantId == tenantId && row.taskId == taskId
  }

  lemma {:induction false} LogHoldsItsRows(rows: seq<EventRow>, tenantId: string, taskId: string, row: EventRow)
    ensures multiset(LogOf(rows, tenantId, taskId))[row]
         == if BelongsTo(row, tenantId, taskId) then multiset(rows)[row] else 0
  {
    if rows != [] {
      LogHoldsItsRows(rows[..|rows| - 1], tenantId, taskId, row);
      InitAndLast(rows);
    }
  }

  lemma LogMembers(rows: seq<EventRow>, tenantId: string, taskId: string)
    ensures forall row :: row in LogOf(rows, tenantId, taskId) <==> row in rows && BelongsTo(row, tenantId, taskId)
  {
    forall row ensures row in LogOf(rows, tenantId, taskId) <==> row in rows && BelongsTo(row, tenantId, taskId) {
      LogHoldsItsRows(rows, tenantId, taskId, row);
      assert row in LogOf(rows, tenantId, taskId) <==> row in multiset(LogOf(rows, tenantId, taskId));
      assert row in rows <==> row in multiset(rows);
    }
  }

  /**
    The page a caller may see: rows of the table with exactly the asked tenant and task, beyond
    the cursor, in ascending order, and every such row unless the page is full and it comes later.
  */
  ghost predicate IsPageOf(page: seq<EventRow>, rows: seq<EventRow>, tenantId: string, taskId: string, after: int,
                           limit: int)
  {
    && |page| <= limit
    && (forall row :: row in page ==> row in rows && BelongsTo(row, tenantId, taskId) && after < row.sequence)
    && (forall i, j :: 0 <= i < j < |page| ==> page[i].sequence < page[j].sequence)
    && (forall row :: row in rows && BelongsTo(row, tenantId, taskId) && after < row.sequence ==>
          Shows(page, row.sequence) || (|page| == limit > 0 && page[limit - 1].sequence < row.sequence))
  }

  ghost predicate Shows(page: seq<EventRow>, sequence: int) {
    exists i :: 0 <= i < |page| && page[i].sequence == sequence
  }

  lemma {:induction false} LowestIsLowest(log: seq<EventRow>, after: int)
    ensures Lowest(log, after).None? ==> forall row :: row in log ==> row.sequence <= after
    ensures Lowest(log, after).Some? ==>
      && Lowest(log, after).value in log && after < Lowest(log, after).value.sequence
      && forall row :: row in log && after < row.sequence ==> Lowest(log, after).value.sequence <= row.sequence
  {
    if log != [] {
      LowestIsLowest(log[..|log| - 1], after);
      InitAndLast(log);
    }
  }

  lemma {:induction false} PageAscends(log: seq<EventRow>, after: int, limit: nat)
    ensures var page := Page(log, after, limit);
      && |page| <= limit
      && (forall row :: row in page ==> row in log && after < row.sequence)
      && (forall i, j :: 0 <= i < j < |page| ==> page[i].sequence < page[j].sequence)
    decreases limit
  {
    LowestIsLowest(log, after);
    if limit > 0 && Lowest(log, after).Some? {
      PageAscends(log, Lowest(log, after).value.sequence, limit - 1);
      hide Lowest;
    }
  }

  /** A row beyond the cursor is on the page, or the page is full and ends before it. */
  lemma {:induction false} PageIsComplete(log: seq<EventRow>, after: int, limit: nat, row: EventRow)
    requires row in log && after < row.sequence
    ensures var page := Page(log, after, limit);
      |page| <= limit
      && (Shows(page, row.sequence) || (|page| == limit && (limit > 0 ==> page[limit - 1].sequence < row.sequence)))
    decreases limit
  {
    LowestIsLowest(log, after);
    PageAscends(log, after, limit);
    if limit > 0 {
      var lowest := Lowest(log, after).value;
      var page, rest := Page(log, after, limit), Page(log, lowest.sequence, limit - 1);
      assert page == [lowest] + rest;
      hide Page, Lowest;
      if lowest.sequence < row.sequence {
        PageIsComplete(log, lowest.sequence, limit - 1, row);
        if i :| 0 <= i < |rest| && rest[i].sequence == row.sequence {
          assert page[i + 1].sequence == row.sequence;
        }
      } else {
        assert page[0].sequence == row.sequence;
      }
    }
  }

  /** What a read of one tenant and task returns. */
  function Read(rows: seq<EventRow>, tenantId: string, taskId: string, after: int, limit: nat): seq<EventRow> {
    Page(LogOf(rows, tenantId, taskId), after, limit)
  }

  lemma ReadIsPage(rows: seq<EventRow>, tenantId: string, taskId: string, after: int, limit: nat)
    requires limit > 0
    ensures IsPageOf(Read(rows, tenantId, taskId, after, limit), rows, tenantId, taskId, after, limit)
  {
    var log := LogOf(rows, tenantId, taskId);
    LogMembers(rows, tenantId, taskId);
    PageAscends(log, after, limit);
    var page := Page(log, after, limit);
    hide LogOf, Page, BelongsTo, Shows;
    forall row | row in rows && BelongsTo(row, tenantId, taskId) && after < row.sequence
      ensures Shows(page, row.sequence) || (|page| == limit > 0 && page[limit - 1].sequence < row.sequence)
    {
      PageIsComplete(log, after, limit, row);
    }
  }

  /** No page of another task, or of another tenant's task of the same name, changes. */
  ghost predicate OnlyReadersOf(tenantId: string, taskId: string, rows: seq<EventRow>, rows': seq<EventRow>) {
    forall t, k, after, limit: nat :: t != tenantId || k != taskId ==>
      Read(rows', t, k, after, limit) == Read(rows, t, k, after, limit)
  }

  lemma AppendShowsToItsReaders(rows: seq<EventRow>, row: EventRow)
    ensures OnlyReadersOf(row.tenantId, row.taskId, rows, rows + [row])
  {
    assert (rows + [row])[..|rows|] == rows;
    forall t, k, after, limit: nat | t != row.tenantId || k != row.taskId
      ensures Read(rows + [row], t, k, after, limit) == Read(rows, t, k, after, limit)
    {
      assert LogOf(rows + [row], t, k) == LogOf(rows, t, k);
      hide Page;
    }
  }

  /** One more than the highest number the tenant's task has, or the first. */
  ghost predicate IsNextNumber(number: int, rows: seq<EventRow>, tenantId: string, taskId: string) {
    if exists row :: row in rows && BelongsTo(row, tenantId, taskId) then
      && (forall row :: row in rows && BelongsTo(row, tenantId, taskId) ==> row.sequence < number)
      && (exists row :: row in rows && BelongsTo(row, tenantId, taskId) && row.sequence == number - 1)
    else
      number == 1
  }

  lemma {:induction false} MaximumIsReached(log: seq<EventRow>)
    requires log != []
    ensures forall row :: row in log ==> row.sequence <= MaxSequence(log)
    ensures exists row :: row in log && row.sequence == MaxSequence(log)
  {
    var init, last := log[..|log| - 1], log[|log| - 1];
    InitAndLast(log);
    if init != [] {
      MaximumIsReached(init);
      var top :| top in init && top.sequence == MaxSequence(init);
      assert top in log && last in log;
    } else {
      assert last in log;
    }
  }

  lemma NextNumberIs(rows: seq<EventRow>, tenantId: string, taskId: string)
    ensures IsNextNumber(MaxSequence(LogOf(rows, tenantId, taskId)) + 1, rows, tenantId, taskId)
  {
    var log := LogOf(rows, tenantId, taskId);
    LogMembers(rows, tenantId, taskId);
    hide LogOf, BelongsTo;
    if log != [] {
      MaximumIsReached(log);
      hide MaxSequence;
      assert log[0] in log;
    }
  }

  // ---------------------------------------------------------------------------
  // The store
  // ---------------------------------------------------------------------------

  class EventTable {
    var rows: seq<EventRow>

    constructor ()
      ensures rows == []
    {
      rows := [];
    }
  }

  predicate NameStart(c: char) {
    'a' <= c <= 'z' || 'A' <= c <= 'Z' || c == '_'
  }

  predicate NameChar(c: char) {
    NameStart(c) || '0' <= c <= '9' || c == '.' || c == '-'
  }

  predicate ValidEventType(eventType: string) {
    0 < |eventType| <= MAX_EVENT_TYPE_LENGTH && NameStart(eventType[0])
    && forall i :: 1 <= i < |eventType| ==> NameChar(eventType[i])
  }

  predicate ValidEvent(own: Ownership, eventType: string, payload: seq<byte>, maxPayloadBytes: int) {
    ValidEventType(eventType) && 0 < |payload| <= maxPayloadBytes && ValidText(own.taskId)
  }

  /** Event types are names of at most 64 characters that begin with a letter or an underscore. */
  lemma EventTypesAre(eventType: string)
    ensures forall c :: c in "azAZ_" ==> NameStart(c) && NameChar(c)
    ensures forall c :: c in "09.-" ==> !NameStart(c) && NameChar(c)
    ensures forall c :: c in "`{@[/:, " ==> !NameChar(c)
    ensures ValidEventType(eventType) <==>
      && eventType != "" && |eventType| < 65
      && NameStart(eventType[0]) && forall c :: c in eventType ==> NameChar(c)
  {
    assert forall i :: 0 <= i < |eventType| ==> eventType[i] in eventType;
  }

  /** An event is accepted with any payload from one byte up to the limit. */
  lemma PayloadsAre(own: Ownership, eventType: string, payload: seq<byte>, maxPayloadBytes: int)
    requires ValidEventType(eventType) && 1 <= |own.taskId| <= 255
    ensures ValidEvent(own, eventType, payload, maxPayloadBytes) <==> payload != [] && !(|payload| > maxPayloadBytes)
  {
  }

  class A2aTaskEventStore {
    const table: EventTable
    const maxPayloadBytes: int

    constructor (table: EventTable, maxPayloadBytes: int)
      requires maxPayloadBytes >= 1
      ensures this.table == table && this.maxPayloadBytes == maxPayloadBytes
    {
      this.table := table;
      this.maxPayloadBytes := maxPayloadBytes;
    }

    /** Runs inside an already fenced transaction; an error leaves the table alone. */
    method AppendOnConnection(own: Ownership, eventType: string, payload: seq<byte>, tenantId: Option<string>)
      returns (r: Checked<int>)
      modifies table
      ensures r.ValueError? <==>
        !ValidEvent(own, eventType, payload, maxPayloadBytes) || ResolveTenantId(tenantId, own.scopeKey).ValueError?
      ensures r.ValueError? ==> table.rows == old(table.rows)
      ensures r.Value? ==>
        var tenant := ResolveTenantId(tenantId, own.scopeKey).value;
        var log := LogOf(old(table.rows), tenant, own.taskId);
        && table.rows == old(table.rows) + [NextRow(log, tenant, own, eventType, payload)]
        && r.value == MaxSequence(log) + 1
      // on the table itself: one row, the next number of this tenant's task, and no other reader sees it
      ensures r.Value? ==>
        var tenant := ResolveTenantId(tenantId, own.scopeKey).value;
        && table.rows == old(table.rows) + [EventRow(tenant, own.taskId, own.fence, r.value, eventType, payload)]
        && IsNextNumber(r.value, old(table.rows), tenant, own.taskId)
        && OnlyReadersOf(tenant, own.taskId, old(table.rows), table.rows)
      ensures old(AllNumbered(table.rows)) ==> AllNumbered(table.rows)
    {
      if !ValidEvent(own, eventType, payload, maxPayloadBytes) {
        return ValueError;
      }
      var tenant := ResolveTenantId(tenantId, own.scopeKey);
      if tenant.ValueError? {
        return ValueError;
      }
      var sequence := MaxSequence(LogOf(table.rows, tenant.value, own.taskId)) + 1;
      if AllNumbered(table.rows) {
        AppendKeepsNumbering(table.rows, tenant.value, own, eventType, payload);
      }
      NextNumberIs(table.rows, tenant.value, own.taskId);
      var row := EventRow(tenant.value, own.taskId, own.fence, sequence, eventType, payload);
      AppendShowsToItsReaders(table.rows, row);
      hide OnlyReadersOf, IsNextNumber;
      table.rows := table.rows + [row];
      return Value(sequence);
    }

    /** None means the fence was lost and no event was inserted. */
    method AppendIfOwned(own: Ownership, eventType: string, payload: seq<byte>, tenantId: Option<string>,
                         ownershipStore: A2aTaskOwnershipStore, now: int)
      returns (r: Checked<Option<int>>)
      modifies table
      ensures r.ValueError? <==>
        || !ValidEvent(own, eventType, payload, maxPayloadBytes)
        || ResolveTenantId(tenantId, own.scopeKey).ValueError?
        || !ValidOwnership(own)
      ensures r.Value? ==>
        (r.value.Some? <==>
          HoldsLease(ownershipStore.table.RowOf(own.taskId), own, ownershipStore.ownerId, now))
      ensures r.ValueError? || r.value.None? ==> table.rows == old(table.rows)
      ensures r.Value? && r.value.Some? ==>
        var tenant := ResolveTenantId(tenantId, own.scopeKey).value;
        var log := LogOf(old(table.rows), tenant, own.taskId);
        && table.rows == old(table.rows) + [NextRow(log, tenant, own, eventType, payload)]
        && r.value.value == MaxSequence(log) + 1
        && IsNextNumber(r.value.value, old(table.rows), tenant, own.taskId)
        && OnlyReadersOf(tenant, own.taskId, old(table.rows), table.rows)
      ensures old(AllNumbered(table.rows)) ==> AllNumbered(table.rows)
    {
      if !ValidEvent(own, eventType, payload, maxPayloadBytes) || ResolveTenantId(tenantId, own.scopeKey).ValueError? {
        return ValueError;
      }
      var owned := ownershipStore.CheckOwned(own, now);
      if owned.ValueError? {
        return ValueError;
      }
      if !owned.value {
        return Value(None);
      }
      var sequence := AppendOnConnection(own, eventType, payload, tenantId);
      return Value(Some(sequence.value));
    }

    method ReadAfter(tenantId: string, taskId: string, after: int, limit: int) returns (r: Checked<seq<EventRow>>)
      ensures r.ValueError? <==> !ValidText(tenantId) || !ValidText(taskId) || after < 0 || limit < 1
      ensures r.Value? ==> IsPageOf(r.value, table.rows, tenantId, taskId, after, limit)
      ensures r.Value? ==> r.value == Read(table.rows, tenantId, taskId, after, limit)
      ensures r.Value? && AllNumbered(table.rows) ==>
        var rest := Drop(LogOf(table.rows, tenantId, taskId), after);
        r.value == rest[..Min(limit, |rest|)]
    {
      if !ValidText(tenantId) || !ValidText(taskId) || after < 0 || limit < 1 {
        return ValueError;
      }
      var log := LogOf(table.rows, tenantId, taskId);
      if Numbered(log) {
        PageIsSlice(log, after, limit);
      }
      ReadIsPage(table.rows, tenantId, taskId, after, limit);
      hide IsPageOf;
      return Value(Page(log, after, limit));
    }
  }
}
