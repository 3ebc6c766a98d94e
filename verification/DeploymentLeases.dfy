/**
  Leases for mutating deployment operations: one abstract lease machine per
  (tenant, resource) key, and the in-memory and PostgreSQL stores that simulate it.

  Times are integers in microseconds. The in-memory store reads its process clock,
  the PostgreSQL store the database clock; both appear as the parameter `now`.
*/
module DeploymentLeases {
  import opened Prelude

  const MICROSECONDS := 1_000_000
  const MIN_LEASE_SECONDS := 5

  type Key = (string, string)

  datatype Lease = Lease(
    tenantId: Option<string>,
    resourceId: string,
    operationId: string,
    ownerId: string,
    fencingEpoch: int,
    attempt: int,
    leaseExpiresAt: int)
  {
    function Key(): Key {
      (Scope(tenantId), resourceId)
    }
  }

  /** A missing tenant and an empty one share the namespace "". */
  function Scope(tenantId: Option<string>): string {
    if tenantId.Some? then tenantId.value else ""
  }

  // ---------------------------------------------------------------------------
  // The abstract machine of one key
  // ---------------------------------------------------------------------------

  datatype Holder = Holder(operationId: string, ownerId: string, expiresAt: int)

  datatype Lock = Lock(epoch: int, attempt: int, holder: Option<Holder>)

  const Unused := Lock(0, 0, None)

  predicate HeldBy(lock: Lock, lease: Lease) {
    lock.holder.Some? && lock.holder.value.operationId == lease.operationId
    && lock.holder.value.ownerId == lease.ownerId && lock.epoch == lease.fencingEpoch
  }

  predicate Current(lock: Lock, lease: Lease, now: int) {
    HeldBy(lock, lease) && lock.holder.value.expiresAt > now
  }

  predicate Busy(lock: Lock, now: int) {
    lock.holder.Some? && lock.holder.value.expiresAt > now
  }

  function AfterAcquire(lock: Lock, operationId: string, ownerId: string, now: int, span: int): Lock {
    if Busy(lock, now) then lock
    else Lock(lock.epoch + 1, lock.attempt + 1, Some(Holder(operationId, ownerId, now + span)))
  }

  function AfterHeartbeat(lock: Lock, lease: Lease, now: int, span: int): Lock {
    if Current(lock, lease, now) then lock.(holder := Some(lock.holder.value.(expiresAt := now + span))) else lock
  }

  /** `testsExpiry` is the one point on which the two stores differ. */
  predicate MayRelease(lock: Lock, lease: Lease, now: int, testsExpiry: bool) {
    HeldBy(lock, lease) && (testsExpiry ==> lock.holder.value.expiresAt > now)
  }

  function AfterRelease(lock: Lock, lease: Lease, now: int, testsExpiry: bool): Lock {
    if MayRelease(lock, lease, now, testsExpiry) then lock.(holder := None) else lock
  }

  // ---------------------------------------------------------------------------
  // What a lease is worth
  // ---------------------------------------------------------------------------

  /** No tenant and the tenant with the empty name are one namespace. */
  predicate SameTenant(a: Option<string>, b: Option<string>) {
    a == b || (a.None? && b == Some("")) || (a == Some("") && b.None?)
  }

  /** Two leases are about one key exactly for one resource of one tenant. */
  lemma KeysSeparateTenants(a: Lease, b: Lease)
    ensures a.Key() == b.Key() <==> a.resourceId == b.resourceId && SameTenant(a.tenantId, b.tenantId)
  {
  }

  /** An acquire is refused exactly while a holder's expiry lies ahead, and then it changes nothing. */
  lemma AcquireIsRefusedIff(lock: Lock, operationId: string, ownerId: string, now: int, span: int)
    ensures AfterAcquire(lock, operationId, ownerId, now, span) == lock
      <==> lock.holder.Some? && now < lock.holder.value.expiresAt
  {
  }

  /** A claim is current for exactly `span`, and no lease issued before it is current any more. */
  lemma ClaimLasts(lock: Lock, operationId: string, ownerId: string, now: int, span: int, lease: Lease, t: int)
    requires !(lock.holder.Some? && now < lock.holder.value.expiresAt)
    requires lease.operationId == operationId && lease.ownerId == ownerId
    ensures var claimed := AfterAcquire(lock, operationId, ownerId, now, span);
      && (lease.fencingEpoch == lock.epoch + 1 ==> (Current(claimed, lease, t) <==> t < now + span))
      && (lease.fencingEpoch <= lock.epoch ==> !Current(claimed, lease, t))
  {
  }

  /** A heartbeat of a current lease makes it last `span` from now on; any other heartbeat changes nothing. */
  lemma HeartbeatExtends(lock: Lock, lease: Lease, now: int, span: int, t: int)
    ensures var beaten := AfterHeartbeat(lock, lease, now, span);
      && (Current(lock, lease, now) ==> (Current(beaten, lease, t) <==> t < now + span))
      && (!Current(lock, lease, now) ==> beaten == lock)
      && beaten.epoch == lock.epoch && beaten.attempt == lock.attempt
  {
  }

  /** A release by the holder frees the key at once; anybody else's changes nothing. */
  lemma ReleaseFrees(lock: Lock, lease: Lease, now: int, testsExpiry: bool, t: int)
    ensures var freed := AfterRelease(lock, lease, now, testsExpiry);
      && (Current(lock, lease, now) ==> !Busy(freed, t) && !Current(freed, lease, t))
      && (freed != lock ==> lock.holder.Some? && lock.epoch == lease.fencingEpoch)
      && (freed != lock ==> lock.holder.value.operationId == lease.operationId)
      && (freed != lock ==> lock.holder.value.ownerId == lease.ownerId)
      && freed.epoch == lock.epoch && freed.attempt == lock.attempt
  {
  }

  datatype Op =
    | Acquire(operationId: string, ownerId: string, now: int, span: int)
    | Heartbeat(lease: Lease, now: int, span: int)
    | Release(lease: Lease, now: int, testsExpiry: bool)

  function Apply(lock: Lock, op: Op): Lock {
    match op
    case Acquire(operationId, ownerId, now, span) => AfterAcquire(lock, operationId, ownerId, now, span)
    case Heartbeat(lease, now, span) => AfterHeartbeat(lock, lease, now, span)
    case Release(lease, now, testsExpiry) => AfterRelease(lock, lease, now, testsExpiry)
  }

  function ApplyAll(lock: Lock, ops: seq<Op>): Lock
    decreases |ops|
  {
    if ops == [] then lock else ApplyAll(Apply(lock, ops[0]), ops[1..])
  }

  lemma {:induction false} ApplyAllSplits(lock: Lock, first: seq<Op>, second: seq<Op>)
    ensures ApplyAll(lock, first + second) == ApplyAll(ApplyAll(lock, first), second)
    decreases |first|
  {
    if first == [] {
      assert first + second == second;
    } else {
      assert (first + second)[1..] == first[1..] + second;
      ApplyAllSplits(Apply(lock, first[0]), first[1..], second);
    }
  }

  /** Every acquire reads a clock before the expiry that the lock then records. */
  ghost predicate ReadBeforeExpiry(lock: Lock, ops: seq<Op>) {
    forall i :: 0 <= i < |ops| && ops[i].Acquire? ==>
      var holder := ApplyAll(lock, ops[..i]).holder;
      holder.Some? && ops[i].now < holder.value.expiresAt
  }

  /** Some operation releases the key. */
  ghost predicate SomeRelease(lock: Lock, ops: seq<Op>) {
    exists i :: 0 <= i < |ops| && ops[i].Release?
      && MayRelease(ApplyAll(lock, ops[..i]), ops[i].lease, ops[i].now, ops[i].testsExpiry)
  }

  /**
    A held key excludes everybody: until it is released it keeps its epoch and its holder's
    identity if and only if every acquire reads a clock before the expiry recorded at that time.
  */
  lemma {:induction false} LeaseExcludesIff(lock: Lock, ops: seq<Op>)
    requires lock.holder.Some? && !SomeRelease(lock, ops)
    ensures var after := ApplyAll(lock, ops);
      && after.holder.Some? && after.epoch >= lock.epoch
      && (after.epoch == lock.epoch <==> ReadBeforeExpiry(lock, ops))
      && (ReadBeforeExpiry(lock, ops) ==>
            && after.holder.value.operationId == lock.holder.value.operationId
            && after.holder.value.ownerId == lock.holder.value.ownerId)
    decreases |ops|
  {
    if ops != [] {
      var n := |ops| - 1;
      var init, last := ops[..n], ops[n];
      InitAndLast(ops);
      ApplyAllSplits(lock, init, [last]);
      assert ApplyAll(ApplyAll(lock, init), [last]) == Apply(ApplyAll(lock, init), last);
      forall i | 0 <= i < n ensures init[..i] == ops[..i] && init[i] == ops[i] {
      }
      LastReading(lock, ops);
      if SomeRelease(lock, init) {
        EarlierRelease(lock, ops, n);
      }
      LeaseExcludesIff(lock, init);
      assert !(last.Release? && MayRelease(ApplyAll(lock, ops[..n]), last.lease, last.now, last.testsExpiry));
    }
  }

  lemma EarlierRelease(lock: Lock, ops: seq<Op>, n: nat)
    requires n <= |ops| && SomeRelease(lock, ops[..n])
    ensures SomeRelease(lock, ops)
  {
    var init := ops[..n];
    var i :| 0 <= i < |init| && init[i].Release?
      && MayRelease(ApplyAll(lock, init[..i]), init[i].lease, init[i].now, init[i].testsExpiry);
    assert ops[i] == init[i] && init[..i] == ops[..i];
  }

  lemma LastReading(lock: Lock, ops: seq<Op>)
    requires ops != []
    ensures var n := |ops| - 1;
      ReadBeforeExpiry(lock, ops) <==>
        ReadBeforeExpiry(lock, ops[..n])
        && (ops[n].Acquire? ==>
              var holder := ApplyAll(lock, ops[..n]).holder; holder.Some? && ops[n].now < holder.value.expiresAt)
  {
    var n := |ops| - 1;
    forall i | 0 <= i < n ensures ops[..n][..i] == ops[..i] && ops[..n][i] == ops[i] {
    }
  }

  /** The clock never runs backwards, starting at `from`. */
  ghost predicate ClockRises(from: int, ops: seq<Op>) {
    && (forall i :: 0 <= i < |ops| ==> from <= ops[i].now)
    && (forall i, j :: 0 <= i <= j < |ops| ==> ops[i].now <= ops[j].now)
  }

  /**
    A lease that was issued and is not current at some time is current again at a later one only
    if it still held the key and a heartbeat read a clock before its expiry, whatever acquires,
    heartbeats and releases anyone tries in between, with whatever leases and clocks.
  */
  lemma {:induction false} LossIsPermanent(lock: Lock, lease: Lease, from: int, ops: seq<Op>, later: int)
    requires lease.fencingEpoch <= lock.epoch && !Current(lock, lease, from) && from <= later
    ensures Current(ApplyAll(lock, ops), lease, later) ==>
      HeldBy(lock, lease)
      && exists i :: 0 <= i < |ops| && ops[i].Heartbeat? && ops[i].now < lock.holder.value.expiresAt
    decreases |ops|
  {
    if ops != [] {
      var (next, rest) := (Apply(lock, ops[0]), ops[1..]);
      if Current(next, lease, from) {
        assert ops[0].Heartbeat?;
      } else {
        LossIsPermanent(next, lease, from, rest, later);
        if Current(ApplyAll(next, rest), lease, later) {
          var i :| 0 <= i < |rest| && rest[i].Heartbeat? && rest[i].now < next.holder.value.expiresAt;
          assert ops[i + 1] == rest[i];
        }
      }
    }
  }

  /** No heartbeat reads a clock before `bound`. */
  predicate BeatsFrom(bound: int, ops: seq<Op>) {
    forall i :: 0 <= i < |ops| && ops[i].Heartbeat? ==> bound <= ops[i].now
  }

  /**
    Loss is permanent exactly against clocks that do not fall behind the expiry: a lease lost at
    `from` stays lost whatever happens, as long as heartbeats read `bound` or later, if and only
    if it no longer held the key or `bound` is not before its expiry.
  */
  lemma LossIsPermanentIff(lock: Lock, lease: Lease, from: int, bound: int)
    requires lease.fencingEpoch <= lock.epoch && !Current(lock, lease, from)
    ensures (forall ops, later :: BeatsFrom(bound, ops) && from <= later ==>
             !Current(ApplyAll(lock, ops), lease, later))
      <==> !HeldBy(lock, lease) || lock.holder.value.expiresAt <= bound
  {
    if !HeldBy(lock, lease) || lock.holder.value.expiresAt <= bound {
      forall ops, later | BeatsFrom(bound, ops) && from <= later ensures !Current(ApplyAll(lock, ops), lease, later) {
        LossIsPermanent(lock, lease, from, ops, later);
      }
    } else {
      var beat := Heartbeat(lease, bound, from - bound + 1);
      assert BeatsFrom(bound, [beat]) && [beat][1..] == [];
      assert ApplyAll(lock, [beat]) == Apply(lock, beat);
      assert Current(ApplyAll(lock, [beat]), lease, from);
    }
  }

  /** Two leases current at one time are the same claim. */
  lemma AtMostOneCurrent(lock: Lock, a: Lease, b: Lease, now: int)
    requires Current(lock, a, now) && Current(lock, b, now)
    ensures a.operationId == b.operationId && a.ownerId == b.ownerId && a.fencingEpoch == b.fencingEpoch
  {
  }

  function Claims(lock: Lock, ops: seq<Op>): nat
    decreases |ops|
  {
    if ops == [] then 0
    else (if ops[0].Acquire? && !Busy(lock, ops[0].now) then 1 else 0) + Claims(Apply(lock, ops[0]), ops[1..])
  }

  /** Epoch and attempt count the successful acquires: both strictly increase, one per claim. */
  lemma {:induction false} EpochCountsClaims(lock: Lock, ops: seq<Op>)
    ensures ApplyAll(lock, ops).epoch == lock.epoch + Claims(lock, ops)
    ensures ApplyAll(lock, ops).attempt == lock.attempt + Claims(lock, ops)
    decreases |ops|
  {
    if ops != [] {
      EpochCountsClaims(Apply(lock, ops[0]), ops[1..]);
    }
  }

  /**
    A release that succeeds proves that nobody acquired the key since the lease was issued,
    whether or not the store tests expiry.
  */
  lemma {:induction false} ReleaseProvesExclusivity(lock: Lock, lease: Lease, ops: seq<Op>, now: int, testsExpiry: bool)
    requires lock.epoch == lease.fencingEpoch
    requires MayRelease(ApplyAll(lock, ops), lease, now, testsExpiry)
    ensures Claims(lock, ops) == 0
  {
    EpochCountsClaims(lock, ops);
  }

  // ---------------------------------------------------------------------------
  // One specification for both stores
  // ---------------------------------------------------------------------------

  /** The operation as one of the stores runs it. */
  function As(op: Op, testsExpiry: bool): Op {
    if op.Release? then op.(testsExpiry := testsExpiry) else op
  }

  /** What the caller is told: claimed, extended or released. */
  predicate Succeeds(lock: Lock, op: Op) {
    match op
    case Acquire(_, _, now, _) => !Busy(lock, now)
    case Heartbeat(lease, now, _) => Current(lock, lease, now)
    case Release(lease, now, testsExpiry) => MayRelease(lock, lease, now, testsExpiry)
  }

  function RunAs(lock: Lock, ops: seq<Op>, testsExpiry: bool): Lock
    decreases |ops|
  {
    if ops == [] then lock else RunAs(Apply(lock, As(ops[0], testsExpiry)), ops[1..], testsExpiry)
  }

  /** Nobody can tell the two locks apart from `t` on: the same holder, or one released and one expired. */
  predicate Indistinguishable(a: Lock, b: Lock, t: int) {
    && a.epoch == b.epoch && a.attempt == b.attempt
    && (a.holder == b.holder || (b.holder.None? && a.holder.Some? && a.holder.value.expiresAt <= t))
  }

  /** A release of an expired lease that nobody took. */
  predicate ExpiredRelease(lock: Lock, op: Op) {
    op.Release? && HeldBy(lock, op.lease) && lock.holder.value.expiresAt <= op.now
  }

  lemma OneOperationAgrees(a: Lock, b: Lock, op: Op, t: int)
    requires Indistinguishable(a, b, t) && t <= op.now
    ensures Indistinguishable(Apply(a, As(op, true)), Apply(b, As(op, false)), op.now)
    ensures Succeeds(a, As(op, true)) != Succeeds(b, As(op, false)) ==> ExpiredRelease(b, op)
    ensures ExpiredRelease(b, op) ==> !Succeeds(a, As(op, true)) && Succeeds(b, As(op, false))
  {
  }

  /**
    The two stores are one machine. Run the same operations against both, with a clock that never
    runs backwards: epochs and attempts stay equal, at every later time both are busy or neither
    is, and every lease is current in both or in neither.
  */
  lemma {:induction false} StoresAgree(a: Lock, b: Lock, ops: seq<Op>, from: int, later: int)
    requires Indistinguishable(a, b, from) && ClockRises(from, ops)
    requires from <= later && (ops != [] ==> ops[|ops| - 1].now <= later)
    ensures var (a', b') := (RunAs(a, ops, true), RunAs(b, ops, false));
      && Indistinguishable(a', b', later)
      && a'.epoch == b'.epoch && a'.attempt == b'.attempt && Busy(a', later) == Busy(b', later)
      && forall lease :: Current(a', lease, later) == Current(b', lease, later)
    decreases |ops|
  {
    if ops != [] {
      var rest := ops[1..];
      assert forall i :: 0 <= i < |rest| ==> rest[i] == ops[i + 1];
      OneOperationAgrees(a, b, ops[0], from);
      StoresAgree(Apply(a, As(ops[0], true)), Apply(b, As(ops[0], false)), rest, ops[0].now, later);
    }
  }

  /**
    From the same lock, operation `i` of any such run answers differently in the two stores if and
    only if it releases a lease that expired and was not taken or released since: the store that
    tests expiry refuses it, the other accepts.
  */
  lemma AnswersDifferIff(lock: Lock, ops: seq<Op>, from: int, i: nat)
    requires ClockRises(from, ops) && i < |ops|
    ensures var (a, b) := (RunAs(lock, ops[..i], true), RunAs(lock, ops[..i], false));
      && (Succeeds(a, As(ops[i], true)) != Succeeds(b, As(ops[i], false)) <==> ExpiredRelease(b, ops[i]))
      && (ExpiredRelease(b, ops[i]) ==> Succeeds(b, As(ops[i], false)))
  {
    var before := ops[..i];
    assert forall j :: 0 <= j < i ==> before[j] == ops[j];
    StoresAgree(lock, lock, before, from, ops[i].now);
    OneOperationAgrees(RunAs(lock, before, true), RunAs(lock, before, false), ops[i], ops[i].now);
  }

  // ---------------------------------------------------------------------------
  // The in-memory store
  // ---------------------------------------------------------------------------

  datatype Entry = Entry(
    operationId: string,
    ownerId: string,
    fencingEpoch: int,
    attempt: int,
    leaseExpiresAt: int,
    active: bool)

  function LockOfEntry(entry: Option<Entry>): Lock {
    match entry
    case None => Unused
    case Some(e) =>
      Lock(e.fencingEpoch, e.attempt,
           if e.active then Some(Holder(e.operationId, e.ownerId, e.leaseExpiresAt)) else None)
  }

  function EntryLock(entries: map<Key, Entry>, key: Key): Lock {
    LockOfEntry(if key in entries then Some(entries[key]) else None)
  }

  /** The capability returned for a lock that was just acquired. */
  predicate IsLeaseOf(lease: Lease, lock: Lock, tenantId: Option<string>, resourceId: string) {
    lock.holder.Some?
    && lease == Lease(tenantId, resourceId, lock.holder.value.operationId, lock.holder.value.ownerId,
                      lock.epoch, lock.attempt, lock.holder.value.expiresAt)
  }

  class InMemoryOwnershipStore {
    const ownerId: string
    const leaseSeconds: int
    var entries: map<Key, Entry>

    constructor (ownerId: string, leaseSeconds: int)
      requires leaseSeconds >= MIN_LEASE_SECONDS
      ensures this.ownerId == ownerId && this.leaseSeconds == leaseSeconds
      ensures forall key :: EntryLock(entries, key) == Unused
    {
      this.ownerId := ownerId;
      this.leaseSeconds := leaseSeconds;
      entries := map[];
    }

    function Span(): int {
      leaseSeconds * MICROSECONDS
    }

    method Acquire(tenantId: Option<string>, resourceId: string, operationId: string, now: int)
      returns (lease: Option<Lease>)
      modifies this`entries
      ensures var key := (Scope(tenantId), resourceId);
        && EntryLock(entries, key) == AfterAcquire(EntryLock(old(entries), key), operationId, ownerId, now, Span())
        && (lease.None? <==> Busy(EntryLock(old(entries), key), now))
        && (lease.Some? ==> IsLeaseOf(lease.value, EntryLock(entries, key), tenantId, resourceId))
        && forall other :: other != key ==> EntryLock(entries, other) == EntryLock(old(entries), other)
    {
      var key := (Scope(tenantId), resourceId);
      var existing := if key in entries then Some(entries[key]) else None;
      if existing.Some? && existing.value.active && existing.value.leaseExpiresAt > now {
        return None;
      }
      var fencingEpoch := (if existing.Some? then existing.value.fencingEpoch else 0) + 1;
      var attempt := (if existing.Some? then existing.value.attempt else 0) + 1;
      var expiresAt := now + Span();
      entries := entries[key := Entry(operationId, ownerId, fencingEpoch, attempt, expiresAt, true)];
      return Some(Lease(tenantId, resourceId, operationId, ownerId, fencingEpoch, attempt, expiresAt));
    }

    /** `_matches` on the entry of the lease's key. */
    method Matches(lease: Lease, now: int) returns (matches: bool)
      ensures matches == Current(EntryLock(entries, lease.Key()), lease, now)
      ensures matches ==> lease.Key() in entries
    {
      var key := lease.Key();
      matches := key in entries && entries[key].active && entries[key].operationId == lease.operationId
        && entries[key].ownerId == lease.ownerId && entries[key].fencingEpoch == lease.fencingEpoch
        && entries[key].leaseExpiresAt > now;
    }

    method Heartbeat(lease: Lease, now: int) returns (extended: bool)
      modifies this`entries
      ensures extended == Current(EntryLock(old(entries), lease.Key()), lease, now)
      ensures EntryLock(entries, lease.Key())
        == AfterHeartbeat(EntryLock(old(entries), lease.Key()), lease, now, Span())
      ensures forall other :: other != lease.Key() ==> EntryLock(entries, other) == EntryLock(old(entries), other)
    {
      extended := Matches(lease, now);
      if extended {
        entries := entries[lease.Key() := entries[lease.Key()].(leaseExpiresAt := now + Span())];
      }
    }

    method IsCurrent(lease: Lease, now: int) returns (current: bool)
      ensures current == Current(EntryLock(entries, lease.Key()), lease, now)
    {
      current := Matches(lease, now);
    }

    method Release(lease: Lease, outcome: string, now: int) returns (released: bool)
      modifies this`entries
      ensures released == MayRelease(EntryLock(old(entries), lease.Key()), lease, now, true)
      ensures EntryLock(entries, lease.Key()) == AfterRelease(EntryLock(old(entries), lease.Key()), lease, now, true)
      ensures forall other :: other != lease.Key() ==> EntryLock(entries, other) == EntryLock(old(entries), other)
    {
      released := Matches(lease, now);
      if released {
        entries := entries[lease.Key() := entries[lease.Key()].(active := false)];
      }
    }
  }

  // ---------------------------------------------------------------------------
  // The PostgreSQL store
  // ---------------------------------------------------------------------------

  datatype OwnerRow = OwnerRow(
    operationId: string,
    ownerId: string,
    fencingEpoch: int,
    attempt: int,
    active: bool,
    lastOutcome: Option<string>,
    leaseExpiresAt: int,
    heartbeatAt: Option<int>)

  /** The row inserted before the first acquire of a key; it expired at the epoch of the clock. */
  const BlankRow := OwnerRow("", "", 0, 0, false, None, 0, None)

  function LockOfRow(row: Option<OwnerRow>): Lock {
    match row
    case None => Unused
    case Some(r) =>
      Lock(r.fencingEpoch, r.attempt,
           if r.active then Some(Holder(r.operationId, r.ownerId, r.leaseExpiresAt)) else None)
  }

  function RowLock(rows: map<Key, OwnerRow>, key: Key): Lock {
    LockOfRow(if key in rows then Some(rows[key]) else None)
  }

  class OwnerTable {
    var rows: map<Key, OwnerRow>

    constructor ()
      ensures rows == map[]
    {
      rows := map[];
    }
  }

  /** One instance per replica; all replicas share the table. */
  class PostgresOwnershipStore {
    const table: OwnerTable
    const ownerId: string
    const leaseSeconds: int

    constructor (table: OwnerTable, ownerId: string, leaseSeconds: int)
      requires leaseSeconds >= MIN_LEASE_SECONDS
      ensures this.table == table && this.ownerId == ownerId && this.leaseSeconds == leaseSeconds
    {
      this.table := table;
      this.ownerId := ownerId;
      this.leaseSeconds := leaseSeconds;
    }

    function Span(): int {
      leaseSeconds * MICROSECONDS
    }

    method Acquire(tenantId: Option<string>, resourceId: string, operationId: string, databaseNow: int)
      returns (lease: Option<Lease>)
      modifies table
      ensures var key := (Scope(tenantId), resourceId);
        && RowLock(table.rows, key)
          == AfterAcquire(RowLock(old(table.rows), key), operationId, ownerId, databaseNow, Span())
        && (lease.None? <==> Busy(RowLock(old(table.rows), key), databaseNow))
        && (lease.Some? ==> IsLeaseOf(lease.value, RowLock(table.rows, key), tenantId, resourceId))
        && forall other :: other != key ==> RowLock(table.rows, other) == RowLock(old(table.rows), other)
    {
      var key := (Scope(tenantId), resourceId);
      if key !in table.rows {  // INSERT ... ON CONFLICT DO NOTHING
        table.rows := table.rows[key := BlankRow];
      }
      var row := table.rows[key];
      if row.active && row.leaseExpiresAt > databaseNow {
        return None;
      }
      var expiresAt := databaseNow + Span();
      table.rows := table.rows[key := OwnerRow(operationId, ownerId, row.fencingEpoch + 1, row.attempt + 1, true,
                                               None, expiresAt, Some(databaseNow))];
      return Some(Lease(tenantId, resourceId, operationId, ownerId, row.fencingEpoch + 1, row.attempt + 1, expiresAt));
    }

    /** `_row_matches` on the row of the lease's key. */
    method RowMatches(lease: Lease, databaseNow: int) returns (matches: bool)
      ensures matches == Current(RowLock(table.rows, lease.Key()), lease, databaseNow)
      ensures matches ==> lease.Key() in table.rows
    {
      var key := lease.Key();
      matches := key in table.rows && table.rows[key].active && table.rows[key].operationId == lease.operationId
        && table.rows[key].ownerId == lease.ownerId && table.rows[key].fencingEpoch == lease.fencingEpoch
        && table.rows[key].leaseExpiresAt > databaseNow;
    }

    method Heartbeat(lease: Lease, databaseNow: int) returns (extended: bool)
      modifies table
      ensures extended == Current(RowLock(old(table.rows), lease.Key()), lease, databaseNow)
      ensures RowLock(table.rows, lease.Key())
        == AfterHeartbeat(RowLock(old(table.rows), lease.Key()), lease, databaseNow, Span())
      ensures forall other :: other != lease.Key() ==> RowLock(table.rows, other) == RowLock(old(table.rows), other)
    {
      extended := RowMatches(lease, databaseNow);
      if extended {
        table.rows := table.rows[lease.Key() := table.rows[lease.Key()].(leaseExpiresAt := databaseNow + Span(),
                                                                         heartbeatAt := Some(databaseNow))];
      }
    }

    method IsCurrent(lease: Lease, databaseNow: int) returns (current: bool)
      ensures current == Current(RowLock(table.rows, lease.Key()), lease, databaseNow)
    {
      current := RowMatches(lease, databaseNow);
    }

    /** One conditional UPDATE: it does not look at the expiry. */
    method Release(lease: Lease, outcome: string, databaseNow: int) returns (released: bool)
      modifies table
      ensures released == MayRelease(RowLock(old(table.rows), lease.Key()), lease, databaseNow, false)
      ensures RowLock(table.rows, lease.Key())
        == AfterRelease(RowLock(old(table.rows), lease.Key()), lease, databaseNow, false)
      ensures released ==>
        lease.Key() in table.rows && table.rows[lease.Key()].lastOutcome == Some(outcome)
      ensures forall other :: other != lease.Key() ==> RowLock(table.rows, other) == RowLock(old(table.rows), other)
    {
      var key := lease.Key();
      released := key in table.rows && table.rows[key].active && table.rows[key].operationId == lease.operationId
        && table.rows[key].ownerId == lease.ownerId && table.rows[key].fencingEpoch == lease.fencingEpoch;
      if released {
        table.rows := table.rows[key := table.rows[key].(active := false, lastOutcome := Some(outcome),
                                                         leaseExpiresAt := databaseNow)];
      }
    }
  }
}
