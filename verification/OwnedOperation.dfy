/**
  The bracket around a mutating deployment operation, and the fenced record
  upsert, under arbitrary interference by other workers.
*/
module OwnedOperation {
  import opened Prelude
  import opened DeploymentLeases

  // ---------------------------------------------------------------------------
  // The shared database
  // ---------------------------------------------------------------------------

  /** `fixed` stands for the agent, tenant, version and creation columns, which an update keeps. */
  datatype Record = Record(
    deploymentId: string,
    fixed: string,
    status: string,
    detail: string,
    invokeUrl: Option<string>,
    updatedAt: int)

  /** A record accepted by `upsert_if_owned`, with the claim it was accepted under. */
  datatype Write = Write(key: Key, operationId: string, ownerId: string, epoch: int, record: Record)

  datatype World = World(
    locks: map<Key, Lock>,
    records: map<string, Record>,
    accepted: seq<Write>,
    claims: seq<(Key, int)>)  // every successful acquire, with its epoch

  const EmptyWorld := World(map[], map[], [], [])

  function LockAt(w: World, key: Key): Lock {
    if key in w.locks then w.locks[key] else Unused
  }

  /** INSERT ... ON CONFLICT (deployment_id) DO UPDATE of the four observed columns. */
  function Upserted(records: map<string, Record>, record: Record): map<string, Record> {
    var id := record.deploymentId;
    if id !in records then records[id := record]
    else records[id := records[id].(status := record.status, detail := record.detail,
                                    invokeUrl := record.invokeUrl, updatedAt := record.updatedAt)]
  }

  class PostgresDeploymentRecordRepository {
    const owners: OwnerTable
    var records: map<string, Record>

    constructor (owners: OwnerTable)
      ensures this.owners == owners && records == map[]
    {
      this.owners := owners;
      records := map[];
    }

    /** The ownership check and the upsert are one transaction under the ownership row's lock. */
    method UpsertIfOwned(record: Record, lease: Lease, databaseNow: int) returns (accepted: bool)
      modifies this`records
      ensures accepted == Current(RowLock(owners.rows, lease.Key()), lease, databaseNow)
      ensures records == if accepted then Upserted(old(records), record) else old(records)
    {
      var key := lease.Key();
      var selected := key in owners.rows && owners.rows[key].operationId == lease.operationId
        && owners.rows[key].ownerId == lease.ownerId && owners.rows[key].fencingEpoch == lease.fencingEpoch
        && owners.rows[key].active;
      if !selected || owners.rows[key].leaseExpiresAt <= databaseNow {
        return false;
      }
      if record.deploymentId in records {
        var stored := records[record.deploymentId];
        records := records[record.deploymentId :=
          Record(stored.deploymentId, stored.fixed, record.status, record.detail, record.invokeUrl, record.updatedAt)];
      } else {
        records := records[record.deploymentId := record];
      }
      return true;
    }
  }

  function WorldAcquire(w: World, key: Key, operationId: string, ownerId: string, now: int, span: int): World {
    if Busy(LockAt(w, key), now) then w
    else
      var lock := AfterAcquire(LockAt(w, key), operationId, ownerId, now, span);
      w.(locks := w.locks[key := lock], claims := w.claims + [(key, lock.epoch)])
  }

  function WorldUpsert(w: World, lease: Lease, record: Record, now: int): World {
    if !Current(LockAt(w, lease.Key()), lease, now) then w
    else
      w.(records := Upserted(w.records, record),
         accepted := w.accepted + [Write(lease.Key(), lease.operationId, lease.ownerId, lease.fencingEpoch,
                                         record)])
  }

  datatype Action =
    | Claim(key: Key, operationId: string, ownerId: string, now: int, span: int)
    | Beat(lease: Lease, now: int, span: int)
    | Drop(lease: Lease, now: int, testsExpiry: bool)
    | Persist(lease: Lease, record: Record, now: int)

  function Do(w: World, action: Action): World {
    match action
    case Claim(key, operationId, ownerId, now, span) => WorldAcquire(w, key, operationId, ownerId, now, span)
    case Beat(lease, now, span) =>
      w.(locks := w.locks[lease.Key() := AfterHeartbeat(LockAt(w, lease.Key()), lease, now, span)])
    case Drop(lease, now, testsExpiry) =>
      w.(locks := w.locks[lease.Key() := AfterRelease(LockAt(w, lease.Key()), lease, now, testsExpiry)])
    case Persist(lease, record, now) => WorldUpsert(w, lease, record, now)
  }

  function DoAll(w: World, actions: seq<Action>): World
    decreases |actions|
  {
    if actions == [] then w else DoAll(Do(w, actions[0]), actions[1..])
  }

  // ---------------------------------------------------------------------------
  // Records never go back to an older epoch of their key
  // ---------------------------------------------------------------------------

  /** Accepted records of one key are in epoch order and none is above the key's epoch. */
  ghost predicate RecordsOrdered(w: World) {
    && (forall i, j :: 0 <= i <= j < |w.accepted| && w.accepted[i].key == w.accepted[j].key ==>
         w.accepted[i].epoch <= w.accepted[j].epoch)
    && (forall i :: 0 <= i < |w.accepted| ==> w.accepted[i].epoch <= LockAt(w, w.accepted[i].key).epoch)
  }

  /** Each claim of a key has a higher epoch than the claims before it. */
  ghost predicate ClaimsOrdered(w: World) {
    && (forall i, j :: 0 <= i < j < |w.claims| && w.claims[i].0 == w.claims[j].0 ==> w.claims[i].1 < w.claims[j].1)
    && (forall i :: 0 <= i < |w.claims| ==> w.claims[i].1 <= LockAt(w, w.claims[i].0).epoch)
  }

  lemma DoRaisesEpoch(w: World, key: Key, action: Action)
    ensures LockAt(Do(w, action), key).epoch >= LockAt(w, key).epoch
  {
  }

  lemma DoKeepsRecordsOrdered(w: World, action: Action)
    requires RecordsOrdered(w)
    ensures RecordsOrdered(Do(w, action))
  {
    var w' := Do(w, action);
    forall i | 0 <= i < |w'.accepted| ensures w'.accepted[i].epoch <= LockAt(w', w'.accepted[i].key).epoch {
      DoRaisesEpoch(w, w'.accepted[i].key, action);
    }
  }

  lemma DoKeepsClaimsOrdered(w: World, action: Action)
    requires ClaimsOrdered(w)
    ensures ClaimsOrdered(Do(w, action))
  {
    var w' := Do(w, action);
    forall i | 0 <= i < |w'.claims| ensures w'.claims[i].1 <= LockAt(w', w'.claims[i].0).epoch {
      DoRaisesEpoch(w, w'.claims[i].0, action);
    }
  }

  lemma {:induction false} RecordsFollowEpochs(w: World, actions: seq<Action>)
    requires RecordsOrdered(w) && ClaimsOrdered(w)
    ensures RecordsOrdered(DoAll(w, actions)) && ClaimsOrdered(DoAll(w, actions))
    decreases |actions|
  {
    if actions != [] {
      DoKeepsRecordsOrdered(w, actions[0]);
      DoKeepsClaimsOrdered(w, actions[0]);
      RecordsFollowEpochs(Do(w, actions[0]), actions[1..]);
    }
  }

  lemma {:induction false} DoAllSplits(w: World, first: seq<Action>, second: seq<Action>)
    ensures DoAll(w, first + second) == DoAll(DoAll(w, first), second)
    decreases |first|
  {
    if first == [] {
      assert first + second == second;
    } else {
      assert (first + second)[1..] == first[1..] + second;
      DoAllSplits(Do(w, first[0]), first[1..], second);
    }
  }

  lemma DoOneMore(w: World, actions: seq<Action>, action: Action)
    ensures DoAll(w, actions + [action]) == Do(DoAll(w, actions), action)
  {
    DoAllSplits(w, actions, [action]);
  }

  lemma {:induction false} EpochNeverFalls(w: World, key: Key, actions: seq<Action>)
    ensures LockAt(DoAll(w, actions), key).epoch >= LockAt(w, key).epoch
    decreases |actions|
  {
    if actions != [] {
      EpochNeverFalls(Do(w, actions[0]), key, actions[1..]);
    }
  }

  /** A worker that was fenced once can never land a record: not now, not later, at any clock. */
  lemma FencedRecordNeverLands(w: World, actions: seq<Action>, lease: Lease, record: Record, now: int)
    requires lease.fencingEpoch < LockAt(w, lease.Key()).epoch
    ensures WorldUpsert(DoAll(w, actions), lease, record, now) == DoAll(w, actions)
  {
    EpochNeverFalls(w, lease.Key(), actions);
  }

  // ---------------------------------------------------------------------------
  // Records hold what was accepted last
  // ---------------------------------------------------------------------------

  function LastOf(writes: seq<Write>, id: string): Option<Record> {
    if writes == [] then None
    else if writes[|writes| - 1].record.deploymentId == id then Some(writes[|writes| - 1].record)
    else LastOf(writes[..|writes| - 1], id)
  }

  function FirstOf(writes: seq<Write>, id: string): Option<Record> {
    if writes == [] then None
    else if writes[0].record.deploymentId == id then Some(writes[0].record)
    else FirstOf(writes[1..], id)
  }

  /** The columns an update writes. */
  predicate SameMutable(a: Record, b: Record) {
    a.status == b.status && a.detail == b.detail && a.invokeUrl == b.invokeUrl && a.updatedAt == b.updatedAt
  }

  /** Records without a write are untouched; the others show the last one and keep their first fixed columns. */
  ghost predicate RecordsShow(before: map<string, Record>, after: map<string, Record>, writes: seq<Write>) {
    forall id :: match LastOf(writes, id)
      case None => (id in after <==> id in before) && (id in after ==> after[id] == before[id])
      case Some(last) =>
        && id in after && SameMutable(after[id], last)
        && (id in before ==> after[id].fixed == before[id].fixed)
        && (id !in before ==> FirstOf(writes, id).Some? && after[id].fixed == FirstOf(writes, id).value.fixed)
  }

  lemma {:induction false} FirstOfAppended(writes: seq<Write>, write: Write, id: string)
    ensures FirstOf(writes + [write], id)
      == if FirstOf(writes, id).Some? then FirstOf(writes, id)
         else if write.record.deploymentId == id then Some(write.record) else None
    ensures FirstOf(writes, id).Some? <==> LastOf(writes, id).Some?
    decreases |writes|
  {
    if writes != [] {
      assert (writes + [write])[1..] == writes[1..] + [write];
      FirstOfAppended(writes[1..], write, id);
      LastOfTail(writes, id);
    }
  }

  lemma {:induction false} LastOfTail(writes: seq<Write>, id: string)
    requires writes != []
    ensures LastOf(writes, id)
      == if LastOf(writes[1..], id).Some? then LastOf(writes[1..], id)
         else if writes[0].record.deploymentId == id then Some(writes[0].record) else None
    decreases |writes|
  {
    if |writes| > 1 {
      var init := writes[..|writes| - 1];
      LastOfTail(init, id);
      assert init[1..] == writes[1..][..|writes| - 2];
    }
  }

  lemma WriteShows(before: map<string, Record>, records: map<string, Record>, writes: seq<Write>, write: Write)
    requires RecordsShow(before, records, writes)
    ensures RecordsShow(before, Upserted(records, write.record), writes + [write])
  {
    assert (writes + [write])[..|writes|] == writes;
    forall id ensures FirstOf(writes + [write], id)
        == if FirstOf(writes, id).Some? then FirstOf(writes, id)
           else if write.record.deploymentId == id then Some(write.record) else None
      ensures FirstOf(writes, id).Some? <==> LastOf(writes, id).Some?
    {
      FirstOfAppended(writes, write, id);
    }
  }

  /** In every run: what was accepted stays accepted, and every record shows the last write accepted for it. */
  lemma {:induction false} RecordsHoldLastWrites(w: World, actions: seq<Action>)
    ensures w.accepted <= DoAll(w, actions).accepted
    ensures RecordsShow(w.records, DoAll(w, actions).records, DoAll(w, actions).accepted[|w.accepted|..])
    decreases |actions|
  {
    if actions == [] {
      assert w.accepted[|w.accepted|..] == [];
    } else {
      var init, last := actions[..|actions| - 1], actions[|actions| - 1];
      var was, now := DoAll(w, init), DoAll(w, actions);
      RecordsHoldLastWrites(w, init);
      InitAndLast(actions);
      DoOneMore(w, init, last);
      hide RecordsShow, DoAll;
      if now.accepted != was.accepted {
        var write := now.accepted[|was.accepted|];
        assert now.accepted[|w.accepted|..] == was.accepted[|w.accepted|..] + [write];
        WriteShows(w.records, was.records, was.accepted[|w.accepted|..], write);
      } else {
        assert now.records == was.records;
      }
    }
  }

  // ---------------------------------------------------------------------------
  // The bracket
  // ---------------------------------------------------------------------------

  /** One thing that happens between the acquire and the release of a bracket. */
  datatype Event =
    | Other(action: Action)                // another worker
    | OwnBeat(now: int)                    // the heartbeat loop wakes up
    | OwnBeatFails                         // its store call raises
    | OwnCheck(now: int)                   // the body asserts that it still owns the key
    | OwnPersist(record: Record, now: int) // the body persists a record
    | BodyRaises                           // the body fails by itself

  datatype Exit =
    | BusyError   // DeploymentOperationBusyError
    | LostError   // DeploymentOperationLostError
    | BodyError   // the body's own exception
    | Normal

  /** How the call of the final release ends; one that raises may or may not have committed. */
  datatype ReleaseCall = Answers | RaisesCommitted | RaisesRolledBack

  datatype Bracket = Bracket(
    world: World,
    lease: Lease,
    beating: bool,   // the heartbeat loop is still running
    failed: bool)    // the body has left with an exception

  /** What `upsert_if_owned` and `_assert_owned` let through, as seen by the whole bracket. */
  function Handle(b: Bracket, event: Event, span: int): Bracket {
    match event
    case Other(action) => b.(world := Do(b.world, action))
    case OwnBeat(now) =>
      if !b.beating then b
      else b.(world := Do(b.world, Beat(b.lease, now, span)),
              beating := Current(LockAt(b.world, b.lease.Key()), b.lease, now))
    case OwnBeatFails => b.(beating := false)
    case OwnCheck(now) => b.(failed := b.failed || !Current(LockAt(b.world, b.lease.Key()), b.lease, now))
    case OwnPersist(record, now) =>
      if b.failed then b
      else b.(world := Do(b.world, Persist(b.lease, record, now)),
              failed := !Current(LockAt(b.world, b.lease.Key()), b.lease, now))
    case BodyRaises => b.(failed := true)
  }

  /** No successful acquire of the key after the first `n` claims. */
  ghost predicate NoClaimSince(w: World, key: Key, n: nat) {
    n <= |w.claims| && forall i :: n <= i < |w.claims| ==> w.claims[i].0 != key
  }

  /** Every record accepted for the key after the first `n` was accepted under this very claim. */
  ghost predicate OnlyUnder(w: World, lease: Lease, n: nat) {
    n <= |w.accepted| && forall i :: n <= i < |w.accepted| && w.accepted[i].key == lease.Key() ==>
      w.accepted[i].operationId == lease.operationId && w.accepted[i].ownerId == lease.ownerId
      && w.accepted[i].epoch == lease.fencingEpoch
  }

  /**
    While the key is still at the lease's epoch nobody else acquired it, and the records
    accepted meanwhile are the lease's own.
  */
  ghost predicate Exclusive(w: World, lease: Lease, claimed: nat, accepted: nat) {
    var lock := LockAt(w, lease.Key());
    && lock.epoch >= lease.fencingEpoch
    && claimed <= |w.claims| && accepted <= |w.accepted|
    && (lock.epoch == lease.fencingEpoch ==>
         && NoClaimSince(w, lease.Key(), claimed) && OnlyUnder(w, lease, accepted)
         && (lock.holder.Some? ==> HeldBy(lock, lease)))
  }

  lemma DoKeepsExclusive(w: World, action: Action, lease: Lease, claimed: nat, accepted: nat)
    requires Exclusive(w, lease, claimed, accepted)
    ensures Exclusive(Do(w, action), lease, claimed, accepted)
  {
  }

  /** The event at which the body leaves: it fails by itself, or finds that the lease is not current. */
  predicate Fails(w: World, event: Event, lease: Lease) {
    event.BodyRaises?
    || ((event.OwnCheck? || event.OwnPersist?) && !Current(LockAt(w, lease.Key()), lease, event.now))
  }

  /** The heartbeat loop ends with a refused or raising heartbeat. */
  predicate StopsBeating(w: World, event: Event, lease: Lease) {
    event.OwnBeatFails? || (event.OwnBeat? && !Current(LockAt(w, lease.Key()), lease, event.now))
  }

  /** What one event does, told whether the body is still inside and the heartbeat still runs. */
  function Effect(w: World, event: Event, lease: Lease, span: int, inside: bool, beating: bool): World {
    if event.Other? then Do(w, event.action)
    else if event.OwnPersist? && inside then WorldUpsert(w, lease, event.record, event.now)
    else if event.OwnBeat? && beating then Do(w, Beat(lease, event.now, span))
    else w
  }

  /** The worlds between the events; the body is inside before event `left`, where it achieves nothing any more. */
  ghost predicate Unfolds(worlds: seq<World>, script: seq<Event>, lease: Lease, span: int, left: nat) {
    && |worlds| == |script| + 1
    && forall i :: 0 <= i < |script| ==>
         worlds[i + 1] == Effect(worlds[i], script[i], lease, span, i < left, StillBeats(worlds, script, lease, i))
  }

  ghost predicate StillBeats(worlds: seq<World>, script: seq<Event>, lease: Lease, i: nat)
    requires i <= |worlds| && i <= |script|
  {
    forall j :: 0 <= j < i ==> !StopsBeating(worlds[j], script[j], lease)
  }

  /** The body is inside until the first event that makes it leave. */
  ghost predicate LeavesAt(worlds: seq<World>, script: seq<Event>, lease: Lease, left: nat) {
    && left <= |script| <= |worlds|
    && (forall i :: 0 <= i < left ==> !Fails(worlds[i], script[i], lease))
    && (left < |script| ==> Fails(worlds[left], script[left], lease))
  }

  /** The records a body asks to persist. */
  function Persisted(script: seq<Event>): seq<Record> {
    if script == [] then []
    else
      Persisted(script[..|script| - 1])
      + (if script[|script| - 1].OwnPersist? then [script[|script| - 1].record] else [])
  }

  /** The records accepted under exactly this lease. */
  function AcceptedUnder(writes: seq<Write>, lease: Lease): seq<Record> {
    if writes == [] then []
    else
      var last := writes[|writes| - 1];
      AcceptedUnder(writes[..|writes| - 1], lease)
      + (if last.key == lease.Key() && last.operationId == lease.operationId && last.ownerId == lease.ownerId
            && last.epoch == lease.fencingEpoch then [last.record] else [])
  }

  /** Operation identifiers are fresh: nobody else writes under this one. */
  predicate OthersWriteUnderOtherIds(script: seq<Event>, operationId: string) {
    forall i :: 0 <= i < |script| && script[i].Other? && script[i].action.Persist? ==>
      script[i].action.lease.operationId != operationId
  }

  lemma EffectOnAccepted(w: World, event: Event, lease: Lease, span: int, inside: bool, beating: bool, n: nat)
    requires n <= |w.accepted|
    requires event.Other? && event.action.Persist? ==> event.action.lease.operationId != lease.operationId
    ensures var w' := Effect(w, event, lease, span, inside, beating);
      && n <= |w'.accepted|
      && AcceptedUnder(w'.accepted[n..], lease)
         == AcceptedUnder(w.accepted[n..], lease)
            + (if event.OwnPersist? && inside && !Fails(w, event, lease) then [event.record] else [])
  {
    var w' := Effect(w, event, lease, span, inside, beating);
    if w'.accepted != w.accepted {
      var write := w'.accepted[|w.accepted|];
      assert w'.accepted[n..] == w.accepted[n..] + [write];
      assert (w.accepted[n..] + [write])[..|w.accepted[n..]|] == w.accepted[n..];
    } else {
      assert AcceptedUnder(w'.accepted[n..], lease) == AcceptedUnder(w.accepted[n..], lease) + [];
    }
  }

  /** Unless somebody forges the operation id, the writes under the lease are what the body persisted before it left. */
  lemma {:induction false} WritesAreThePersisted(
    worlds: seq<World>, script: seq<Event>, lease: Lease, span: int, left: nat, n: nat, i: nat)
    requires Unfolds(worlds, script, lease, span, left) && LeavesAt(worlds, script, lease, left)
    requires OthersWriteUnderOtherIds(script, lease.operationId)
    requires n == |worlds[0].accepted| && i <= |script|
    ensures n <= |worlds[i].accepted|
    ensures AcceptedUnder(worlds[i].accepted[n..], lease) == Persisted(script[..if i <= left then i else left])
    decreases i
  {
    if i > 0 {
      WritesAreThePersisted(worlds, script, lease, span, left, n, i - 1);
      var beating := StillBeats(worlds, script, lease, i - 1);
      hide AcceptedUnder, Effect, Fails;
      EffectOnAccepted(worlds[i - 1], script[i - 1], lease, span, i - 1 < left, beating, n);
      if i <= left {
        assert script[..i][..i - 1] == script[..i - 1];
      }
    } else {
      assert worlds[0].accepted[n..] == [] && script[..0] == [];
    }
  }

  /**
    `script` interleaves the body and the heartbeat with whatever other workers do. `released`
    is the clock of the final release, `releaseCall` says whether its call returns, and
    `testsExpiry` which store is used. `worlds` lists the worlds between the events and `left`
    is the event at which the body leaves, or the length of the script.

    A normal exit proves exclusivity over the whole interval: between the acquire and the
    release nobody acquired the key, and every record accepted for it was accepted under this
    claim. The same holds when the body's own exception leaves the bracket.
  */
  method OwnedOperation(w: World, tenantId: Option<string>, resourceId: string, operationId: string, ownerId: string,
                        acquired: int, asserted: int, script: seq<Event>, released: int, span: int, testsExpiry: bool,
                        releaseCall: ReleaseCall)
    returns (w': World, exit: Exit, lease: Option<Lease>, ghost actions: seq<Action>, ghost worlds: seq<World>,
             ghost left: nat)
    ensures w' == DoAll(w, actions)
    ensures exit.BusyError? <==> Busy(LockAt(w, (Scope(tenantId), resourceId)), acquired)
    ensures exit.BusyError? ==> w' == w && lease.None?
    ensures !exit.BusyError? ==>
      lease.Some? && IsClaimOf(lease.value, w, tenantId, resourceId, operationId, ownerId)
    ensures exit.Normal? || exit.BodyError? ==>
      && Exclusive(w', lease.value, |w.claims| + 1, |w.accepted|)
      && LockAt(w', lease.value.Key()).epoch == lease.value.fencingEpoch
      && LockAt(w', lease.value.Key()).holder.None?
    // what happened in between
    ensures !exit.BusyError? ==>
      && |worlds| == |script| + 1
      && worlds[0] == Do(w, Claim(lease.value.Key(), operationId, ownerId, acquired, span))
      && Unfolds(worlds, script, lease.value, span, left)
    // the exit is decided by the first check, the event at which the body leaves and the release
    ensures !exit.BusyError? ==>
      var own := lease.value;
      var claimed := Current(LockAt(worlds[0], own.Key()), own, asserted);
      var freed := releaseCall.Answers? && MayRelease(LockAt(worlds[|script|], own.Key()), own, released, testsExpiry);
      && (!claimed ==> left == 0) && (claimed ==> LeavesAt(worlds, script, own, left))
      && (exit.Normal? <==> claimed && left == |script| && freed)
      && (exit.BodyError? <==> claimed && left < |script| && script[left].BodyRaises? && freed)
      && w' == (if releaseCall.RaisesRolledBack? then worlds[|script|]
                else Do(worlds[|script|], Drop(own, released, testsExpiry)))
    // on a normal exit everything the body persisted was accepted, in order and under this lease
    ensures exit.Normal? && OthersWriteUnderOtherIds(script, operationId) ==>
      |w.accepted| <= |w'.accepted|
      && AcceptedUnder(w'.accepted[|w.accepted|..], lease.value) == Persisted(script)
    ensures w.accepted <= w'.accepted && RecordsShow(w.records, w'.records, w'.accepted[|w.accepted|..])
  {
    var key := (Scope(tenantId), resourceId);
    if Busy(LockAt(w, key), acquired) {
      RecordsHoldLastWrites(w, []);
      return w, BusyError, None, [], [], 0;
    }
    var claim := Claim(key, operationId, ownerId, acquired, span);
    var claimed := Do(w, claim);
    actions := [claim];
    DoOneMore(w, [], claim);
    assert [] + [claim] == actions;
    var lock := LockAt(claimed, key);
    var own := Lease(tenantId, resourceId, operationId, ownerId, lock.epoch, lock.attempt, acquired + span);
    lease := Some(own);
    assert Exclusive(claimed, own, |w.claims| + 1, |w.accepted|);
    hide Exclusive, DoAll, RecordsShow;
    var lostAtOnce := !Current(lock, own, asserted);
    var b, bodyRaised;
    b, bodyRaised, actions, worlds, left :=
      RunScript(w, actions, Bracket(claimed, own, true, lostAtOnce), script, span, |w.claims| + 1, |w.accepted|);
    if !lostAtOnce && left == |script| && OthersWriteUnderOtherIds(script, operationId) {
      WritesAreThePersisted(worlds, script, own, span, left, |w.accepted|, |script|);
      assert script[..|script|] == script;
    }
    RecordsHoldLastWrites(w, actions);
    if releaseCall.RaisesRolledBack? {
      return b.world, LostError, lease, actions, worlds, left;
    }
    var free := MayRelease(LockAt(b.world, key), own, released, testsExpiry);
    var drop := Drop(own, released, testsExpiry);
    w' := Do(b.world, drop);
    DoKeepsExclusive(b.world, drop, own, |w.claims| + 1, |w.accepted|);
    DoOneMore(w, actions, drop);
    actions := actions + [drop];
    RecordsHoldLastWrites(w, actions);
    if releaseCall.RaisesCommitted? || !free {
      return w', LostError, lease, actions, worlds, left;
    }
    exit := if !b.failed then Normal else if bodyRaised then BodyError else LostError;
  }

  /** The events of the script, one after the other. */
  method RunScript(ghost w: World, ghost before: seq<Action>, start: Bracket, script: seq<Event>, span: int,
                   ghost claimed: nat, ghost accepted: nat)
    returns (b: Bracket, bodyRaised: bool, ghost actions: seq<Action>, ghost worlds: seq<World>, ghost left: nat)
    requires start.world == DoAll(w, before) && Exclusive(start.world, start.lease, claimed, accepted)
    requires start.beating
    ensures b.lease == start.lease && b.world == DoAll(w, actions)
    ensures Exclusive(b.world, b.lease, claimed, accepted)
    ensures Unfolds(worlds, script, start.lease, span, left) && worlds[0] == start.world && worlds[|script|] == b.world
    ensures start.failed ==> b.failed && left == 0 && !bodyRaised
    ensures !start.failed ==>
      && LeavesAt(worlds, script, start.lease, left) && (b.failed <==> left < |script|)
      && (bodyRaised <==> left < |script| && script[left].BodyRaises?)
  {
    hide Exclusive, DoAll, Unfolds, StillBeats, LeavesAt;
    b, bodyRaised, actions, worlds, left := start, false, before, [start.world], 0;
    NothingHappened(start, span);
    assert script[..0] == [];
    for i := 0 to |script|
      invariant b.lease == start.lease && b.world == DoAll(w, actions)
      invariant Exclusive(b.world, b.lease, claimed, accepted)
      invariant |worlds| == i + 1 && worlds[0] == start.world && worlds[i] == b.world
      invariant Follows(b, bodyRaised, worlds, script[..i], start, span, left)
    {
      var event := script[i];
      ghost var was := b;
      OneMoreEvent(b, bodyRaised, worlds, script[..i], start, span, left, event);
      assert script[..i] + [event] == script[..i + 1];
      bodyRaised := bodyRaised || (event.BodyRaises? && !b.failed);
      b, actions := HandleEvent(w, actions, b, event, span, claimed, accepted);
      worlds := worlds + [b.world];
      if !was.failed && !b.failed {
        left := i + 1;
      }
    }
    assert script[..|script|] == script;
  }

  /** The bracket's own flags say where the body is and whether the heartbeat runs. */
  ghost predicate Follows(b: Bracket, bodyRaised: bool, worlds: seq<World>, script: seq<Event>, start: Bracket,
                          span: int, left: nat)
  {
    && Unfolds(worlds, script, start.lease, span, left)
    && (b.beating <==> StillBeats(worlds, script, start.lease, |script|))
    && (start.failed ==> b.failed && left == 0 && !bodyRaised)
    && (!start.failed ==>
          && LeavesAt(worlds, script, start.lease, left)
          && (b.failed <==> left < |script|)
          && (bodyRaised <==> left < |script| && script[left].BodyRaises?))
  }

  lemma NothingHappened(start: Bracket, span: int)
    requires start.beating
    ensures Follows(start, false, [start.world], [], start, span, 0)
  {
  }

  lemma UnfoldsFurther(worlds: seq<World>, script: seq<Event>, lease: Lease, span: int, left: nat, event: Event,
                       w: World, left': nat)
    requires Unfolds(worlds, script, lease, span, left)
    requires left' == left || (left == |script| && left' == left + 1)
    requires w == Effect(worlds[|script|], event, lease, span, |script| < left',
                         StillBeats(worlds, script, lease, |script|))
    ensures Unfolds(worlds + [w], script + [event], lease, span, left')
    ensures StillBeats(worlds + [w], script + [event], lease, |script| + 1)
      <==> StillBeats(worlds, script, lease, |script|) && !StopsBeating(worlds[|script|], event, lease)
  {
    var (worlds', script') := (worlds + [w], script + [event]);
    hide Effect, StopsBeating;
    forall i | 0 <= i <= |script|
      ensures StillBeats(worlds', script', lease, i) <==> StillBeats(worlds, script, lease, i)
    {
      forall j | 0 <= j < i
        ensures StopsBeating(worlds'[j], script'[j], lease) <==> StopsBeating(worlds[j], script[j], lease)
      {
      }
    }
    assert worlds'[|script|] == worlds[|script|] && script'[|script|] == event;
    assert StillBeats(worlds', script', lease, |script| + 1)
      <==> StillBeats(worlds', script', lease, |script|) && !StopsBeating(worlds'[|script|], event, lease);
  }

  lemma LeavesFurther(worlds: seq<World>, script: seq<Event>, lease: Lease, left: nat, event: Event, w: World)
    requires LeavesAt(worlds, script, lease, left) && |worlds| == |script| + 1
    ensures left < |script| ==> LeavesAt(worlds + [w], script + [event], lease, left)
    ensures left == |script| && Fails(worlds[left], event, lease) ==>
      LeavesAt(worlds + [w], script + [event], lease, left)
    ensures left == |script| && !Fails(worlds[left], event, lease) ==>
      LeavesAt(worlds + [w], script + [event], lease, left + 1)
  {
    hide Fails;
  }

  lemma OneMoreEvent(b: Bracket, raised: bool, worlds: seq<World>, script: seq<Event>, start: Bracket, span: int,
                     left: nat, event: Event)
    requires b.lease == start.lease && |worlds| == |script| + 1 && worlds[|script|] == b.world
    requires Follows(b, raised, worlds, script, start, span, left)
    ensures var b' := Handle(b, event, span);
      Follows(b', raised || (event.BodyRaises? && !b.failed), worlds + [b'.world], script + [event], start, span,
              if !b.failed && !b'.failed then |script| + 1 else left)
  {
    var b' := Handle(b, event, span);
    var left' := if !b.failed && !b'.failed then |script| + 1 else left;
    assert b'.world == Effect(b.world, event, b.lease, span, |script| < left', b.beating);
    UnfoldsFurther(worlds, script, b.lease, span, left, event, b'.world, left');
    if !start.failed {
      LeavesFurther(worlds, script, b.lease, left, event, b'.world);
    }
    hide Unfolds, StillBeats, LeavesAt, Do, WorldUpsert, Effect;
  }

  /** The lease of the claim that follows `w`. */
  ghost predicate IsClaimOf(lease: Lease, w: World, tenantId: Option<string>, resourceId: string,
                            operationId: string, ownerId: string) {
    && lease.tenantId == tenantId && lease.resourceId == resourceId
    && lease.operationId == operationId && lease.ownerId == ownerId
    && lease.fencingEpoch == LockAt(w, lease.Key()).epoch + 1
    && lease.attempt == LockAt(w, lease.Key()).attempt + 1
  }

  method HandleEvent(ghost w: World, ghost actions: seq<Action>, b: Bracket, event: Event, span: int,
                     ghost claimed: nat, ghost accepted: nat)
    returns (b': Bracket, ghost actions': seq<Action>)
    requires b.world == DoAll(w, actions) && Exclusive(b.world, b.lease, claimed, accepted)
    ensures b' == Handle(b, event, span)
    ensures b'.world == DoAll(w, actions') && Exclusive(b'.world, b.lease, claimed, accepted)
  {
    b', actions' := Handle(b, event, span), actions;
    if b'.world != b.world {
      ghost var action := if event.Other? then event.action
                          else if event.OwnBeat? then Beat(b.lease, event.now, span)
                          else Persist(b.lease, event.record, event.now);
      DoKeepsExclusive(b.world, action, b.lease, claimed, accepted);
      DoOneMore(w, actions, action);
      actions' := actions + [action];
    }
  }

  // ---------------------------------------------------------------------------
  // Exclusivity is per key
  // ---------------------------------------------------------------------------

  /** The writes of a deployment record accepted after the first `n` are all the lease's own. */
  ghost predicate RecordIsOwn(w: World, lease: Lease, n: nat, deploymentId: string) {
    forall i :: n <= i < |w.accepted| && w.accepted[i].record.deploymentId == deploymentId ==>
      w.accepted[i].key == lease.Key() && w.accepted[i].operationId == lease.operationId
      && w.accepted[i].ownerId == lease.ownerId && w.accepted[i].epoch == lease.fencingEpoch
  }

  /**
    What a key's exclusivity is worth for a record. After any bracket that ended normally or by
    the body's own exception, every write of the record accepted since the acquire is the lease's
    own if and only if none of them was accepted under another key.
  */
  lemma RecordIsOwnIff(w: World, lease: Lease, claimed: nat, accepted: nat, deploymentId: string)
    requires Exclusive(w, lease, claimed, accepted) && LockAt(w, lease.Key()).epoch == lease.fencingEpoch
    ensures RecordIsOwn(w, lease, accepted, deploymentId)
      <==> forall i :: accepted <= i < |w.accepted| && w.accepted[i].record.deploymentId == deploymentId ==>
             w.accepted[i].key == lease.Key()
  {
  }

  /**
    `deploy` locks the agent and `rollback` the deployment. With two keys held at once both
    holders write the same deployment record, in either order.
  */
  lemma TwoKeysWriteOneRecord(record: Record) returns (w: World)
    ensures exists actions :: w == DoAll(EmptyWorld, actions)
    ensures |w.accepted| == 2 && w.accepted[0].key != w.accepted[1].key
    ensures w.accepted[0].record.deploymentId == w.accepted[1].record.deploymentId == record.deploymentId
    ensures LockAt(w, w.accepted[0].key).holder.Some? && LockAt(w, w.accepted[1].key).holder.Some?
  {
    var agent := Lease(None, "agent:a", "1", "x", 1, 1, 10);
    var deployment := Lease(None, "deployment:d", "2", "y", 1, 1, 10);
    var actions := [
      Claim(agent.Key(), "1", "x", 0, 10), Claim(deployment.Key(), "2", "y", 0, 10),
      Persist(agent, record, 5), Persist(deployment, record, 5)];
    var w1 := Do(EmptyWorld, actions[0]);
    var w2 := Do(w1, actions[1]);
    var w3 := Do(w2, actions[2]);
    w := Do(w3, actions[3]);
    assert agent.Key().1[0] != deployment.Key().1[0];
    assert DoAll(w3, actions[3..]) == w;
    assert DoAll(w2, actions[2..]) == w;
    assert DoAll(w1, actions[1..]) == w;
    assert DoAll(EmptyWorld, actions) == w;
  }
}
