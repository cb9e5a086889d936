/** Runs of the lease protocol: any sequence of operations by any devices, under
    a clock that never goes back and lease ids that are never reused. */
module LeaseRuns {
  import opened Options
  import opened LeaseTables
  import opened LeaseOutcomes

  datatype Op =
    | AcquireOp(newId: LeaseId, account: AccountId, device: DeviceId, ttl: int)
    | RenewOp(id: LeaseId, ttl: int, idleFor: int)
    | ReleaseOp(id: LeaseId)
    | ReleaseDeviceOp(device: DeviceId)
    | ReclaimOp(account: AccountId, device: DeviceId, threshold: int)
    | SweepOp
    | AddAccountOp(account: AccountId, provider: Provider)
    | DeleteAccountOp(account: AccountId)

  datatype Step = Step(now: int, op: Op)

  /** A new account's id has never been leased before: ids are handed out once. */
  predicate NeverLeased(db: Db, account: AccountId) {
    forall k :: 0 <= k < |db.events| ==> db.events[k].account != account
  }

  predicate Allowed(db: Db, op: Op) {
    match op
    case AcquireOp(newId, _, _, _) => Fresh(db, newId)
    case AddAccountOp(account, _) => account !in db.accounts && NeverLeased(db, account)
    case _ => true
  }

  ghost function Apply(db: Db, op: Op, now: int): Db {
    match op
    case AcquireOp(newId, account, device, ttl) => Acquire(db, newId, account, device, now, ttl).0
    case RenewOp(id, ttl, idleFor) => Renew(db, id, now, ttl, idleFor).0
    case ReleaseOp(id) => Release(db, id, now)
    case ReleaseDeviceOp(device) => ReleaseDevice(db, device, now)
    case ReclaimOp(account, device, threshold) => ReclaimIdle(db, account, device, threshold, now)
    case SweepOp => Expire(db, now)
    case AddAccountOp(account, provider) => db.(accounts := db.accounts[account := provider])
    case DeleteAccountOp(account) => db.(accounts := db.accounts - {account})
  }

  function Clock(run: seq<Step>): int {
    if run == [] then 1 else run[|run| - 1].now
  }

  ghost function After(run: seq<Step>): Db {
    if run == [] then EMPTY
    else var last := run[|run| - 1]; Apply(After(run[..|run| - 1]), last.op, last.now)
  }

  ghost predicate IsRun(run: seq<Step>) {
    run != [] ==>
      var before, last := run[..|run| - 1], run[|run| - 1];
      IsRun(before) && Clock(before) <= last.now && Allowed(After(before), last.op)
  }

  // --------------------------------------------------------- the table rules

  lemma AccountChangeKeepsInv(db: Db, op: Op, now: int)
    requires Inv(db, now) && (op.AddAccountOp? || op.DeleteAccountOp?) && Allowed(db, op)
    ensures Inv(Apply(db, op, now), now)
  {
    var d := Apply(db, op, now);
    forall id | id in d.leases
      ensures HasRecord(d, id)
      ensures op.AddAccountOp? ==> d.leases[id].account != op.account
    {
      assert HasRecord(db, id);
      var k :| 0 <= k < |db.events| && Records(db.events[k], id, db.leases[id]);
      assert Records(d.events[k], id, d.leases[id]);
    }
    forall i, j | i in d.leases && j in d.leases && SamePool(d, d.leases[i], d.leases[j])
      ensures i == j
    {
      assert SamePool(db, db.leases[i], db.leases[j]);
    }
  }

  lemma StepKeepsInv(db: Db, op: Op, now: int)
    requires Inv(db, now) && Allowed(db, op)
    ensures Inv(Apply(db, op, now), now)
  {
    match op {
      case AcquireOp(newId, account, device, ttl) => AcquireKeepsInv(db, newId, account, device, now, ttl);
      case RenewOp(id, ttl, idleFor) => RenewKeepsInv(db, id, now, ttl, idleFor);
      case ReleaseOp(id) => ReleaseKeepsInv(db, id, now);
      case ReleaseDeviceOp(device) => ReleaseDeviceKeepsInv(db, device, now);
      case ReclaimOp(account, device, threshold) => ReclaimIdleKeepsInv(db, account, device, threshold, now);
      case SweepOp => ExpireKeepsInv(db, now);
      case AddAccountOp(_, _) => AccountChangeKeepsInv(db, op, now);
      case DeleteAccountOp(_) => AccountChangeKeepsInv(db, op, now);
    }
  }

  /** Every reachable table keeps every rule: one lease per account, one per
      (device, provider of an existing account), one open history row per lease
      and no other open row, and history segments that never overlap. */
  lemma {:induction false} ReachableTablesKeepRules(run: seq<Step>)
    requires IsRun(run)
    ensures Inv(After(run), Clock(run))
  {
    if run == [] {
    } else {
      var before, last := run[..|run| - 1], run[|run| - 1];
      ReachableTablesKeepRules(before);
      LaterClockKeepsInv(After(before), Clock(before), last.now);
      StepKeepsInv(After(before), last.op, last.now);
    }
  }

  /** The half-open time span a history row covers, open rows reaching to `now`. */
  predicate Covers(e: LeaseEvent, t: int, now: int) {
    e.startedAt <= t < (if e.endedAt == 0 then now else e.endedAt)
  }

  /** At no instant of any run was an account held twice. */
  lemma HeldByAtMostOne(run: seq<Step>, now: int, t: int, i: nat, j: nat)
    requires IsRun(run) && Clock(run) <= now
    requires i < |After(run).events| && j < |After(run).events|
    requires After(run).events[i].account == After(run).events[j].account
    requires Covers(After(run).events[i], t, now) && Covers(After(run).events[j], t, now)
    ensures i == j
  {
    ReachableTablesKeepRules(run);
  }

  /** In any reachable table a live lease is the account's only row, and its open
      history row is the only one of the account that is open. */
  lemma LiveLeaseIsTheOpenSegment(run: seq<Step>, id: LeaseId, k: nat)
    requires IsRun(run) && k < |After(run).events|
    ensures var db := After(run);
            db.events[k].lease == id && db.events[k].endedAt == 0 <==>
            id in db.leases && Records(db.events[k], id, db.leases[id])
  {
    ReachableTablesKeepRules(run);
  }

  // ----------------------------------------------------------------- history

  predicate SameHold(e: LeaseEvent, f: LeaseEvent) {
    e.lease == f.lease && e.account == f.account && e.device == f.device && e.startedAt == f.startedAt &&
    (e.endedAt != 0 ==> f.endedAt == e.endedAt)
  }

  /** `later` extends `earlier`: rows are only added at the end or closed once. */
  ghost predicate HistoryExtends(earlier: seq<LeaseEvent>, later: seq<LeaseEvent>) {
    |earlier| <= |later| && forall k :: 0 <= k < |earlier| ==> SameHold(earlier[k], later[k])
  }

  lemma AcquireExtendsHistory(db: Db, newId: LeaseId, account: AccountId, device: DeviceId, now: int, ttl: int)
    ensures HistoryExtends(db.events, Acquire(db, newId, account, device, now, ttl).0.events)
  {
    var swept := Expire(db, now);
    assert HistoryExtends(db.events, swept.events);
    match HolderOf(swept, account) {
      case None =>
        assert HistoryExtends(swept.events, FirstGrant(swept, newId, account, device, now, ttl).events);
      case Some(id) =>
        assert HistoryExtends(swept.events, Regrant(swept, id, account, device, now, ttl).events);
    }
  }

  lemma StepExtendsHistory(db: Db, op: Op, now: int)
    ensures HistoryExtends(db.events, Apply(db, op, now).events)
  {
    if op.AcquireOp? {
      AcquireExtendsHistory(db, op.newId, op.account, op.device, now, op.ttl);
    }
  }

  /** From any moment of a run to its end, history only grows: no row is lost,
      moved or re-attributed, and a closed row stays as it was closed. */
  lemma {:induction false} HistoryOnlyGrows(run: seq<Step>, moment: nat)
    requires IsRun(run) && moment <= |run|
    ensures IsRun(run[..moment])
    ensures HistoryExtends(After(run[..moment]).events, After(run).events)
  {
    if moment == |run| {
      assert run[..moment] == run;
    } else {
      var before, last := run[..|run| - 1], run[|run| - 1];
      assert before[..moment] == run[..moment];
      HistoryOnlyGrows(before, moment);
      StepExtendsHistory(After(before), last.op, last.now);
    }
  }

  /** A lease id never changes account, device or start, however much later it is seen. */
  lemma LeaseIdKeepsItsHolder(run: seq<Step>, moment: nat, id: LeaseId)
    requires IsRun(run) && moment <= |run|
    requires id in After(run[..moment]).leases && id in After(run).leases
    ensures var l, m := After(run[..moment]).leases[id], After(run).leases[id];
            l.account == m.account && l.device == m.device && l.acquiredAt == m.acquiredAt
  {
    HistoryOnlyGrows(run, moment);
    ReachableTablesKeepRules(run[..moment]);
    ReachableTablesKeepRules(run);
    var early, late := After(run[..moment]), After(run);
    assert HasRecord(early, id) && HasRecord(late, id);
    var k :| 0 <= k < |early.events| && Records(early.events[k], id, early.leases[id]);
    var j :| 0 <= j < |late.events| && Records(late.events[j], id, late.leases[id]);
    assert SameHold(early.events[k], late.events[k]);
    assert k == j;
  }

  // ---------------------------------------------------------------- activity

  /** The activity instant a step records for `id`, if it acquires or renews it. */
  ghost function Recorded(db: Db, op: Op, now: int, id: LeaseId): Option<int> {
    match op
    case AcquireOp(newId, account, device, ttl) =>
      if Acquire(db, newId, account, device, now, ttl).1 == Granted(id) then Some(now) else None
    case RenewOp(renewed, ttl, idleFor) =>
      if Renew(db, renewed, now, ttl, idleFor).1 == Renewed(id)
      then Some(now - (if idleFor < 0 then 0 else idleFor)) else None
    case _ => None
  }

  /** What the latest acquire or renew of `id` in the run recorded. */
  ghost function RecordedActivity(run: seq<Step>, id: LeaseId): Option<int> {
    if run == [] then None
    else
      var before, last := run[..|run| - 1], run[|run| - 1];
      var recorded := Recorded(After(before), last.op, last.now, id);
      if recorded.Some? then recorded else RecordedActivity(before, id)
  }

  lemma RegrantKeepsOtherRows(swept: Db, held: LeaseId, account: AccountId, device: DeviceId, now: int, ttl: int)
    requires Inv(swept, now) && ttl > 0 && held in swept.leases
    ensures forall id :: id in Regrant(swept, held, account, device, now, ttl).leases && id != held ==>
              id in swept.leases && Regrant(swept, held, account, device, now, ttl).leases[id] == swept.leases[id]
  {
    ExtendKeepsCore(swept, held, now, ttl, 0);
  }

  lemma AcquireKeepsOtherRows(db: Db, newId: LeaseId, account: AccountId, device: DeviceId, now: int, ttl: int,
                              id: LeaseId)
    requires Inv(db, now) && Fresh(db, newId)
    requires Acquire(db, newId, account, device, now, ttl).1 != Granted(id)
    requires id in Acquire(db, newId, account, device, now, ttl).0.leases
    ensures id in db.leases && Acquire(db, newId, account, device, now, ttl).0.leases[id] == db.leases[id]
  {
    if Acquire(db, newId, account, device, now, ttl).1.Granted? {
      ExpireKeepsInv(db, now);
      var swept := Expire(db, now);
      match HolderOf(swept, account) {
        case None =>
        case Some(held) => RegrantKeepsOtherRows(swept, held, account, device, now, ttl);
      }
    }
  }

  /** One step keeps every row's activity, or records it anew. */
  lemma StepRecordsActivity(db: Db, op: Op, now: int, id: LeaseId)
    requires Inv(db, now) && Allowed(db, op) && id in Apply(db, op, now).leases
    ensures match Recorded(db, op, now, id)
            case Some(t) => Apply(db, op, now).leases[id].lastActiveAt == t
            case None => id in db.leases && Apply(db, op, now).leases[id].lastActiveAt == db.leases[id].lastActiveAt
  {
    match op {
      case AcquireOp(newId, account, device, ttl) =>
        if Acquire(db, newId, account, device, now, ttl).1 == Granted(id) {
          GrantedIsExclusive(db, newId, account, device, now, ttl);
        } else {
          AcquireKeepsOtherRows(db, newId, account, device, now, ttl, id);
        }
      case RenewOp(renewed, ttl, idleFor) =>
        if Renew(db, renewed, now, ttl, idleFor).1.Renewed? {
          RenewedIsLive(db, renewed, now, ttl, idleFor);
        }
      case _ =>
    }
  }

  /** The row of every lease carries what its latest acquire or renew recorded. */
  lemma {:induction false} RowCarriesRecordedActivity(run: seq<Step>, id: LeaseId)
    requires IsRun(run) && id in After(run).leases
    ensures RecordedActivity(run, id) == Some(After(run).leases[id].lastActiveAt)
  {
    if run == [] {
    } else {
      var before, last := run[..|run| - 1], run[|run| - 1];
      var db := After(before);
      ReachableTablesKeepRules(before);
      LaterClockKeepsInv(db, Clock(before), last.now);
      StepRecordsActivity(db, last.op, last.now, id);
      if Recorded(db, last.op, last.now, id).None? {
        RowCarriesRecordedActivity(before, id);
      }
    }
  }

  /** Over every run, a lease is only ever reclaimed when its latest acquire or
      renew recorded activity at least the threshold before. */
  lemma OnlyIdleLeasesAreReclaimed(run: seq<Step>, account: AccountId, device: DeviceId, threshold: int, now: int,
                                   id: LeaseId)
    requires IsRun(run + [Step(now, ReclaimOp(account, device, threshold))])
    requires id in After(run).leases
    requires id !in After(run + [Step(now, ReclaimOp(account, device, threshold))]).leases
    ensures threshold > 0 && RecordedActivity(run, id).Some? && RecordedActivity(run, id).value + threshold <= now
    ensures After(run).leases[id].account == account && After(run).leases[id].device != device
  {
    var longer := run + [Step(now, ReclaimOp(account, device, threshold))];
    assert longer[..|longer| - 1] == run;
    RowCarriesRecordedActivity(run, id);
    ReclaimTakesOnlyIdleLeases(After(run), account, device, threshold, now, id);
  }
}
