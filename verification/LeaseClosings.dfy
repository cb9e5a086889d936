/** What each operation takes out of the lease table, and the instant at which it closes the
    history row of every lease it takes. */
module LeaseClosings {
  import opened Options
  import opened LeaseTables
  import opened LeaseOutcomes
  import opened LeaseRuns

  /** `d` is `db` without the lease `id`, whose open rows end at `at`. */
  ghost predicate Without(db: Db, d: Db, id: LeaseId, at: int) {
    && d.accounts == db.accounts && |d.events| == |db.events|
    && (forall i :: i in d.leases <==> i in db.leases && i != id)
    && (forall i :: i in d.leases ==> d.leases[i] == db.leases[i])
    && (forall k :: 0 <= k < |db.events| ==>
          d.events[k] == if db.events[k].lease == id && db.events[k].endedAt == 0 then db.events[k].(endedAt := at)
                         else db.events[k])
  }

  /** A release ends the hold at the instant it is made, expired or not, for any table. */
  lemma ReleaseEndsNow(db: Db, id: LeaseId, now: int)
    ensures if id == 0 then Release(db, id, now) == db else Without(db, Release(db, id, now), id, now)
  {
  }

  /** A reclaim does the same to the one lease it takes, and takes one exactly when there is
      one idle for long enough. */
  lemma ReclaimEndsNow(db: Db, account: AccountId, device: DeviceId, threshold: int, now: int)
    ensures var d := ReclaimIdle(db, account, device, threshold, now);
            if threshold > 0 && exists id :: IsReclaimable(db, id, account, device, threshold, now)
            then exists id :: IsReclaimable(db, id, account, device, threshold, now) && Without(db, d, id, now)
            else d == db
  {
    var taken := Reclaimed(db, account, device, threshold, now);
    if taken.Some? {
      assert Without(db, ReclaimIdle(db, account, device, threshold, now), taken.value, now);
    }
  }

  /** A foreign holder counts as active exactly when there is nothing to reclaim from it; a
      threshold of 0 or less counts every foreign holder. */
  lemma ActiveExactlyWhenNotReclaimable(db: Db, account: AccountId, device: DeviceId, threshold: int, now: int)
    requires OneLeasePerAccount(db)
    ensures threshold > 0 ==>
              (LeasedByOtherActive(db, account, device, threshold, now) <==>
               LeasedByOther(db, account, device, now) &&
               forall id :: !IsReclaimable(db, id, account, device, threshold, now))
    ensures threshold <= 0 ==>
              (LeasedByOtherActive(db, account, device, threshold, now) <==> LeasedByOther(db, account, device, now))
  {
    if threshold > 0 && LeasedByOther(db, account, device, now) {
      var id :| Holds(db, id, account) && db.leases[id].device != device && db.leases[id].expiresAt > now;
      assert forall i :: Holds(db, i, account) ==> i == id;
      if db.leases[id].lastActiveAt <= now - threshold {
        assert IsReclaimable(db, id, account, device, threshold, now);
      }
    }
  }

  /** Suspending a device ends all its holds, and no other, at that instant. */
  lemma ReleaseDeviceEndsNow(db: Db, device: DeviceId, now: int)
    requires device != 0
    ensures var d := ReleaseDevice(db, device, now);
            |d.events| == |db.events| && d.accounts == db.accounts &&
            (forall i :: i in d.leases <==> i in db.leases && db.leases[i].device != device) &&
            (forall i :: i in d.leases ==> d.leases[i] == db.leases[i]) &&
            (forall k :: 0 <= k < |db.events| ==>
               var e := db.events[k];
               d.events[k] == if e.endedAt == 0 && e.lease in db.leases && db.leases[e.lease].device == device
                              then e.(endedAt := now) else e)
  {
  }

  predicate Lapses(db: Db, id: LeaseId, now: int) { id in db.leases && db.leases[id].expiresAt <= now }

  /** The sweep ends every lapsed hold at its own expiry. */
  lemma SweepEndsAtExpiry(db: Db, now: int)
    ensures var d := Expire(db, now);
            |d.events| == |db.events| && d.accounts == db.accounts &&
            (forall i :: i in d.leases <==> i in db.leases && !Lapses(db, i, now)) &&
            (forall i :: i in d.leases ==> d.leases[i] == db.leases[i]) &&
            (forall k :: 0 <= k < |db.events| ==>
               var e := db.events[k];
               d.events[k] == if e.endedAt == 0 && Lapses(db, e.lease, now)
                              then e.(endedAt := db.leases[e.lease].expiresAt) else e)
  {
  }

  /** Where the device of a granted lease gives up another: the same provider, another
      existing account. */
  predicate GivenUp(db: Db, id: LeaseId, device: DeviceId, account: AccountId) {
    id in db.leases && db.leases[id].device == device && db.leases[id].account != account &&
    db.leases[id].account in db.accounts && account in db.accounts &&
    db.accounts[db.leases[id].account] == db.accounts[account]
  }

  /** When an acquire at `now` ends the hold of a row, if it does. */
  function EndedBy(db: Db, e: LeaseEvent, device: DeviceId, account: AccountId, now: int): LeaseEvent {
    if e.endedAt != 0 then e
    else if Lapses(db, e.lease, now) then e.(endedAt := db.leases[e.lease].expiresAt)
    else if GivenUp(db, e.lease, device, account) then e.(endedAt := now)
    else e
  }

  /** The other leases and the rows there were, from `db` to the tables `d` of a grant. */
  ghost predicate TakesOnlyThese(db: Db, d: Db, granted: LeaseId, device: DeviceId, account: AccountId, now: int) {
    && d.accounts == db.accounts && |d.events| >= |db.events|
    && (forall i :: i != granted ==>
          (i in d.leases <==> i in db.leases && !Lapses(db, i, now) && !GivenUp(db, i, device, account)))
    && (forall i :: i in d.leases && i != granted ==> i in db.leases && d.leases[i] == db.leases[i])
    && (forall k :: 0 <= k < |db.events| ==> d.events[k] == EndedBy(db, db.events[k], device, account, now))
  }

  /** A grant, in full: it takes the lapsed leases and the device's others of the provider,
      leaves every other lease alone, ends the rows of what it took at their expiry or now,
      and opens one row for a new lease, none for a renewed one. */
  lemma GrantInFull(db: Db, newId: LeaseId, account: AccountId, device: DeviceId, now: int, ttl: int)
    requires Inv(db, now) && Fresh(db, newId)
    requires Acquire(db, newId, account, device, now, ttl).1.Granted?
    ensures var (d, r) := Acquire(db, newId, account, device, now, ttl);
            TakesOnlyThese(db, d, r.id, device, account, now) &&
            (r.id == newId || (Holds(db, r.id, account) && db.leases[r.id].device == device)) &&
            d.events[|db.events|..] == if r.id == newId then [LeaseEvent(newId, account, device, now, 0)] else []
  {
    hide Inv, Fresh, TakesOnlyThese, FirstGrant, Regrant, Expire;
    var swept := Expire(db, now);
    ExpireKeepsInv(db, now);
    NewIdStaysFresh(db, newId, now);
    match HolderOf(swept, account)
    case None =>
      FirstGrantTakes(swept, newId, account, device, now, ttl);
      SweptThenTaken(db, FirstGrant(swept, newId, account, device, now, ttl), newId, device, account, now);
    case Some(id) =>
      RegrantTakes(swept, id, account, device, now, ttl);
      SweptThenTaken(db, Regrant(swept, id, account, device, now, ttl), id, device, account, now);
  }

  lemma NewIdStaysFresh(db: Db, newId: LeaseId, now: int)
    requires Inv(db, now) && Fresh(db, newId)
    ensures newId !in db.leases && newId !in Expire(db, now).leases && |Expire(db, now).events| == |db.events|
  {
    FreshIsNotALease(db, newId);
  }

  lemma SweptThenTaken(db: Db, d: Db, granted: LeaseId, device: DeviceId, account: AccountId, now: int)
    requires TakesOnlyThese(Expire(db, now), d, granted, device, account, now)
    ensures TakesOnlyThese(db, d, granted, device, account, now)
  {
    var swept := Expire(db, now);
    SweepEndsAtExpiry(db, now);
    forall k | 0 <= k < |db.events|
      ensures d.events[k] == EndedBy(db, db.events[k], device, account, now)
    {
      assert d.events[k] == EndedBy(swept, swept.events[k], device, account, now);
      assert !Lapses(swept, db.events[k].lease, now);
    }
  }

  /** Taking the siblings of `granted` out of `grown`. */
  lemma SiblingsTaken(swept: Db, grown: Db, granted: LeaseId, device: DeviceId, account: AccountId, now: int)
    requires forall i :: i in swept.leases ==> !Lapses(swept, i, now)
    requires grown.accounts == swept.accounts && swept.events <= grown.events
    requires forall i :: i != granted ==> (i in grown.leases <==> i in swept.leases)
    requires forall i :: i in swept.leases && i != granted ==> grown.leases[i] == swept.leases[i]
    requires granted in grown.leases && grown.leases[granted].account == account
    requires granted in swept.leases ==> swept.leases[granted].account == account
    ensures var d := Evict(grown, Siblings(grown, device, account, now));
            TakesOnlyThese(swept, d, granted, device, account, now)
  {
    var d := Evict(grown, Siblings(grown, device, account, now));
    forall k | 0 <= k < |swept.events|
      ensures d.events[k] == EndedBy(swept, swept.events[k], device, account, now)
    {
      assert grown.events[k] == swept.events[k];
    }
  }

  lemma FirstGrantTakes(swept: Db, newId: LeaseId, account: AccountId, device: DeviceId, now: int, ttl: int)
    requires newId !in swept.leases && forall i :: i in swept.leases ==> !Lapses(swept, i, now)
    ensures var d := FirstGrant(swept, newId, account, device, now, ttl);
            TakesOnlyThese(swept, d, newId, device, account, now) &&
            d.events[|swept.events|..] == [LeaseEvent(newId, account, device, now, 0)]
  {
    SiblingsTaken(swept, Insert(swept, newId, account, device, now, ttl), newId, device, account, now);
    NoRowYet(swept, newId, account, device, now, ttl);
  }

  lemma NoRowYet(swept: Db, newId: LeaseId, account: AccountId, device: DeviceId, now: int, ttl: int)
    ensures FirstGrant(swept, newId, account, device, now, ttl).events[|swept.events|..] ==
            [LeaseEvent(newId, account, device, now, 0)]
  {
    var grown := Insert(swept, newId, account, device, now, ttl);
    assert !IsSibling(grown, newId, device, account);
    assert grown.events[|swept.events|] == LeaseEvent(newId, account, device, now, 0);
  }

  lemma RegrantTakes(swept: Db, id: LeaseId, account: AccountId, device: DeviceId, now: int, ttl: int)
    requires Inv(swept, now) && ttl > 0 && Holds(swept, id, account) && swept.leases[id].device == device
    requires forall i :: i in swept.leases ==> !Lapses(swept, i, now)
    ensures var d := Regrant(swept, id, account, device, now, ttl);
            TakesOnlyThese(swept, d, id, device, account, now) && d.events[|swept.events|..] == []
  {
    hide Inv, TakesOnlyThese;
    ExtendAlters(swept, id, now, ttl);
    SiblingsTaken(swept, Extend(swept, id, now, ttl, 0), id, device, account, now);
  }

  lemma ExtendAlters(db: Db, id: LeaseId, now: int, ttl: int)
    requires Inv(db, now) && ttl > 0 && id in db.leases
    ensures Extend(db, id, now, ttl, 0) == Touch(db, id, now + ttl, now)
  {
    ExtendKeepsCore(db, id, now, ttl, 0);
  }

  // ---------------------------------------------------------------------- over runs

  /** The instant at which a step ends the hold of a lease it takes: a lapsed one's own
      expiry, where the step is a sweep or an acquire, else the instant of the step. */
  function EndGiven(db: Db, step: Step, id: LeaseId): int
    requires id in db.leases
  {
    if (step.op.SweepOp? || step.op.AcquireOp?) && db.leases[id].expiresAt <= step.now then db.leases[id].expiresAt
    else step.now
  }

  /** A row that a step closes was its lease's open row, and ends as the step's kind says. */
  lemma StepEndsRow(db: Db, step: Step, k: nat)
    requires Inv(db, step.now) && Allowed(db, step.op) && k < |db.events| && db.events[k].endedAt == 0
    ensures var d := Apply(db, step.op, step.now);
            k < |d.events| && db.events[k].lease in db.leases &&
            (d.events[k].endedAt != 0 ==>
               d.events[k] == db.events[k].(endedAt := EndGiven(db, step, db.events[k].lease)))
  {
    hide Inv;
    var now := step.now;
    OpenRowHasLease(db, now, k);
    match step.op
    case AcquireOp(newId, account, device, ttl) =>
      if Acquire(db, newId, account, device, now, ttl).1.Granted? {
        GrantInFull(db, newId, account, device, now, ttl);
      }
    case RenewOp(id, ttl, idleFor) =>
      if Renew(db, id, now, ttl, idleFor).1.Renewed? {
        RenewedIsLive(db, id, now, ttl, idleFor);
      }
    case ReleaseOp(id) => ReleaseEndsNow(db, id, now);
    case ReleaseDeviceOp(device) =>
      if device != 0 {
        ReleaseDeviceEndsNow(db, device, now);
      }
    case ReclaimOp(account, device, threshold) => ReclaimEndsNow(db, account, device, threshold, now);
    case SweepOp => SweepEndsAtExpiry(db, now);
    case _ =>
  }

  lemma OpenRowHasLease(db: Db, now: int, k: nat)
    requires Inv(db, now) && k < |db.events| && db.events[k].endedAt == 0
    ensures db.events[k].lease in db.leases
  {
  }

  lemma NewRowIsOpen(db: Db, step: Step, k: nat)
    requires Inv(db, step.now) && Allowed(db, step.op)
    requires |db.events| <= k < |Apply(db, step.op, step.now).events|
    ensures Apply(db, step.op, step.now).events[k].endedAt == 0
  {
    hide Inv;
    match step.op
    case AcquireOp(newId, account, device, ttl) =>
      var (d, r) := Acquire(db, newId, account, device, step.now, ttl);
      if r.Granted? {
        GrantInFull(db, newId, account, device, step.now, ttl);
        assert d.events[k] == d.events[|db.events|..][k - |db.events|];
      }
    case RenewOp(id, ttl, idleFor) =>
      if Renew(db, id, step.now, ttl, idleFor).1.Renewed? {
        RenewedIsLive(db, id, step.now, ttl, idleFor);
      }
    case _ =>
  }

  /** The step at `moment` found row `k` open and ended it. */
  ghost predicate EndedAt(run: seq<Step>, k: nat, moment: nat) {
    moment < |run| &&
    var db := After(run[..moment]);
    k < |db.events| && db.events[k].endedAt == 0 && db.events[k].lease in db.leases &&
    k < |After(run).events| && After(run).events[k].endedAt == EndGiven(db, run[moment], db.events[k].lease)
  }

  /** Every hold that has ended, in every run, was ended by one step of it, and carries the
      instant that step's kind gives: no held time is added to the history or lost. */
  lemma {:induction false} EveryEndIsGiven(run: seq<Step>, k: nat) returns (moment: nat)
    requires IsRun(run) && k < |After(run).events| && After(run).events[k].endedAt != 0
    ensures EndedAt(run, k, moment)
  {
    hide Inv, Apply, Allowed;
    var n := |run| - 1;
    var before, last := run[..n], run[n];
    var db := After(before);
    ReachableTablesKeepRules(before);
    LaterClockKeepsInv(db, Clock(before), last.now);
    StepExtendsHistory(db, last.op, last.now);
    if k >= |db.events| {
      NewRowIsOpen(db, last, k);
    }
    if k < |db.events| && db.events[k].endedAt == 0 {
      StepEndsRow(db, last, k);
      moment := n;
    } else {
      assert SameHold(db.events[k], After(run).events[k]);
      moment := EveryEndIsGiven(before, k);
      assert before[..moment] == run[..moment];
    }
  }
}
