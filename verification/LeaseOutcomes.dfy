/** What each lease operation promises its caller, on any table that keeps the rules. */
module LeaseOutcomes {
  import opened Options
  import opened LeaseTables

  /** After the expiry sweep the holder of an account is the live lease, if any. */
  lemma SweptHolder(db: Db, account: AccountId, now: int)
    requires Inv(db, now)
    ensures HolderOf(Expire(db, now), account).None? <==>
            forall id :: !(Holds(db, id, account) && db.leases[id].expiresAt > now)
    ensures HolderOf(Expire(db, now), account).Some? ==>
              var id := HolderOf(Expire(db, now), account).value;
              Holds(db, id, account) && db.leases[id].expiresAt > now && Expire(db, now).leases[id] == db.leases[id]
  {
    ExpireKeepsInv(db, now);
    var swept := Expire(db, now);
    forall id | Holds(db, id, account) && db.leases[id].expiresAt > now
      ensures Holds(swept, id, account)
    {
    }
  }

  lemma SweptHolderIsUnique(db: Db, account: AccountId, now: int, id: LeaseId)
    requires Inv(db, now) && Holds(db, id, account) && db.leases[id].expiresAt > now
    ensures HolderOf(Expire(db, now), account) == Some(id)
  {
    SweptHolder(db, account, now);
    var found := HolderOf(Expire(db, now), account).value;
    assert Holds(db, found, account);
  }

  /** An acquire with proper arguments is refused exactly while another device
      has a live lease on the account, and granted otherwise. */
  lemma LockedExactlyWhenHeldElsewhere(db: Db, newId: LeaseId, account: AccountId, device: DeviceId, now: int, ttl: int)
    requires Inv(db, now) && Fresh(db, newId)
    requires newId != 0 && account != 0 && device != 0 && ttl > 0
    ensures var r := Acquire(db, newId, account, device, now, ttl).1;
            (r == Locked <==> LeasedByOther(db, account, device, now)) &&
            (r.Granted? <==> !LeasedByOther(db, account, device, now))
  {
    AcquireKeepsInv(db, newId, account, device, now, ttl);
    SweptHolder(db, account, now);
    var holder := HolderOf(Expire(db, now), account);
    if LeasedByOther(db, account, device, now) {
      var id :| Holds(db, id, account) && db.leases[id].device != device && db.leases[id].expiresAt > now;
      SweptHolderIsUnique(db, account, now, id);
    }
  }

  lemma FirstGrantHolds(swept: Db, newId: LeaseId, account: AccountId, device: DeviceId, now: int, ttl: int)
    requires Inv(swept, now) && Fresh(swept, newId) && ttl > 0 && HolderOf(swept, account).None?
    ensures var d := FirstGrant(swept, newId, account, device, now, ttl);
            newId in d.leases && d.leases[newId] == Lease(account, device, now, now + ttl, now) &&
            HoldsAlone(d, account, device, now)
  {
    var d := FirstGrant(swept, newId, account, device, now, ttl);
    assert Holds(d, newId, account);
    forall other | Holds(d, other, account)
      ensures other == newId
    {
      assert !Holds(swept, other, account);
    }
  }

  lemma RegrantHolds(swept: Db, id: LeaseId, account: AccountId, device: DeviceId, now: int, ttl: int)
    requires Inv(swept, now) && ttl > 0 && Holds(swept, id, account) && swept.leases[id].device == device
    ensures var d := Regrant(swept, id, account, device, now, ttl);
            id in d.leases && d.leases[id] == swept.leases[id].(expiresAt := now + ttl, lastActiveAt := now) &&
            HoldsAlone(d, account, device, now)
  {
    ExtendKeepsCore(swept, id, now, ttl, 0);
    var d := Regrant(swept, id, account, device, now, ttl);
    assert Holds(d, id, account);
    forall other | Holds(d, other, account)
      ensures other == id
    {
      assert Holds(swept, other, account);
    }
  }

  /** A granted id names the single lease on the account: live for the whole ttl,
      the caller's own, freshly active, and still dated from its first acquire. */
  lemma GrantedIsExclusive(db: Db, newId: LeaseId, account: AccountId, device: DeviceId, now: int, ttl: int)
    requires Inv(db, now) && Fresh(db, newId)
    requires Acquire(db, newId, account, device, now, ttl).1.Granted?
    ensures var (d, r) := Acquire(db, newId, account, device, now, ttl);
            Holds(d, r.id, account) && d.leases[r.id].device == device &&
            d.leases[r.id].expiresAt == now + ttl && d.leases[r.id].lastActiveAt == now &&
            d.leases[r.id].acquiredAt == (if r.id in db.leases then db.leases[r.id].acquiredAt else now) &&
            HoldsAlone(d, account, device, now)
  {
    var swept := Expire(db, now);
    ExpireKeepsInv(db, now);
    assert Fresh(swept, newId);
    FreshIsNotALease(db, newId);
    match HolderOf(swept, account) {
      case None => FirstGrantHolds(swept, newId, account, device, now, ttl);
      case Some(id) => RegrantHolds(swept, id, account, device, now, ttl);
    }
  }

  /** A renewed id was live; the renewal moves only its expiry and activity. */
  lemma RenewedIsLive(db: Db, id: LeaseId, now: int, ttl: int, idleFor: int)
    requires Inv(db, now) && Renew(db, id, now, ttl, idleFor).1.Renewed?
    ensures var d := Renew(db, id, now, ttl, idleFor).0;
            id in db.leases && db.leases[id].expiresAt > now && d.events == db.events &&
            d.leases == db.leases[id := db.leases[id].(expiresAt := now + ttl,
                                                       lastActiveAt := now - (if idleFor < 0 then 0 else idleFor))] &&
            HoldsAlone(d, db.leases[id].account, db.leases[id].device, now)
  {
    var idle := if idleFor < 0 then 0 else idleFor;
    ExtendKeepsCore(db, id, now, ttl, idle);
    var d := Extend(db, id, now, ttl, idle);
    assert Holds(d, id, db.leases[id].account);
  }

  /** Progress: an account no other device is actively using can be taken over
      at once, by reclaiming and then acquiring at the same instant. */
  lemma ReclaimThenAcquireSucceeds(db: Db, newId: LeaseId, account: AccountId, device: DeviceId,
                                   threshold: int, now: int, ttl: int)
    requires Inv(db, now) && Fresh(db, newId)
    requires newId != 0 && account != 0 && device != 0 && ttl > 0
    requires !LeasedByOtherActive(db, account, device, threshold, now)
    ensures var freed := ReclaimIdle(db, account, device, threshold, now);
            Acquire(freed, newId, account, device, now, ttl).1.Granted? &&
            HoldsAlone(Acquire(freed, newId, account, device, now, ttl).0, account, device, now)
  {
    var freed := ReclaimIdle(db, account, device, threshold, now);
    ReclaimIdleKeepsInv(db, account, device, threshold, now);
    assert Fresh(freed, newId);
    NothingForeignRemains(db, account, device, threshold, now);
    LockedExactlyWhenHeldElsewhere(freed, newId, account, device, now, ttl);
    GrantedIsExclusive(freed, newId, account, device, now, ttl);
  }

  lemma NothingForeignRemains(db: Db, account: AccountId, device: DeviceId, threshold: int, now: int)
    requires Inv(db, now) && !LeasedByOtherActive(db, account, device, threshold, now)
    ensures !LeasedByOther(ReclaimIdle(db, account, device, threshold, now), account, device, now)
  {
    var freed := ReclaimIdle(db, account, device, threshold, now);
    forall id | Holds(db, id, account) && db.leases[id].device != device && db.leases[id].expiresAt > now
      ensures id !in freed.leases
    {
      assert threshold > 0;
      assert IsReclaimable(db, id, account, device, threshold, now);
      var taken := Reclaimed(db, account, device, threshold, now).value;
      assert IsReclaimable(db, taken, account, device, threshold, now);
    }
    assert forall id :: Holds(freed, id, account) ==> Holds(db, id, account) && freed.leases[id] == db.leases[id];
  }

  /** Safety: a reclaim removes at most one lease, and only a foreign one whose
      last recorded activity is at least the threshold ago. */
  lemma ReclaimTakesOnlyIdleLeases(db: Db, account: AccountId, device: DeviceId, threshold: int, now: int, id: LeaseId)
    requires id in db.leases && id !in ReclaimIdle(db, account, device, threshold, now).leases
    ensures threshold > 0 && IsReclaimable(db, id, account, device, threshold, now)
    ensures ReclaimIdle(db, account, device, threshold, now).leases == db.leases - {id}
  {
    var freed := ReclaimIdle(db, account, device, threshold, now);
    assert Reclaimed(db, account, device, threshold, now) == Some(id);
    assert freed.leases == db.leases - {id};
  }
}
