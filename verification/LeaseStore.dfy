/** The store's lease methods, statement by statement, on tables updated in place.
    Each method is one transaction: on an error return the tables are restored. */
module LeaseStore {
  import opened Options
  import opened LeaseTables
  import opened LeaseOutcomes

  lemma AcquireKeepsRules(db: Db, newId: LeaseId, account: AccountId, device: DeviceId, now: int, ttl: int)
    ensures var (after, r) := Acquire(db, newId, account, device, now, ttl);
            Inv(db, now) && Fresh(db, newId) ==>
              Inv(after, now) && r != ConstraintError && (r.Granted? ==> HoldsAlone(after, account, device, now))
  {
    if Inv(db, now) && Fresh(db, newId) {
      AcquireKeepsInv(db, newId, account, device, now, ttl);
      if Acquire(db, newId, account, device, now, ttl).1.Granted? {
        GrantedIsExclusive(db, newId, account, device, now, ttl);
      }
    }
  }

  class Store {
    var leases: map<LeaseId, Lease>
    var events: seq<LeaseEvent>
    var accounts: map<AccountId, Provider>

    ghost function Tables(): Db
      reads this
    {
      Db(leases, events, accounts)
    }

    /** The unique index on leases.account_id. */
    ghost predicate Indexed()
      reads this
    {
      OneLeasePerAccount(Tables())
    }

    /** Every rule of the two tables, at an instant no earlier than any call so far. */
    ghost predicate Valid(now: int)
      reads this
    {
      Inv(Tables(), now)
    }

    constructor ()
      ensures Indexed() && Valid(1) && Tables() == EMPTY
    {
      leases, events, accounts := map[], [], map[];
    }

    // ------------------------------------------------------------- statements

    method CloseExpiredLeaseEventsTx(cutoff: int)
      modifies this`events
      ensures events == CloseSegments(old(events), Lapsed(old(Tables()), cutoff))
    {
      events := seq(|events|, k requires 0 <= k < |events| reads this =>
        var e := events[k];
        if e.endedAt == 0 && e.lease in leases && leases[e.lease].expiresAt <= cutoff
        then e.(endedAt := leases[e.lease].expiresAt) else e);
    }

    method DeleteExpired(cutoff: int)
      modifies this`leases
      ensures leases == old(leases) - Lapsed(old(Tables()), cutoff).Keys
    {
      leases := map id | id in leases && !(leases[id].expiresAt <= cutoff) :: leases[id];
    }

    method CloseEventsOf(id: LeaseId, at: int)
      modifies this`events
      ensures events == CloseSegments(old(events), map[id := at])
    {
      events := seq(|events|, k requires 0 <= k < |events| reads this =>
        if events[k].lease == id && events[k].endedAt == 0 then events[k].(endedAt := at) else events[k]);
    }

    method ReleaseOtherDeviceProviderLeasesTx(device: DeviceId, keep: AccountId, now: int)
      modifies this`leases, this`events
      ensures Tables() == Evict(old(Tables()), Siblings(old(Tables()), device, keep, now))
    {
      var pool := set a | a in accounts && keep in accounts && accounts[a] == accounts[keep];
      var others := set id | id in leases && leases[id].account in pool &&
                             leases[id].device == device && leases[id].account != keep;
      events := seq(|events|, k requires 0 <= k < |events| reads this =>
        if events[k].endedAt == 0 && events[k].lease in others then events[k].(endedAt := now) else events[k]);
      leases := map id | id in leases &&
        !(leases[id].device == device && leases[id].account != keep && leases[id].account in pool) :: leases[id];
      assert others == Siblings(old(Tables()), device, keep, now).Keys;
    }

    method EnsureOpenLeaseEventTx(id: LeaseId, account: AccountId, device: DeviceId, startedAt: int)
      modifies this`events
      ensures events == if HasOpenSegment(old(Tables()), id) then old(events)
                        else old(events) + [LeaseEvent(id, account, device, startedAt, 0)]
    {
      if !exists k :: 0 <= k < |events| && events[k].lease == id && events[k].endedAt == 0 {
        events := events + [LeaseEvent(id, account, device, startedAt, 0)];
      }
    }

    // ----------------------------------------------------------- transactions

    /** The returned struct is always dated `now`; the row keeps its first date. */
    method AcquireLease(newId: LeaseId, account: AccountId, device: DeviceId, now: int, ttl: int)
      returns (r: AcquireResult, lease: Lease)
      requires Indexed()
      modifies this
      ensures Indexed()
      ensures (Tables(), r) == Acquire(old(Tables()), newId, account, device, now, ttl)
      ensures !r.Granted? ==> Tables() == old(Tables())
      ensures r.Granted? ==> lease == Lease(account, device, now, now + ttl, now)
      ensures old(Valid(now)) && Fresh(old(Tables()), newId) ==>
                Valid(now) && r != ConstraintError && (r.Granted? ==> HoldsAlone(Tables(), account, device, now))
    {
      AcquireKeepsRules(Tables(), newId, account, device, now, ttl);
      r, lease := AcquireTx(newId, account, device, now, ttl);
    }

    method AcquireTx(newId: LeaseId, account: AccountId, device: DeviceId, now: int, ttl: int)
      returns (r: AcquireResult, lease: Lease)
      requires Indexed()
      modifies this
      ensures Indexed()
      ensures (Tables(), r) == Acquire(old(Tables()), newId, account, device, now, ttl)
      ensures !r.Granted? ==> Tables() == old(Tables())
      ensures r.Granted? ==> lease == Lease(account, device, now, now + ttl, now)
    {
      lease := Lease(account, device, now, now + ttl, now);
      if newId == 0 || account == 0 || device == 0 || ttl <= 0 {
        return BadArguments, lease;
      }
      var leases0, events0 := leases, events;
      CloseExpiredLeaseEventsTx(now);
      DeleteExpired(now);
      assert Tables() == Expire(old(Tables()), now);
      if exists id :: id in leases && leases[id].account == account {
        var id :| id in leases && leases[id].account == account;
        assert Holds(Tables(), id, account) && HolderOf(Tables(), account) == Some(id);
        if leases[id].device != device {
          leases, events := leases0, events0;
          return Locked, lease;
        }
        var acquiredAt := leases[id].acquiredAt;
        leases := leases[id := leases[id].(expiresAt := now + ttl, lastActiveAt := now)];
        EnsureOpenLeaseEventTx(id, account, device, acquiredAt);
        assert Tables() == Extend(Expire(old(Tables()), now), id, now, ttl, 0);
        r := Granted(id);
      } else {
        assert HolderOf(Tables(), account).None? by {
          assert forall id :: id in leases ==> !Holds(Tables(), id, account);
        }
        if newId in leases {
          leases, events := leases0, events0;
          return ConstraintError, lease;
        }
        leases := leases[newId := Lease(account, device, now, now + ttl, now)];
        events := events + [LeaseEvent(newId, account, device, now, 0)];
        r := Granted(newId);
      }
      ReleaseOtherDeviceProviderLeasesTx(device, account, now);
    }

    method RenewLease(id: LeaseId, now: int, ttl: int, idleFor: int) returns (r: RenewResult, lease: Option<Lease>)
      requires Indexed()
      modifies this
      ensures Indexed()
      ensures (Tables(), r) == Renew(old(Tables()), id, now, ttl, idleFor)
      ensures r.Renewed? ==> lease.Some? && id in leases && lease.value == leases[id]
      ensures old(Valid(now)) ==> Valid(now)
      ensures !r.Renewed? ==> Tables() == old(Tables())
    {
      if Valid(now) {
        RenewKeepsInv(Tables(), id, now, ttl, idleFor);
      }
      if id == 0 || ttl <= 0 {
        return BadRenewArguments, None;
      }
      var idle := if idleFor < 0 then 0 else idleFor;
      if id !in leases || leases[id].expiresAt <= now {
        return NotFound, None;
      }
      leases := leases[id := leases[id].(expiresAt := now + ttl, lastActiveAt := now - idle)];
      EnsureOpenLeaseEventTx(id, leases[id].account, leases[id].device, leases[id].acquiredAt);
      r, lease := Renewed(id), Some(leases[id]);
    }

    method ReleaseLease(id: LeaseId, now: int)
      requires Indexed()
      modifies this
      ensures Indexed() && Tables() == Release(old(Tables()), id, now)
      ensures old(Valid(now)) ==> Valid(now)
    {
      if Valid(now) {
        ReleaseKeepsInv(Tables(), id, now);
      }
      if id == 0 {
        return;
      }
      CloseEventsOf(id, now);
      leases := map i | i in leases && i != id :: leases[i];
    }

    method ReleaseDeviceLeases(device: DeviceId, now: int) returns (released: nat)
      requires Indexed()
      modifies this
      ensures Indexed() && Tables() == ReleaseDevice(old(Tables()), device, now)
      ensures released == |old(leases)| - |leases|
      ensures old(Valid(now)) ==> Valid(now)
    {
      if Valid(now) {
        ReleaseDeviceKeepsInv(Tables(), device, now);
      }
      if device == 0 {
        return 0;
      }
      ghost var stamps := map id | id in leases && leases[id].device == device :: now;
      events := seq(|events|, k requires 0 <= k < |events| reads this =>
        var e := events[k];
        if e.endedAt == 0 && e.lease in leases && leases[e.lease].device == device then e.(endedAt := now) else e);
      var gone := set id | id in leases && leases[id].device == device;
      assert gone == stamps.Keys;
      assert |leases.Keys - gone| == |leases.Keys| - |gone|;
      released := |gone|;
      leases := leases - gone;
    }

    method ReclaimIdleForeignLease(account: AccountId, device: DeviceId, threshold: int, now: int)
      returns (reclaimed: bool)
      requires Indexed()
      modifies this
      ensures Indexed() && Tables() == ReclaimIdle(old(Tables()), account, device, threshold, now)
      ensures reclaimed <==> Reclaimed(old(Tables()), account, device, threshold, now).Some?
      ensures old(Valid(now)) ==> Valid(now)
    {
      if Valid(now) {
        ReclaimIdleKeepsInv(Tables(), account, device, threshold, now);
      }
      if threshold <= 0 {
        return false;
      }
      ghost var db := Tables();
      if exists id :: id in leases && leases[id].account == account && leases[id].device != device &&
                      leases[id].expiresAt > now && leases[id].lastActiveAt <= now - threshold {
        var id :| id in leases && leases[id].account == account && leases[id].device != device &&
                  leases[id].expiresAt > now && leases[id].lastActiveAt <= now - threshold;
        assert IsReclaimable(db, id, account, device, threshold, now);
        assert Reclaimed(db, account, device, threshold, now) == Some(id);
        CloseEventsOf(id, now);
        leases := map i | i in leases && i != id :: leases[i];
        return true;
      }
      assert forall id :: !IsReclaimable(db, id, account, device, threshold, now);
      reclaimed := false;
    }

    method SweepLeases(now: int)
      requires Indexed()
      modifies this
      ensures Indexed() && Tables() == Expire(old(Tables()), now)
      ensures old(Valid(now)) ==> Valid(now)
    {
      if Valid(now) {
        ExpireKeepsInv(Tables(), now);
      }
      CloseExpiredLeaseEventsTx(now);
      DeleteExpired(now);
    }

    // ---------------------------------------------------------------- queries

    method IsAccountLeasedByOther(account: AccountId, device: DeviceId, now: int) returns (r: bool)
      ensures r == LeasedByOther(Tables(), account, device, now)
    {
      r := exists id :: id in leases && leases[id].account == account && leases[id].device != device &&
                        leases[id].expiresAt > now;
      assert r ==> exists id :: Holds(Tables(), id, account) && leases[id].device != device &&
                                leases[id].expiresAt > now;
    }

    method IsAccountLeasedByOtherActive(account: AccountId, device: DeviceId, threshold: int, now: int)
      returns (r: bool)
      ensures r == LeasedByOtherActive(Tables(), account, device, threshold, now)
    {
      if threshold <= 0 {
        r := IsAccountLeasedByOther(account, device, now);
        return;
      }
      r := exists id :: id in leases && leases[id].account == account && leases[id].device != device &&
                        leases[id].expiresAt > now && leases[id].lastActiveAt > now - threshold;
      assert r ==> exists id :: Holds(Tables(), id, account) && leases[id].device != device &&
                                leases[id].expiresAt > now && leases[id].lastActiveAt > now - threshold;
    }
  }
}
