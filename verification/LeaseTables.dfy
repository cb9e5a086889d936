/** The lease protocol as a function of table contents.

    `leases` holds the current state, one row per lease id; `events` is the
    append-only history, in insertion order, where endedAt == 0 means open.
    `accounts` is the part of the accounts table the SQL joins read.  Ids are
    opaque numbers, 0 standing for the empty string or a missing account. */
module LeaseTables {
  import opened Options

  type AccountId = int
  type DeviceId = int
  type LeaseId = int
  type Provider = int

  datatype Lease = Lease(account: AccountId, device: DeviceId,
                         acquiredAt: int, expiresAt: int, lastActiveAt: int)

  datatype LeaseEvent = LeaseEvent(lease: LeaseId, account: AccountId, device: DeviceId,
                                   startedAt: int, endedAt: int)

  datatype Db = Db(leases: map<LeaseId, Lease>, events: seq<LeaseEvent>,
                   accounts: map<AccountId, Provider>)

  datatype AcquireResult = Granted(id: LeaseId) | BadArguments | Locked | ConstraintError
  datatype RenewResult = Renewed(id: LeaseId) | BadRenewArguments | NotFound

  const EMPTY := Db(map[], [], map[])

  // ---------------------------------------------------------------- removal

  /** Closing one history row: only an open row whose lease is stamped changes. */
  function CloseSegment(e: LeaseEvent, stamps: map<LeaseId, int>): LeaseEvent {
    if e.endedAt == 0 && e.lease in stamps then e.(endedAt := stamps[e.lease]) else e
  }

  function CloseSegments(events: seq<LeaseEvent>, stamps: map<LeaseId, int>): (r: seq<LeaseEvent>)
    ensures |r| == |events|
    ensures forall k :: 0 <= k < |events| ==> r[k] == CloseSegment(events[k], stamps)
  {
    seq(|events|, k requires 0 <= k < |events| => CloseSegment(events[k], stamps))
  }

  /** Every way a lease leaves the table: its open segment is closed at the
      stamped instant and its row is deleted. */
  function Evict(db: Db, stamps: map<LeaseId, int>): Db {
    db.(leases := db.leases - stamps.Keys, events := CloseSegments(db.events, stamps))
  }

  /** Lapsed leases, each stamped with its own expiry. */
  function Lapsed(db: Db, now: int): map<LeaseId, int> {
    map id | id in db.leases && db.leases[id].expiresAt <= now :: db.leases[id].expiresAt
  }

  function Expire(db: Db, now: int): Db { Evict(db, Lapsed(db, now)) }

  predicate IsSibling(db: Db, id: LeaseId, device: DeviceId, keep: AccountId) {
    id in db.leases && db.leases[id].device == device && db.leases[id].account != keep &&
    keep in db.accounts && db.leases[id].account in db.accounts &&
    db.accounts[db.leases[id].account] == db.accounts[keep]
  }

  /** The device's other leases with the provider of account `keep`. */
  function Siblings(db: Db, device: DeviceId, keep: AccountId, now: int): map<LeaseId, int> {
    map id | id in db.leases && IsSibling(db, id, device, keep) :: now
  }

  // ------------------------------------------------------------------ steps

  function Insert(db: Db, id: LeaseId, account: AccountId, device: DeviceId, now: int, ttl: int): Db {
    db.(leases := db.leases[id := Lease(account, device, now, now + ttl, now)],
        events := db.events + [LeaseEvent(id, account, device, now, 0)])
  }

  function Touch(db: Db, id: LeaseId, expiresAt: int, lastActiveAt: int): Db
    requires id in db.leases
  {
    db.(leases := db.leases[id := db.leases[id].(expiresAt := expiresAt, lastActiveAt := lastActiveAt)])
  }

  /** The history row of `id`, if one is open. */
  predicate HasOpenSegment(db: Db, id: LeaseId) {
    exists k :: 0 <= k < |db.events| && db.events[k].lease == id && db.events[k].endedAt == 0
  }

  /** Backfills a segment for a lease that has none. */
  function EnsureSegment(db: Db, id: LeaseId): Db
    requires id in db.leases
  {
    if HasOpenSegment(db, id) then db
    else
      var l := db.leases[id];
      db.(events := db.events + [LeaseEvent(id, l.account, l.device, l.acquiredAt, 0)])
  }

  ghost predicate Holds(db: Db, id: LeaseId, account: AccountId) {
    id in db.leases && db.leases[id].account == account
  }

  /** The row of `account`, if any. */
  ghost function HolderOf(db: Db, account: AccountId): (r: Option<LeaseId>)
    ensures r.Some? ==> Holds(db, r.value, account)
    ensures r.None? ==> forall id :: !Holds(db, id, account)
  {
    if exists id :: Holds(db, id, account) then var id :| Holds(db, id, account); Some(id) else None
  }

  function FirstGrant(swept: Db, newId: LeaseId, account: AccountId, device: DeviceId, now: int, ttl: int): Db {
    var grown := Insert(swept, newId, account, device, now, ttl);
    Evict(grown, Siblings(grown, device, account, now))
  }

  function Regrant(swept: Db, id: LeaseId, account: AccountId, device: DeviceId, now: int, ttl: int): Db
    requires id in swept.leases
  {
    var kept := Extend(swept, id, now, ttl, 0);
    Evict(kept, Siblings(kept, device, account, now))
  }

  function Extend(db: Db, id: LeaseId, now: int, ttl: int, idle: int): Db
    requires id in db.leases
  {
    EnsureSegment(Touch(db, id, now + ttl, now - idle), id)
  }

  ghost function Acquire(db: Db, newId: LeaseId, account: AccountId, device: DeviceId, now: int, ttl: int)
    : (Db, AcquireResult)
  {
    if newId == 0 || account == 0 || device == 0 || ttl <= 0 then (db, BadArguments)
    else
      var swept := Expire(db, now);
      match HolderOf(swept, account)
      case None =>
        if newId in swept.leases then (db, ConstraintError)
        else (FirstGrant(swept, newId, account, device, now, ttl), Granted(newId))
      case Some(id) =>
        if swept.leases[id].device != device then (db, Locked)
        else (Regrant(swept, id, account, device, now, ttl), Granted(id))
  }

  function Renew(db: Db, id: LeaseId, now: int, ttl: int, idleFor: int): (Db, RenewResult) {
    if id == 0 || ttl <= 0 then (db, BadRenewArguments)
    else if id !in db.leases || db.leases[id].expiresAt <= now then (db, NotFound)
    else (Extend(db, id, now, ttl, if idleFor < 0 then 0 else idleFor), Renewed(id))
  }

  function Release(db: Db, id: LeaseId, now: int): Db {
    if id == 0 then db else Evict(db, map[id := now])
  }

  function ReleaseDevice(db: Db, device: DeviceId, now: int): Db {
    if device == 0 then db
    else Evict(db, map id | id in db.leases && db.leases[id].device == device :: now)
  }

  /** The idle foreign lease that a starved device may take over. */
  ghost predicate IsReclaimable(db: Db, id: LeaseId, account: AccountId, device: DeviceId, threshold: int, now: int) {
    Holds(db, id, account) && db.leases[id].device != device &&
    db.leases[id].expiresAt > now && db.leases[id].lastActiveAt <= now - threshold
  }

  ghost function Reclaimed(db: Db, account: AccountId, device: DeviceId, threshold: int, now: int): (r: Option<LeaseId>)
    ensures r.Some? ==> threshold > 0 && IsReclaimable(db, r.value, account, device, threshold, now)
    ensures r.None? ==> threshold <= 0 || forall id :: !IsReclaimable(db, id, account, device, threshold, now)
  {
    if threshold <= 0 then None
    else if exists id :: IsReclaimable(db, id, account, device, threshold, now)
    then var id :| IsReclaimable(db, id, account, device, threshold, now); Some(id)
    else None
  }

  ghost function ReclaimIdle(db: Db, account: AccountId, device: DeviceId, threshold: int, now: int): Db {
    match Reclaimed(db, account, device, threshold, now)
    case None => db
    case Some(id) => Evict(db, map[id := now])
  }

  // ---------------------------------------------------------------- queries

  ghost predicate LeasedByOther(db: Db, account: AccountId, device: DeviceId, now: int) {
    exists id :: Holds(db, id, account) && db.leases[id].device != device && db.leases[id].expiresAt > now
  }

  ghost predicate LeasedByOtherActive(db: Db, account: AccountId, device: DeviceId, threshold: int, now: int) {
    if threshold <= 0 then LeasedByOther(db, account, device, now)
    else exists id :: Holds(db, id, account) && db.leases[id].device != device && db.leases[id].expiresAt > now &&
                      db.leases[id].lastActiveAt > now - threshold
  }

  /** A live lease of `device` on `account` that no other lease on it shares. */
  ghost predicate HoldsAlone(db: Db, account: AccountId, device: DeviceId, now: int) {
    exists id :: Holds(db, id, account) && db.leases[id].device == device && db.leases[id].expiresAt > now &&
                 forall other :: Holds(db, other, account) ==> other == id
  }

  // ------------------------------------------------------------- invariants

  ghost predicate OneLeasePerAccount(db: Db) {
    forall i, j :: i in db.leases && j in db.leases && db.leases[i].account == db.leases[j].account ==> i == j
  }

  /** Deleted accounts keep their rows, so only accounts that exist count. */
  ghost predicate OneLeasePerDeviceAndProvider(db: Db) {
    forall i, j :: i in db.leases && j in db.leases && SamePool(db, db.leases[i], db.leases[j]) ==> i == j
  }

  predicate SamePool(db: Db, l: Lease, m: Lease) {
    l.device == m.device && l.account in db.accounts && m.account in db.accounts &&
    db.accounts[l.account] == db.accounts[m.account]
  }

  predicate Records(e: LeaseEvent, id: LeaseId, l: Lease) {
    e == LeaseEvent(id, l.account, l.device, l.acquiredAt, 0)
  }

  ghost predicate HasRecord(db: Db, id: LeaseId)
    requires id in db.leases
  {
    exists k :: 0 <= k < |db.events| && Records(db.events[k], id, db.leases[id])
  }

  ghost predicate EveryLeaseHasOpenSegment(db: Db) {
    forall id :: id in db.leases ==> HasRecord(db, id)
  }

  ghost predicate EveryOpenSegmentHasLease(db: Db) {
    forall k :: 0 <= k < |db.events| && db.events[k].endedAt == 0 ==>
      db.events[k].lease in db.leases && Records(db.events[k], db.events[k].lease, db.leases[db.events[k].lease])
  }

  /** A lease id is recorded once, so it never changes account or device. */
  ghost predicate OneSegmentPerLeaseId(db: Db) {
    forall i, j :: 0 <= i < j < |db.events| ==> db.events[i].lease != db.events[j].lease
  }

  predicate EventInOrder(e: LeaseEvent, now: int) {
    1 <= e.startedAt <= now && (e.endedAt != 0 ==> e.startedAt <= e.endedAt <= now)
  }

  predicate LeaseInOrder(l: Lease, now: int) {
    1 <= l.acquiredAt <= now && l.acquiredAt <= l.expiresAt && l.lastActiveAt <= now
  }

  ghost predicate TimesInOrder(db: Db, now: int) {
    && 1 <= now
    && (forall k :: 0 <= k < |db.events| ==> EventInOrder(db.events[k], now))
    && (forall id :: id in db.leases ==> LeaseInOrder(db.leases[id], now))
  }

  /** Each segment of an account ends before the account's next one starts. */
  ghost predicate SegmentsDisjoint(events: seq<LeaseEvent>) {
    forall i, j :: 0 <= i < j < |events| && events[i].account == events[j].account ==>
      events[i].endedAt != 0 && events[i].endedAt <= events[j].startedAt
  }

  /** The two tables agree with each other. */
  ghost predicate InStep(db: Db) {
    EveryLeaseHasOpenSegment(db) && EveryOpenSegmentHasLease(db) && OneSegmentPerLeaseId(db)
  }

  ghost predicate Core(db: Db, now: int) {
    OneLeasePerAccount(db) && InStep(db) && TimesInOrder(db, now) && SegmentsDisjoint(db.events)
  }

  ghost predicate Inv(db: Db, now: int) { Core(db, now) && OneLeasePerDeviceAndProvider(db) }

  predicate Fresh(db: Db, id: LeaseId) {
    forall k :: 0 <= k < |db.events| ==> db.events[k].lease != id
  }

  // ------------------------------------------------- what the steps preserve

  lemma LaterClockKeepsInv(db: Db, before: int, now: int)
    requires before <= now
    ensures Core(db, before) ==> Core(db, now)
    ensures Inv(db, before) ==> Inv(db, now)
  {
  }

  lemma FreshIsNotALease(db: Db, id: LeaseId)
    requires EveryLeaseHasOpenSegment(db) && Fresh(db, id)
    ensures id !in db.leases
  {
    assert id in db.leases ==> HasRecord(db, id);
  }

  ghost predicate StampsFit(db: Db, stamps: map<LeaseId, int>, now: int) {
    forall id :: id in stamps && id in db.leases ==> db.leases[id].acquiredAt <= stamps[id] <= now
  }

  lemma EvictKeepsInStep(db: Db, stamps: map<LeaseId, int>, now: int)
    requires InStep(db) && TimesInOrder(db, now) && StampsFit(db, stamps, now)
    ensures InStep(Evict(db, stamps))
  {
    var d := Evict(db, stamps);
    forall id | id in d.leases
      ensures HasRecord(d, id)
    {
      assert HasRecord(db, id);
      var k :| 0 <= k < |db.events| && Records(db.events[k], id, db.leases[id]);
      assert d.events[k] == db.events[k];
    }
    assert EveryOpenSegmentHasLease(d);
  }

  lemma EvictKeepsTimes(db: Db, stamps: map<LeaseId, int>, now: int)
    requires EveryOpenSegmentHasLease(db) && TimesInOrder(db, now) && StampsFit(db, stamps, now)
    ensures TimesInOrder(Evict(db, stamps), now)
  {
    var d := Evict(db, stamps);
    forall k | 0 <= k < |d.events|
      ensures EventInOrder(d.events[k], now)
    {
      assert EventInOrder(db.events[k], now);
      if d.events[k] != db.events[k] {
        assert Records(db.events[k], db.events[k].lease, db.leases[db.events[k].lease]);
      }
    }
  }

  /** Removing leases at instants between acquisition and now keeps every rule:
      an open segment is the last of its account, so closing it opens no overlap. */
  lemma EvictKeepsCore(db: Db, stamps: map<LeaseId, int>, now: int)
    requires Core(db, now) && StampsFit(db, stamps, now)
    ensures Core(Evict(db, stamps), now)
  {
    EvictKeepsInStep(db, stamps, now);
    EvictKeepsTimes(db, stamps, now);
    var d := Evict(db, stamps);
    assert SegmentsDisjoint(d.events);
  }

  lemma EvictKeepsInv(db: Db, stamps: map<LeaseId, int>, now: int)
    requires Inv(db, now) && StampsFit(db, stamps, now)
    ensures Inv(Evict(db, stamps), now)
  {
    EvictKeepsCore(db, stamps, now);
  }

  lemma InsertKeepsInStep(db: Db, id: LeaseId, account: AccountId, device: DeviceId, now: int, ttl: int)
    requires InStep(db) && Fresh(db, id) && now != 0
    ensures InStep(Insert(db, id, account, device, now, ttl))
  {
    FreshIsNotALease(db, id);
    var d := Insert(db, id, account, device, now, ttl);
    forall i | i in d.leases
      ensures HasRecord(d, i)
    {
      if i == id {
        assert Records(d.events[|db.events|], i, d.leases[i]);
      } else {
        assert HasRecord(db, i);
        var k :| 0 <= k < |db.events| && Records(db.events[k], i, db.leases[i]);
        assert Records(d.events[k], i, d.leases[i]);
      }
    }
  }

  /** Granting a free account keeps every rule: its earlier segments have all ended. */
  lemma InsertKeepsCore(db: Db, id: LeaseId, account: AccountId, device: DeviceId, now: int, ttl: int)
    requires Core(db, now) && ttl > 0 && Fresh(db, id)
    requires forall other :: !Holds(db, other, account)
    ensures Core(Insert(db, id, account, device, now, ttl), now)
  {
    InsertKeepsInStep(db, id, account, device, now, ttl);
    var d := Insert(db, id, account, device, now, ttl);
    assert OneLeasePerAccount(d) by {
      forall i | i in db.leases ensures db.leases[i].account != account {
        assert !Holds(db, i, account);
      }
    }
    assert SegmentsDisjoint(d.events) by {
      forall k | 0 <= k < |db.events| && db.events[k].account == account
        ensures db.events[k].endedAt != 0 && db.events[k].endedAt <= now
      {
        assert !Holds(db, db.events[k].lease, account);
        assert EventInOrder(db.events[k], now);
      }
    }
    assert TimesInOrder(d, now);
  }

  /** On every reachable table the backfill of a missing segment has nothing to do. */
  lemma EnsureSegmentIsIdle(db: Db, id: LeaseId)
    requires EveryLeaseHasOpenSegment(db) && id in db.leases
    ensures EnsureSegment(db, id) == db
  {
    assert HasRecord(db, id);
  }

  lemma TouchKeepsInStep(db: Db, id: LeaseId, expiresAt: int, lastActiveAt: int)
    requires InStep(db) && id in db.leases
    ensures InStep(Touch(db, id, expiresAt, lastActiveAt))
  {
    var d := Touch(db, id, expiresAt, lastActiveAt);
    forall i | i in d.leases
      ensures HasRecord(d, i)
    {
      assert HasRecord(db, i);
      var k :| 0 <= k < |db.events| && Records(db.events[k], i, db.leases[i]);
      assert Records(d.events[k], i, d.leases[i]);
    }
  }

  lemma ExtendKeepsCore(db: Db, id: LeaseId, now: int, ttl: int, idle: int)
    requires Core(db, now) && id in db.leases && ttl > 0 && idle >= 0
    ensures Core(Extend(db, id, now, ttl, idle), now)
    ensures Extend(db, id, now, ttl, idle) == Touch(db, id, now + ttl, now - idle)
  {
    TouchKeepsInStep(db, id, now + ttl, now - idle);
    EnsureSegmentIsIdle(Touch(db, id, now + ttl, now - idle), id);
  }

  lemma ExpireKeepsInv(db: Db, now: int)
    requires Inv(db, now)
    ensures Inv(Expire(db, now), now)
    ensures forall id :: id in Expire(db, now).leases <==> id in db.leases && db.leases[id].expiresAt > now
    ensures forall id :: id in Expire(db, now).leases ==> Expire(db, now).leases[id] == db.leases[id]
  {
    EvictKeepsInv(db, Lapsed(db, now), now);
  }

  /** Evicting the siblings restores the per-(device, provider) rule around `keep`. */
  lemma SiblingsRestoreRule(before: Db, db: Db, id: LeaseId, device: DeviceId, keep: AccountId, now: int)
    requires OneLeasePerDeviceAndProvider(before) && OneLeasePerAccount(db)
    requires Holds(db, id, keep) && db.leases[id].device == device && db.accounts == before.accounts
    requires forall i :: i in db.leases && i != id ==> i in before.leases && before.leases[i] == db.leases[i]
    ensures OneLeasePerDeviceAndProvider(Evict(db, Siblings(db, device, keep, now)))
  {
    var d := Evict(db, Siblings(db, device, keep, now));
    forall i, j | i in d.leases && j in d.leases && SamePool(d, d.leases[i], d.leases[j])
      ensures i == j
    {
      assert !IsSibling(db, i, device, keep) && !IsSibling(db, j, device, keep);
      if i != id && j != id {
        assert SamePool(before, before.leases[i], before.leases[j]);
      }
    }
  }

  /** The grant keeps every rule: one more lease, its siblings gone. */
  lemma GrantKeepsInv(before: Db, db: Db, id: LeaseId, device: DeviceId, keep: AccountId, now: int)
    requires Core(db, now) && OneLeasePerDeviceAndProvider(before)
    requires Holds(db, id, keep) && db.leases[id].device == device && db.accounts == before.accounts
    requires forall i :: i in db.leases && i != id ==> i in before.leases && before.leases[i] == db.leases[i]
    ensures Inv(Evict(db, Siblings(db, device, keep, now)), now)
  {
    SiblingsRestoreRule(before, db, id, device, keep, now);
    assert forall i :: i in db.leases ==> LeaseInOrder(db.leases[i], now);
    EvictKeepsCore(db, Siblings(db, device, keep, now), now);
  }

  lemma ExtendKeepsInv(db: Db, id: LeaseId, now: int, ttl: int, idle: int)
    requires Inv(db, now) && id in db.leases && ttl > 0 && idle >= 0
    ensures Inv(Extend(db, id, now, ttl, idle), now)
  {
    ExtendKeepsCore(db, id, now, ttl, idle);
    var d := Extend(db, id, now, ttl, idle);
    forall i, j | i in d.leases && j in d.leases && SamePool(d, d.leases[i], d.leases[j])
      ensures i == j
    {
      assert SamePool(db, db.leases[i], db.leases[j]);
    }
  }

  lemma FirstGrantKeepsInv(swept: Db, newId: LeaseId, account: AccountId, device: DeviceId, now: int, ttl: int)
    requires Inv(swept, now) && Fresh(swept, newId) && ttl > 0 && HolderOf(swept, account).None?
    ensures newId !in swept.leases
    ensures Inv(FirstGrant(swept, newId, account, device, now, ttl), now)
  {
    FreshIsNotALease(swept, newId);
    InsertKeepsCore(swept, newId, account, device, now, ttl);
    GrantKeepsInv(swept, Insert(swept, newId, account, device, now, ttl), newId, device, account, now);
  }

  lemma RegrantKeepsInv(swept: Db, id: LeaseId, account: AccountId, device: DeviceId, now: int, ttl: int)
    requires Inv(swept, now) && ttl > 0 && Holds(swept, id, account) && swept.leases[id].device == device
    ensures Inv(Regrant(swept, id, account, device, now, ttl), now)
  {
    ExtendKeepsCore(swept, id, now, ttl, 0);
    GrantKeepsInv(swept, Extend(swept, id, now, ttl, 0), id, device, account, now);
  }

  /** Acquire keeps every table rule whatever its outcome, and the table's own
      uniqueness constraints never reject its insert. */
  lemma AcquireKeepsInv(db: Db, newId: LeaseId, account: AccountId, device: DeviceId, now: int, ttl: int)
    requires Inv(db, now) && Fresh(db, newId)
    ensures Inv(Acquire(db, newId, account, device, now, ttl).0, now)
    ensures Acquire(db, newId, account, device, now, ttl).1 != ConstraintError
  {
    if !(newId == 0 || account == 0 || device == 0 || ttl <= 0) {
      var swept := Expire(db, now);
      ExpireKeepsInv(db, now);
      assert Fresh(swept, newId);
      match HolderOf(swept, account) {
        case None => FirstGrantKeepsInv(swept, newId, account, device, now, ttl);
        case Some(id) =>
          if swept.leases[id].device == device {
            RegrantKeepsInv(swept, id, account, device, now, ttl);
          }
      }
    }
  }

  lemma RenewKeepsInv(db: Db, id: LeaseId, now: int, ttl: int, idleFor: int)
    requires Inv(db, now)
    ensures Inv(Renew(db, id, now, ttl, idleFor).0, now)
  {
    if !(id == 0 || ttl <= 0) && id in db.leases && db.leases[id].expiresAt > now {
      ExtendKeepsInv(db, id, now, ttl, if idleFor < 0 then 0 else idleFor);
    }
  }

  lemma RemovalKeepsInv(db: Db, stamps: map<LeaseId, int>, now: int)
    requires Inv(db, now) && forall id :: id in stamps ==> stamps[id] == now
    ensures Inv(Evict(db, stamps), now)
  {
    assert forall id :: id in db.leases ==> LeaseInOrder(db.leases[id], now);
    EvictKeepsInv(db, stamps, now);
  }

  lemma ReleaseKeepsInv(db: Db, id: LeaseId, now: int)
    requires Inv(db, now)
    ensures Inv(Release(db, id, now), now)
  {
    RemovalKeepsInv(db, map[id := now], now);
  }

  lemma ReleaseDeviceKeepsInv(db: Db, device: DeviceId, now: int)
    requires Inv(db, now)
    ensures Inv(ReleaseDevice(db, device, now), now)
  {
    RemovalKeepsInv(db, map id | id in db.leases && db.leases[id].device == device :: now, now);
  }

  lemma ReclaimIdleKeepsInv(db: Db, account: AccountId, device: DeviceId, threshold: int, now: int)
    requires Inv(db, now)
    ensures Inv(ReclaimIdle(db, account, device, threshold, now), now)
  {
    match Reclaimed(db, account, device, threshold, now) {
      case None =>
      case Some(id) => RemovalKeepsInv(db, map[id := now], now);
    }
  }
}
