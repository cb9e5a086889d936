/** A renewal is three statements that no transaction holds together: bump the lease, read
    it back, backfill its history row.  Here other calls may come between them. */
module RenewRaces {
  import opened LeaseTables
  import opened LeaseRuns

  /** A renewal under way: its lease is bumped, then read back as the row to backfill. */
  datatype Renewal = Bumped(id: LeaseId) | Loaded(row: LeaseEvent) | Ended

  /** The tables and the renewals under way; `late` marks the history rows that a backfill
      wrote. */
  datatype State = State(db: Db, renewals: seq<Renewal>, late: seq<bool>)

  datatype Move =
    | Do(op: Op)
    | Bump(id: LeaseId, ttl: int, idleFor: int)
    | Load(renewal: nat)
    | Backfill(renewal: nat)

  datatype Timed = Timed(now: int, move: Move)

  const START := State(EMPTY, [], [])

  function Padded(late: seq<bool>, n: nat): seq<bool> {
    late + seq(if n >= |late| then n - |late| else 0, _ => false)
  }

  function WithDb(s: State, db: Db): State { s.(db := db, late := Padded(s.late, |db.events|)) }

  function RowOf(id: LeaseId, l: Lease): LeaseEvent { LeaseEvent(id, l.account, l.device, l.acquiredAt, 0) }

  predicate Renewable(db: Db, id: LeaseId, now: int, ttl: int) {
    id != 0 && ttl > 0 && id in db.leases && db.leases[id].expiresAt > now
  }

  ghost function Moved(s: State, move: Move, now: int): State {
    match move
    case Do(op) => WithDb(s, Apply(s.db, op, now))
    case Bump(id, ttl, idleFor) =>
      if !Renewable(s.db, id, now, ttl) then s
      else
        s.(db := Touch(s.db, id, now + ttl, now - if idleFor < 0 then 0 else idleFor),
           renewals := s.renewals + [Bumped(id)])
    case Load(i) =>
      if i >= |s.renewals| || !s.renewals[i].Bumped? then s
      else
        var id := s.renewals[i].id;
        s.(renewals := s.renewals[i := if id in s.db.leases then Loaded(RowOf(id, s.db.leases[id])) else Ended])
    case Backfill(i) =>
      if i >= |s.renewals| || !s.renewals[i].Loaded? then s
      else
        var row, done := s.renewals[i].row, s.renewals[i := Ended];
        if HasOpenSegment(s.db, row.lease) then s.(renewals := done)
        else State(s.db.(events := s.db.events + [row]), done, s.late + [true])
  }

  function ClockOf(run: seq<Timed>): int { if run == [] then 1 else run[|run| - 1].now }

  ghost function Ran(run: seq<Timed>): State {
    if run == [] then START
    else var last := run[|run| - 1]; Moved(Ran(run[..|run| - 1]), last.move, last.now)
  }

  ghost predicate IsRace(run: seq<Timed>) {
    run != [] ==>
      var before, last := run[..|run| - 1], run[|run| - 1];
      IsRace(before) && ClockOf(before) <= last.now &&
      (last.move.Do? ==> Allowed(Ran(before).db, last.move.op))
  }

  /** With nothing in between, the three statements are the renewal in one step. */
  lemma UndisturbedIsRenew(s: State, id: LeaseId, now: int, ttl: int, idleFor: int)
    ensures var n := |s.renewals|;
            var bumped := Moved(s, Bump(id, ttl, idleFor), now);
            Moved(Moved(bumped, Load(n), now), Backfill(n), now).db == Renew(s.db, id, now, ttl, idleFor).0
  {
  }

  // ------------------------------------------------------- the rows that are not late

  function Timely(events: seq<LeaseEvent>, late: seq<bool>): (r: seq<LeaseEvent>)
    requires |events| == |late|
  {
    if events == [] then []
    else
      var n := |events| - 1;
      Timely(events[..n], late[..n]) + if late[n] then [] else [events[n]]
  }

  lemma TimelyGrows(events: seq<LeaseEvent>, late: seq<bool>, e: LeaseEvent, isLate: bool)
    requires |events| == |late|
    ensures Timely(events + [e], late + [isLate]) == Timely(events, late) + if isLate then [] else [e]
  {
    assert (events + [e])[..|events|] == events && (late + [isLate])[..|late|] == late;
  }

  lemma {:induction false} TimelyClosed(events: seq<LeaseEvent>, late: seq<bool>, stamps: map<LeaseId, int>)
    requires |events| == |late|
    ensures Timely(CloseSegments(events, stamps), late) == CloseSegments(Timely(events, late), stamps)
  {
    if events == [] {
    } else {
      var n := |events| - 1;
      TimelyClosed(events[..n], late[..n], stamps);
      assert CloseSegments(events, stamps)[..n] == CloseSegments(events[..n], stamps);
      ClosedGrows(Timely(events[..n], late[..n]), events[n], stamps);
    }
  }

  lemma ClosedGrows(events: seq<LeaseEvent>, e: LeaseEvent, stamps: map<LeaseId, int>)
    ensures CloseSegments(events + [e], stamps) == CloseSegments(events, stamps) + [CloseSegment(e, stamps)]
  {
  }

  /** The history row at `k` was written in time and is for this lease. */
  predicate InTime(s: State, id: LeaseId, k: nat) {
    k < |s.db.events| && k < |s.late| && !s.late[k] && s.db.events[k].lease == id
  }

  lemma {:induction false} TimelyHas(events: seq<LeaseEvent>, late: seq<bool>, e: LeaseEvent) returns (k: nat)
    requires |events| == |late| && e in Timely(events, late)
    ensures k < |events| && !late[k] && events[k] == e
  {
    var n := |events| - 1;
    if e in Timely(events[..n], late[..n]) {
      k := TimelyHas(events[..n], late[..n], e);
    } else {
      k := n;
    }
  }

  lemma {:induction false} AllTimely(events: seq<LeaseEvent>, late: seq<bool>)
    requires |events| == |late| && true !in late
    ensures Timely(events, late) == events
  {
    if events == [] {
    } else {
      var n := |events| - 1;
      assert late == late[..n] + [late[n]] && events == events[..n] + [events[n]];
      AllTimely(events[..n], late[..n]);
    }
  }

  // ------------------------------------------------------------ the run with renewals whole

  /** The same run with each bump a renewal in one step, and no statements after it. */
  function Whole(run: seq<Timed>): seq<Step> {
    if run == [] then []
    else
      var before, last := Whole(run[..|run| - 1]), run[|run| - 1];
      match last.move
      case Do(op) => before + [Step(last.now, op)]
      case Bump(id, ttl, idleFor) => before + [Step(last.now, RenewOp(id, ttl, idleFor))]
      case _ => before
  }

  ghost function MovedWhole(db: Db, move: Move, now: int): Db {
    match move
    case Do(op) => Apply(db, op, now)
    case Bump(id, ttl, idleFor) => Renew(db, id, now, ttl, idleFor).0
    case _ => db
  }

  /** The same tables, but for the late rows. */
  ghost predicate Mirrors(s: State, db: Db) {
    && |s.late| == |s.db.events|
    && s.db.leases == db.leases && s.db.accounts == db.accounts
    && Timely(s.db.events, s.late) == db.events
  }

  lemma EvictMirrors(s: State, db: Db, stamps: map<LeaseId, int>)
    requires Mirrors(s, db)
    ensures Mirrors(s.(db := Evict(s.db, stamps)), Evict(db, stamps))
  {
    TimelyClosed(s.db.events, s.late, stamps);
  }

  lemma InsertMirrors(s: State, db: Db, id: LeaseId, account: AccountId, device: DeviceId, now: int, ttl: int)
    requires Mirrors(s, db)
    ensures Mirrors(s.(db := Insert(s.db, id, account, device, now, ttl), late := s.late + [false]),
                    Insert(db, id, account, device, now, ttl))
  {
    TimelyGrows(s.db.events, s.late, LeaseEvent(id, account, device, now, 0), false);
  }

  /** A lease in the table has its row in time, so there is nothing to backfill. */
  lemma LeaseIsInTime(s: State, db: Db, id: LeaseId) returns (k: nat)
    requires Mirrors(s, db) && EveryLeaseHasOpenSegment(db) && id in db.leases
    ensures InTime(s, id, k) && HasOpenSegment(s.db, id)
  {
    assert HasRecord(db, id);
    var j :| 0 <= j < |db.events| && Records(db.events[j], id, db.leases[id]);
    k := TimelyHas(s.db.events, s.late, db.events[j]);
  }

  lemma ExtendMirrors(s: State, db: Db, id: LeaseId, now: int, ttl: int, idle: int)
    requires Mirrors(s, db) && EveryLeaseHasOpenSegment(db) && id in db.leases
    ensures Mirrors(s.(db := Extend(s.db, id, now, ttl, idle)), Extend(db, id, now, ttl, idle))
    ensures Extend(s.db, id, now, ttl, idle) == Touch(s.db, id, now + ttl, now - idle)
  {
    var k := LeaseIsInTime(s, db, id);
    assert HasRecord(db, id);
    assert HasOpenSegment(Touch(s.db, id, now + ttl, now - idle), id);
    assert HasOpenSegment(Touch(db, id, now + ttl, now - idle), id);
  }

  lemma HolderIsTheSame(a: Db, b: Db, account: AccountId)
    requires a.leases == b.leases && OneLeasePerAccount(a)
    ensures HolderOf(a, account) == HolderOf(b, account)
  {
    assert forall id :: Holds(a, id, account) <==> Holds(b, id, account);
  }

  lemma ReclaimedIsTheSame(a: Db, b: Db, account: AccountId, device: DeviceId, threshold: int, now: int)
    requires a.leases == b.leases && OneLeasePerAccount(a)
    ensures Reclaimed(a, account, device, threshold, now) == Reclaimed(b, account, device, threshold, now)
  {
    assert forall id :: IsReclaimable(a, id, account, device, threshold, now) <==>
                        IsReclaimable(b, id, account, device, threshold, now);
  }

  lemma PaddedIs(late: seq<bool>)
    ensures Padded(late, |late|) == late && Padded(late, |late| + 1) == late + [false]
  {
  }

  lemma FirstGrantMirrors(s: State, db: Db, id: LeaseId, account: AccountId, device: DeviceId, now: int, ttl: int)
    requires Mirrors(s, db)
    ensures Mirrors(WithDb(s, FirstGrant(s.db, id, account, device, now, ttl)),
                    FirstGrant(db, id, account, device, now, ttl))
  {
    hide Timely, Padded, CloseSegments;
    PaddedIs(s.late);
    InsertMirrors(s, db, id, account, device, now, ttl);
    var grown := Insert(db, id, account, device, now, ttl);
    var more := s.(db := Insert(s.db, id, account, device, now, ttl), late := s.late + [false]);
    EvictMirrors(more, grown, Siblings(grown, device, account, now));
    assert Siblings(more.db, device, account, now) == Siblings(grown, device, account, now);
  }

  lemma RegrantMirrors(s: State, db: Db, id: LeaseId, account: AccountId, device: DeviceId, now: int, ttl: int)
    requires Mirrors(s, db) && EveryLeaseHasOpenSegment(db) && id in db.leases
    ensures Mirrors(WithDb(s, Regrant(s.db, id, account, device, now, ttl)),
                    Regrant(db, id, account, device, now, ttl))
  {
    hide Timely, Padded, CloseSegments, Extend;
    PaddedIs(s.late);
    ExtendMirrors(s, db, id, now, ttl, 0);
    var kept := Extend(db, id, now, ttl, 0);
    var more := s.(db := Extend(s.db, id, now, ttl, 0));
    EvictMirrors(more, kept, Siblings(kept, device, account, now));
    assert Siblings(more.db, device, account, now) == Siblings(kept, device, account, now);
  }

  lemma AcquireMirrors(s: State, db: Db, newId: LeaseId, account: AccountId, device: DeviceId, now: int, ttl: int)
    requires Mirrors(s, db) && Inv(db, now)
    ensures Mirrors(WithDb(s, Acquire(s.db, newId, account, device, now, ttl).0),
                    Acquire(db, newId, account, device, now, ttl).0)
  {
    hide InStep, TimesInOrder, SegmentsDisjoint, OneLeasePerDeviceAndProvider, EveryLeaseHasOpenSegment, Timely, Padded;
    hide FirstGrant, Regrant;
    PaddedIs(s.late);
    if !(newId == 0 || account == 0 || device == 0 || ttl <= 0) {
      var mine, swept := s.(db := Expire(s.db, now)), Expire(db, now);
      EvictMirrors(s, db, Lapsed(db, now));
      ExpireKeepsInv(db, now);
      HolderIsTheSame(swept, mine.db, account);
      match HolderOf(swept, account)
      case None => FirstGrantMirrors(mine, swept, newId, account, device, now, ttl);
      case Some(id) =>
        OpenSegments(swept, now);
        RegrantMirrors(mine, swept, id, account, device, now, ttl);
    }
  }

  lemma OpenSegments(db: Db, now: int)
    requires Inv(db, now)
    ensures EveryLeaseHasOpenSegment(db) && OneLeasePerAccount(db)
  {
  }

  /** Whatever call is made, the tables mirror those where renewals are whole. */
  lemma OpMirrors(s: State, db: Db, op: Op, now: int)
    requires Mirrors(s, db) && Inv(db, now)
    ensures Mirrors(WithDb(s, Apply(s.db, op, now)), Apply(db, op, now))
  {
    hide Inv, Timely, Padded, Extend, Acquire;
    PaddedIs(s.late);
    match op
    case AcquireOp(newId, account, device, ttl) => AcquireMirrors(s, db, newId, account, device, now, ttl);
    case RenewOp(id, ttl, idleFor) =>
      if Renewable(db, id, now, ttl) {
        OpenSegments(db, now);
        ExtendMirrors(s, db, id, now, ttl, if idleFor < 0 then 0 else idleFor);
      }
    case ReleaseOp(id) => EvictMirrors(s, db, map[id := now]);
    case ReleaseDeviceOp(device) =>
      EvictMirrors(s, db, map id | id in db.leases && db.leases[id].device == device :: now);
    case ReclaimOp(account, device, threshold) =>
      OpenSegments(db, now);
      ReclaimedIsTheSame(db, s.db, account, device, threshold, now);
      if Reclaimed(db, account, device, threshold, now).Some? {
        EvictMirrors(s, db, map[Reclaimed(db, account, device, threshold, now).value := now]);
      }
    case SweepOp => EvictMirrors(s, db, Lapsed(db, now));
    case AddAccountOp(_, _) =>
    case DeleteAccountOp(_) =>
  }

  lemma TimelyAreEvents(s: State, db: Db)
    requires Mirrors(s, db)
    ensures forall e :: e in db.events ==> e in s.db.events
  {
    forall e | e in db.events
      ensures e in s.db.events
    {
      var k := TimelyHas(s.db.events, s.late, e);
    }
  }

  lemma MirrorAllows(s: State, db: Db, op: Op)
    requires Mirrors(s, db) && Allowed(s.db, op)
    ensures Allowed(db, op)
  {
    hide Timely;
    TimelyAreEvents(s, db);
    forall k | 0 <= k < |db.events|
      ensures db.events[k] in s.db.events
    {
      assert db.events[k] in db.events;
    }
  }

  lemma MoveMirrors(s: State, db: Db, move: Move, now: int)
    requires Mirrors(s, db) && Inv(db, now)
    ensures Mirrors(Moved(s, move, now), MovedWhole(db, move, now))
  {
    hide Inv, Timely, Padded, Apply;
    match move
    case Do(op) => OpMirrors(s, db, op, now);
    case Bump(id, ttl, idleFor) =>
      if Renewable(db, id, now, ttl) {
        OpenSegments(db, now);
        ExtendMirrors(s, db, id, now, ttl, if idleFor < 0 then 0 else idleFor);
      }
    case Load(_) =>
    case Backfill(i) =>
      if i < |s.renewals| && s.renewals[i].Loaded? {
        TimelyGrows(s.db.events, s.late, s.renewals[i].row, true);
      }
  }

  /** However the statements of renewals interleave with other calls, the leases are those
      of a run in which every renewal is one step, and so is the history but for the rows
      that a backfill wrote. */
  lemma {:induction false} RacesMirrorWholeRenewals(run: seq<Timed>)
    requires IsRace(run)
    ensures IsRun(Whole(run)) && Clock(Whole(run)) <= ClockOf(run)
    ensures Mirrors(Ran(run), After(Whole(run)))
    ensures Inv(After(Whole(run)), ClockOf(run))
  {
    if run == [] {
    } else {
      hide Mirrors, Moved, Apply, Allowed, Inv;
      var before, last := run[..|run| - 1], run[|run| - 1];
      RacesMirrorWholeRenewals(before);
      var s, db := Ran(before), After(Whole(before));
      LaterClockKeepsInv(db, ClockOf(before), last.now);
      MoveMirrors(s, db, last.move, last.now);
      WholeGrows(before, last);
      ReachableTablesKeepRules(Whole(run));
      LaterClockKeepsInv(After(Whole(run)), Clock(Whole(run)), last.now);
    }
  }

  lemma WholeGrows(before: seq<Timed>, last: Timed)
    requires IsRace(before + [last]) && IsRun(Whole(before)) && Clock(Whole(before)) <= ClockOf(before)
    requires Mirrors(Ran(before), After(Whole(before)))
    ensures var run := before + [last];
            IsRun(Whole(run)) && Clock(Whole(run)) <= ClockOf(run)
    ensures After(Whole(before + [last])) == MovedWhole(After(Whole(before)), last.move, last.now)
  {
    hide Mirrors, Moved, Inv, Ran;
    var run, whole := before + [last], Whole(before);
    assert run[..|run| - 1] == before;
    if last.move.Do? {
      MirrorAllows(Ran(before), After(whole), last.move.op);
      assert (whole + [Step(last.now, last.move.op)])[..|whole|] == whole;
    } else if last.move.Bump? {
      var renew := RenewOp(last.move.id, last.move.ttl, last.move.idleFor);
      assert (whole + [Step(last.now, renew)])[..|whole|] == whole;
    }
  }

  /** So the lease table keeps all its rules. */
  lemma LeasesStayExclusive(run: seq<Timed>)
    requires IsRace(run)
    ensures OneLeasePerAccount(Ran(run).db) && OneLeasePerDeviceAndProvider(Ran(run).db)
    ensures EveryLeaseHasOpenSegment(Ran(run).db)
  {
    hide Ran;
    var s, db := Ran(run), After(Whole(run));
    RacesMirrorWholeRenewals(run);
    forall i, j | i in db.leases && j in db.leases && SamePool(s.db, db.leases[i], db.leases[j])
      ensures i == j
    {
      assert SamePool(db, db.leases[i], db.leases[j]);
    }
    forall id | id in db.leases
      ensures HasRecord(s.db, id)
    {
      assert HasRecord(db, id);
      var j :| 0 <= j < |db.events| && Records(db.events[j], id, db.leases[id]);
      var k := TimelyHas(s.db.events, s.late, db.events[j]);
      assert Records(s.db.events[k], id, s.db.leases[id]);
    }
  }

  // -------------------------------------------------------------------- the late rows

  ghost predicate HasTimelyRow(s: State, id: LeaseId) { exists k: nat :: InTime(s, id, k) }

  /** Renewals under way and late rows are for leases that were granted once. */
  ghost predicate AllGranted(s: State) {
    && (forall i :: 0 <= i < |s.renewals| && s.renewals[i].Bumped? ==> HasTimelyRow(s, s.renewals[i].id))
    && (forall i :: 0 <= i < |s.renewals| && s.renewals[i].Loaded? ==> HasTimelyRow(s, s.renewals[i].row.lease))
    && (forall k :: 0 <= k < |s.late| && k < |s.db.events| && s.late[k] ==> HasTimelyRow(s, s.db.events[k].lease))
  }

  lemma MoveExtendsHistory(s: State, move: Move, now: int)
    requires |s.late| == |s.db.events|
    ensures HistoryExtends(s.db.events, Moved(s, move, now).db.events)
    ensures s.late <= Moved(s, move, now).late
  {
    if move.Do? {
      StepExtendsHistory(s.db, move.op, now);
    }
  }

  lemma TimelyRowStays(s: State, move: Move, now: int, id: LeaseId)
    requires |s.late| == |s.db.events| && HasTimelyRow(s, id)
    ensures HasTimelyRow(Moved(s, move, now), id)
  {
    hide Moved;
    var k: nat :| InTime(s, id, k);
    MoveExtendsHistory(s, move, now);
    assert SameHold(s.db.events[k], Moved(s, move, now).db.events[k]);
    assert InTime(Moved(s, move, now), id, k);
  }

  lemma LeaseHasTimelyRow(s: State, db: Db, now: int, id: LeaseId)
    requires Mirrors(s, db) && Inv(db, now) && id in db.leases
    ensures HasTimelyRow(s, id)
  {
    var k := LeaseIsInTime(s, db, id);
  }

  lemma NewRowsAreTimely(s: State, op: Op, now: int, k: nat)
    requires |s.late| == |s.db.events| && |s.late| <= k < |Moved(s, Do(op), now).late|
    ensures !Moved(s, Do(op), now).late[k]
  {
  }

  lemma MoveKeepsGranted(s: State, db: Db, move: Move, now: int)
    requires Mirrors(s, db) && Inv(db, now) && AllGranted(s)
    ensures AllGranted(Moved(s, move, now))
  {
    hide Inv, HasTimelyRow, Timely, Apply;
    var t := Moved(s, move, now);
    MoveExtendsHistory(s, move, now);
    forall id | HasTimelyRow(s, id)
      ensures HasTimelyRow(t, id)
    {
      TimelyRowStays(s, move, now, id);
    }
    forall id | id in s.db.leases
      ensures HasTimelyRow(t, id)
    {
      LeaseHasTimelyRow(s, db, now, id);
    }
    forall k | 0 <= k < |t.late| && k < |t.db.events| && t.late[k]
      ensures HasTimelyRow(t, t.db.events[k].lease)
    {
      if k < |s.late| {
        assert s.late[k] == t.late[k] && SameHold(s.db.events[k], t.db.events[k]);
      } else if move.Do? {
        NewRowsAreTimely(s, move.op, now, k);
      }
    }
  }

  lemma {:induction false} RacesGrantFirst(run: seq<Timed>)
    requires IsRace(run)
    ensures AllGranted(Ran(run))
  {
    if run == [] {
    } else {
      hide Moved, Mirrors, Inv, AllGranted, Allowed;
      var before, last := run[..|run| - 1], run[|run| - 1];
      RacesGrantFirst(before);
      RacesMirrorWholeRenewals(before);
      LaterClockKeepsInv(After(Whole(before)), ClockOf(before), last.now);
      MoveKeepsGranted(Ran(before), After(Whole(before)), last.move, last.now);
    }
  }

  /** The tables keep every rule if and only if no history row is late. */
  lemma RulesHoldExactlyWithoutLateRows(run: seq<Timed>)
    requires IsRace(run)
    ensures Inv(Ran(run).db, ClockOf(run)) <==> true !in Ran(run).late
  {
    hide Ran, Inv, Timely;
    var s, db := Ran(run), After(Whole(run));
    RacesMirrorWholeRenewals(run);
    RacesGrantFirst(run);
    if true !in s.late {
      AllTimely(s.db.events, s.late);
      assert s.db == db;
    } else {
      var k :| 0 <= k < |s.late| && s.late[k];
      assert HasTimelyRow(s, s.db.events[k].lease);
      var j: nat :| InTime(s, s.db.events[k].lease, j);
      TwiceRecorded(s.db, ClockOf(run), j, k);
    }
  }

  lemma TwiceRecorded(db: Db, now: int, j: nat, k: nat)
    requires j < |db.events| && k < |db.events| && j != k && db.events[j].lease == db.events[k].lease
    ensures !Inv(db, now)
  {
  }

  /** At this moment a backfill finds its lease gone and no row of it open. */
  ghost predicate LandsLate(run: seq<Timed>, moment: nat) {
    moment < |run| && run[moment].move.Backfill? &&
    var s, i := Ran(run[..moment]), run[moment].move.renewal;
    i < |s.renewals| && s.renewals[i].Loaded? &&
    s.renewals[i].row.lease !in s.db.leases && !HasOpenSegment(s.db, s.renewals[i].row.lease)
  }

  lemma LateExactlyAt(run: seq<Timed>)
    requires IsRace(run) && run != []
    ensures var before := run[..|run| - 1];
            true in Ran(run).late <==> true in Ran(before).late || LandsLate(run, |run| - 1)
  {
    hide Inv, Timely, Apply;
    var before, last := run[..|run| - 1], run[|run| - 1];
    var s, t := Ran(before), Ran(run);
    RacesMirrorWholeRenewals(before);
    MoveExtendsHistory(s, last.move, last.now);
    if true in s.late {
      var k :| 0 <= k < |s.late| && s.late[k];
      assert t.late[k];
    }
    match last.move
    case Do(op) =>
      forall k | |s.late| <= k < |t.late|
        ensures !t.late[k]
      {
        NewRowsAreTimely(s, op, last.now, k);
      }
    case Backfill(i) =>
      if i < |s.renewals| && s.renewals[i].Loaded? && s.renewals[i].row.lease in s.db.leases {
        OpenSegments(After(Whole(before)), ClockOf(before));
        var k := LeaseIsInTime(s, After(Whole(before)), s.renewals[i].row.lease);
      }
    case _ =>
  }

  /** In every run, the tables end up keeping every rule if and only if no backfill ever
      found its lease gone. */
  lemma RulesHoldExactlyWhenNoneLandsLate(run: seq<Timed>)
    requires IsRace(run)
    ensures Inv(Ran(run).db, ClockOf(run)) <==> forall moment: nat :: !LandsLate(run, moment)
  {
    RulesHoldExactlyWithoutLateRows(run);
    LateExactlyWhenOneLands(run);
  }

  lemma {:induction false} LateExactlyWhenOneLands(run: seq<Timed>)
    requires IsRace(run)
    ensures true !in Ran(run).late <==> forall moment: nat :: !LandsLate(run, moment)
  {
    hide Ran;
    if run == [] {
      NothingRan();
    } else {
      var before := run[..|run| - 1];
      LateExactlyWhenOneLands(before);
      LateExactlyAt(run);
      forall moment: nat | moment < |before|
        ensures LandsLate(run, moment) <==> LandsLate(before, moment)
      {
        assert before[..moment] == run[..moment];
      }
    }
  }

  lemma NothingRan()
    ensures Ran([]).late == []
  {
  }

  // ------------------------------------------------------------- a late row stays open

  /** A lease that is gone keeps its rows as they are, unless a release names it. */
  lemma GoneRowsStay(db: Db, op: Op, now: int, k: nat)
    requires k < |db.events| && db.events[k].lease !in db.leases && Allowed(db, op)
    requires op != ReleaseOp(db.events[k].lease)
    ensures k < |Apply(db, op, now).events| && Apply(db, op, now).events[k] == db.events[k]
    ensures db.events[k].lease !in Apply(db, op, now).leases
  {
    if op.AcquireOp? {
      GoneRowsStayInAcquire(db, op.newId, op.account, op.device, now, op.ttl, k);
    }
  }

  lemma GoneRowsStayInAcquire(db: Db, newId: LeaseId, account: AccountId, device: DeviceId, now: int, ttl: int, k: nat)
    requires k < |db.events| && db.events[k].lease !in db.leases && Fresh(db, newId)
    ensures var after := Acquire(db, newId, account, device, now, ttl).0;
            k < |after.events| && after.events[k] == db.events[k] && db.events[k].lease !in after.leases
  {
    var swept := Expire(db, now);
    assert swept.events[k] == db.events[k];
    match HolderOf(swept, account)
    case None =>
      var grown := Insert(swept, newId, account, device, now, ttl);
      assert grown.events[k] == db.events[k] && db.events[k].lease !in grown.leases;
    case Some(id) =>
      var kept := Extend(swept, id, now, ttl, 0);
      assert kept.events[k] == db.events[k] && db.events[k].lease !in kept.leases;
  }

  /** So an open row whose lease is gone, as a late one is, goes on counting its device as
      a holder until some release names that lease id again: no sweep, reclaim or later
      grant ends it. */
  lemma {:induction false} GoneRowStaysOpen(run: seq<Timed>, moment: nat, k: nat)
    requires IsRace(run) && moment <= |run|
    requires var s := Ran(run[..moment]);
             k < |s.db.events| && s.db.events[k].endedAt == 0 && s.db.events[k].lease !in s.db.leases
    requires var id := Ran(run[..moment]).db.events[k].lease;
             forall i :: moment <= i < |run| ==> run[i].move != Do(ReleaseOp(id))
    ensures k < |Ran(run).db.events| && Ran(run).db.events[k] == Ran(run[..moment]).db.events[k]
    ensures Ran(run).db.events[k].lease !in Ran(run).db.leases
  {
    if moment == |run| {
      assert run[..moment] == run;
    } else {
      var before, last := run[..|run| - 1], run[|run| - 1];
      assert before[..moment] == run[..moment];
      assert forall i :: moment <= i < |before| ==> before[i] == run[i];
      GoneRowStaysOpen(before, moment, k);
      GoneRowsStayInMove(Ran(before), last.move, last.now, k);
    }
  }

  lemma GoneRowsStayInMove(s: State, move: Move, now: int, k: nat)
    requires k < |s.db.events| && s.db.events[k].lease !in s.db.leases && (move.Do? ==> Allowed(s.db, move.op))
    requires move != Do(ReleaseOp(s.db.events[k].lease))
    ensures var t := Moved(s, move, now).db;
            k < |t.events| && t.events[k] == s.db.events[k] && s.db.events[k].lease !in t.leases
  {
    hide Apply;
    if move.Do? {
      GoneRowsStay(s.db, move.op, now, k);
    }
  }

  // ------------------------------------------------------------------------ a late row

  /** Two devices, one account: `d` renews lease `x`, `e` takes the account as lease `y`. */
  datatype Scene = Scene(account: AccountId, provider: Provider, x: LeaseId, y: LeaseId, d: DeviceId, e: DeviceId,
                         ttl: int)

  predicate Distinct(c: Scene) {
    c.account != 0 && c.x != 0 && c.y != 0 && c.x != c.y && c.d != 0 && c.e != 0 && c.d != c.e && c.ttl > 0
  }

  /** `d` acquires the account. */
  function Opening(c: Scene): seq<Timed> {
    [Timed(1, Do(AddAccountOp(c.account, c.provider)))] +
    [Timed(1, Do(AcquireOp(c.x, c.account, c.d, c.ttl)))]
  }

  /** Its renewal gets as far as reading the lease back. */
  function Renewing(c: Scene): seq<Timed> { Opening(c) + [Timed(1, Bump(c.x, c.ttl, 0))] + [Timed(1, Load(0))] }

  /** Then the lease is released, `e` acquires, and the renewal's backfill comes last. */
  function Handover(c: Scene): seq<Timed> {
    Renewing(c) +
    [Timed(2, Do(ReleaseOp(c.x)))] +
    [Timed(2, Do(AcquireOp(c.y, c.account, c.e, c.ttl)))] +
    [Timed(2, Backfill(0))]
  }

  lemma Grown(run: seq<Timed>, last: Timed)
    ensures Ran(run + [last]) == Moved(Ran(run), last.move, last.now)
    ensures IsRace(run) && ClockOf(run) <= last.now && (last.move.Do? ==> Allowed(Ran(run).db, last.move.op)) ==>
              IsRace(run + [last])
  {
    assert (run + [last])[..|run|] == run;
  }

  lemma NobodyHolds(db: Db, account: AccountId)
    requires forall id :: id in db.leases ==> db.leases[id].account != account
    ensures HolderOf(db, account).None?
  {
  }

  lemma AcquireFree(db: Db, newId: LeaseId, account: AccountId, device: DeviceId, now: int, ttl: int)
    requires newId != 0 && account != 0 && device != 0 && ttl > 0 && db.leases == map[]
    ensures Acquire(db, newId, account, device, now, ttl).0 == Insert(db, newId, account, device, now, ttl)
  {
    assert CloseSegments(db.events, map[]) == db.events;
    assert Expire(db, now) == db;
    NobodyHolds(db, account);
    var grown := Insert(db, newId, account, device, now, ttl);
    assert Siblings(grown, device, account, now) == map[];
    assert CloseSegments(grown.events, map[]) == grown.events;
  }

  lemma OpeningEnds(c: Scene)
    requires Distinct(c)
    ensures IsRace(Opening(c)) && ClockOf(Opening(c)) == 1
    ensures var s := Ran(Opening(c));
            s.db.events == [LeaseEvent(c.x, c.account, c.d, 1, 0)] && s.renewals == [] && s.late == [false] &&
            s.db.leases == map[c.x := Lease(c.account, c.d, 1, 1 + c.ttl, 1)]
  {
    hide Acquire;
    var r1 := [Timed(1, Do(AddAccountOp(c.account, c.provider)))];
    assert [] + r1 == r1;
    Grown([], r1[0]);
    AcquireFree(Ran(r1).db, c.x, c.account, c.d, 1, c.ttl);
    Grown(r1, Timed(1, Do(AcquireOp(c.x, c.account, c.d, c.ttl))));
  }

  lemma BumpAndLoad(s: State, c: Scene)
    requires Distinct(c) && s.db.leases == map[c.x := Lease(c.account, c.d, 1, 1 + c.ttl, 1)] && s.renewals == []
    ensures var t := Moved(Moved(s, Bump(c.x, c.ttl, 0), 1), Load(0), 1);
            t.db.events == s.db.events && t.db.leases.Keys == {c.x} && t.late == s.late &&
            t.renewals == [Loaded(LeaseEvent(c.x, c.account, c.d, 1, 0))]
  {
    hide Apply;
  }

  lemma RenewingEnds(c: Scene)
    requires Distinct(c)
    ensures IsRace(Renewing(c)) && ClockOf(Renewing(c)) == 1
    ensures var s, row := Ran(Renewing(c)), LeaseEvent(c.x, c.account, c.d, 1, 0);
            s.db.events == [row] && s.db.leases.Keys == {c.x} && s.renewals == [Loaded(row)] && s.late == [false]
  {
    hide Moved, Opening, IsRace, Ran;
    OpeningEnds(c);
    var r3 := Opening(c) + [Timed(1, Bump(c.x, c.ttl, 0))];
    Grown(Opening(c), Timed(1, Bump(c.x, c.ttl, 0)));
    BumpAndLoad(Ran(Opening(c)), c);
    Grown(r3, Timed(1, Load(0)));
  }

  /** Between its own statements a renewal can lose its lease, and then record it as held
      again: from then on two devices hold the account at once by the history. */
  lemma HistoryMayOverlap(c: Scene)
    requires Distinct(c)
    ensures var run := Handover(c);
            IsRace(run) && LandsLate(run, |run| - 1) &&
            var events := Ran(run).db.events;
            |events| == 3 && events[1].account == events[2].account && events[1].device != events[2].device &&
            forall t, now :: 2 <= t < now ==> Covers(events[1], t, now) && Covers(events[2], t, now)
  {
    hide Acquire, Renewing;
    RenewingEnds(c);
    var r4 := Renewing(c);
    var r5 := r4 + [Timed(2, Do(ReleaseOp(c.x)))];
    var r6 := r5 + [Timed(2, Do(AcquireOp(c.y, c.account, c.e, c.ttl)))];
    var r7 := r6 + [Timed(2, Backfill(0))];
    Grown(r4, r5[|r4|]);
    assert Ran(r5).db.leases == map[];
    AcquireFree(Ran(r5).db, c.y, c.account, c.e, 2, c.ttl);
    Grown(r5, r6[|r5|]);
    Grown(r6, r7[|r6|]);
    assert r7[..|r7| - 1] == r6;
  }
}
