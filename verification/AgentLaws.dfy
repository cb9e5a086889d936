/** What a tick does, for every memory, table and answer: when it writes a credential, what
    it remembers afterwards, and what becomes of its leases. */
module AgentLaws {
  import opened Options
  import opened LeaseTables
  import opened LeaseOutcomes
  import opened LeaseRuns
  import opened LeaseClosings
  import opened Agents

  predicate Live(db: Db, id: LeaseId, now: int) { id in db.leases && db.leases[id].expiresAt > now }

  predicate Idle(input: Input) { input.idleFor >= input.threshold }

  /** A renewal of `id` is answered with the lease, */
  predicate Renewable(db: Db, id: LeaseId, now: int, input: Input) {
    input.renewFate == Answered && id != 0 && input.ttl > 0 && Live(db, id, now)
  }

  /** ... or with the news that it is gone. */
  predicate Gone(db: Db, id: LeaseId, now: int, input: Input) {
    input.renewFate == Answered && id != 0 && input.ttl > 0 && !Live(db, id, now)
  }

  /** The vault would decide on an acquire, and its answer arrive. */
  predicate Reachable(db: Db, account: AccountId, input: Input) {
    input.acquireFate == Answered && account in db.accounts
  }

  predicate ProperAcquire(account: AccountId, device: DeviceId, input: Input) {
    input.newId != 0 && account != 0 && device != 0 && input.ttl > 0
  }

  /** An acquire is answered with a lease: allowed, and no other device has a live lease. */
  ghost predicate Leasable(db: Db, account: AccountId, device: DeviceId, now: int, input: Input) {
    Reachable(db, account, input) && input.allowed && ProperAcquire(account, device, input) &&
    !LeasedByOther(db, account, device, now)
  }

  /** An acquire is answered with a refusal: another device has the account. */
  ghost predicate Lost(db: Db, account: AccountId, device: DeviceId, now: int, input: Input) {
    Reachable(db, account, input) && input.allowed && ProperAcquire(account, device, input) &&
    LeasedByOther(db, account, device, now)
  }

  lemma AcquireGives(db: Db, account: AccountId, device: DeviceId, now: int, input: Input)
    requires Inv(db, now) && Fresh(db, input.newId)
    ensures var answer := VaultAcquire(db, account, device, now, input).1;
            (answer.Given? <==> Leasable(db, account, device, now, input)) &&
            (answer.LeaseLocked? <==> Lost(db, account, device, now, input)) &&
            (answer.NoAvailable? <==> Reachable(db, account, input) && !input.allowed) &&
            !answer.LeaseNotFound? && !answer.Parked?
    ensures !VaultAcquire(db, account, device, now, input).1.Given? && input.acquireFate == Answered ==>
              VaultAcquire(db, account, device, now, input).0 == db
  {
    if ProperAcquire(account, device, input) {
      LockedExactlyWhenHeldElsewhere(db, input.newId, account, device, now, input.ttl);
    }
  }

  lemma RenewGives(db: Db, id: LeaseId, now: int, input: Input)
    requires Inv(db, now)
    ensures var (after, answer) := VaultRenew(db, id, now, input);
            (answer.Given? <==> Renewable(db, id, now, input)) && (answer.Given? ==> answer.id == id) &&
            (answer.LeaseNotFound? <==> Gone(db, id, now, input)) &&
            (answer.Given? || answer.LeaseNotFound? || answer.Failed?) &&
            (answer.LeaseNotFound? ==> after == db)
  {
  }

  /** A renewal, carried out or not, leaves open to whom the account may be leased. */
  lemma RenewKeepsOthers(db: Db, id: LeaseId, now: int, input: Input, account: AccountId, device: DeviceId)
    requires Inv(db, now)
    ensures var after := VaultRenew(db, id, now, input).0;
            LeasedByOther(after, account, device, now) <==> LeasedByOther(db, account, device, now)
    ensures VaultRenew(db, id, now, input).0.accounts == db.accounts
    ensures Fresh(db, input.newId) ==> Fresh(VaultRenew(db, id, now, input).0, input.newId)
  {
    var after := VaultRenew(db, id, now, input).0;
    VaultRenewAdvances(db, id, now, input);
    RowsOutlive(db, after, account, device, now);
    RowsOutlive(after, db, account, device, now);
  }

  lemma RowsOutlive(db: Db, after: Db, account: AccountId, device: DeviceId, now: int)
    requires forall o :: Live(db, o, now) ==>
               Live(after, o, now) && after.leases[o].account == db.leases[o].account &&
               after.leases[o].device == db.leases[o].device
    ensures LeasedByOther(db, account, device, now) ==> LeasedByOther(after, account, device, now)
  {
    if o :| Holds(db, o, account) && db.leases[o].device != device && db.leases[o].expiresAt > now {
      assert Live(db, o, now);
      assert Holds(after, o, account);
    }
  }

  /** An acquire after a renewal, whatever became of that, is decided as before it. */
  lemma RenewThenAcquire(db: Db, id: LeaseId, account: AccountId, device: DeviceId, now: int, asked: Input,
                         input: Input)
    requires Inv(db, now) && Fresh(db, input.newId) && asked == input.(idleFor := asked.idleFor)
    ensures var (between, answer) := VaultRenew(db, id, now, asked);
            var after := VaultAcquire(between, account, device, now, input).1;
            Inv(between, now) && Fresh(between, input.newId) &&
            between.leases.Keys == db.leases.Keys && between.events == db.events &&
            (answer.Given? <==> Renewable(db, id, now, input)) && (answer.Given? ==> answer.id == id) &&
            (after.Given? <==> Leasable(db, account, device, now, input)) &&
            (Leasable(between, account, device, now, input) <==> Leasable(db, account, device, now, input)) &&
            (after.LeaseLocked? <==> Lost(db, account, device, now, input))
  {
    hide LeasedByOther, Inv;
    RenewGives(db, id, now, asked);
    RenewKeepsOthers(db, id, now, asked, account, device);
    VaultRenewAdvances(db, id, now, asked);
    AcquireGives(VaultRenew(db, id, now, asked).0, account, device, now, input);
  }

  /** A pick that reclaims takes an account over from an idle holder: then an acquire gets the
      lease exactly when no other device is active on the account, and else when none has it. */
  lemma LeasableAfterPick(db: Db, x: AccountId, device: DeviceId, now: int, input: Input)
    requires Inv(db, now) && input.pick.Picked? && input.pick.account == x
    ensures Leasable(AfterPick(db, device, now, input), x, device, now, input) <==>
            Reachable(db, x, input) && input.allowed && ProperAcquire(x, device, input) &&
            !(if input.pick.reclaims then LeasedByOtherActive(db, x, device, input.threshold, now)
              else LeasedByOther(db, x, device, now))
  {
    if input.pick.reclaims {
      if LeasedByOtherActive(db, x, device, input.threshold, now) {
        ActiveHolderStays(db, x, device, input.threshold, now);
      } else {
        NothingForeignRemains(db, x, device, input.threshold, now);
      }
    }
  }

  lemma ActiveHolderStays(db: Db, x: AccountId, device: DeviceId, threshold: int, now: int)
    requires Inv(db, now) && LeasedByOtherActive(db, x, device, threshold, now)
    ensures LeasedByOther(ReclaimIdle(db, x, device, threshold, now), x, device, now)
  {
    ActiveExactlyWhenNotReclaimable(db, x, device, threshold, now);
    assert Reclaimed(db, x, device, threshold, now).None?;
  }

  // ----------------------------------------------------------- RemoteManager

  /** The tick does nothing at all: idle, and without a lease to keep up. */
  predicate Gated(a: Agent, input: Input) { Idle(input) && a.lease == 0 }

  predicate Chose(input: Input, x: AccountId) {
    input.pick.Picked? && input.pick.account == x && input.pick.usable
  }

  predicate Keeps(a: Agent, account: AccountId) { a.lease != 0 && a.account == account }

  /** The manager gets the account's lease: renewed, or acquired where it holds none on the
      account, or where the one it held is gone and it is active. */
  ghost predicate RemoteGets(a: Agent, db: Db, account: AccountId, now: int, input: Input) {
    if !Keeps(a, account) then Leasable(db, account, a.device, now, input)
    else Renewable(db, a.lease, now, input) ||
         (Gone(db, a.lease, now, input) && !Idle(input) && Leasable(db, account, a.device, now, input))
  }

  lemma EnsureGives(a: Agent, db: Db, account: AccountId, now: int, input: Input)
    requires Inv(db, now) && Fresh(db, input.newId) && !a.coordinator
    ensures var (b, after, answer) := EnsureLease(a, db, account, now, input);
            (answer.Given? <==> RemoteGets(a, db, account, now, input)) && (answer.Given? ==> b == a)
  {
    if Keeps(a, account) {
      RenewGives(db, a.lease, now, input);
      if Gone(db, a.lease, now, input) {
        AcquireGives(db, account, a.device, now, input);
      }
    } else {
      AcquireGives(db, account, a.device, now, input);
    }
  }

  /** When a RemoteManager tick writes: exactly when it is not gated, has a usable pick,
      gets the lease, finds another credential in storage and has its backup. */
  lemma RemoteWritesExactlyWhen(a: Agent, db: Db, now: int, input: Input, x: AccountId)
    requires Inv(db, now) && Fresh(db, input.newId) && !a.coordinator
    ensures RemoteTick(a, db, now, input).saved == Some(x) <==>
            !Gated(a, input) && Chose(input, x) &&
            input.loaded && !input.inPlace && input.ready &&
            RemoteGets(a, AfterPick(db, a.device, now, input), x, now, input)
  {
    PickAdvances(db, a.device, now, input);
    if input.pick.Picked? {
      EnsureGives(a, AfterPick(db, a.device, now, input), input.pick.account, now, input);
    }
  }

  /** The tick goes on to ask for a lease it does not have. */
  predicate RemoteAsks(a: Agent, db: Db, account: AccountId, now: int, input: Input) {
    !Keeps(a, account) || (Gone(db, a.lease, now, input) && !Idle(input))
  }

  /** The remembered lease that covers the account, and the device's own. */
  ghost predicate Covered(o: Outcome, account: AccountId) {
    Holds(o.db, o.agent.lease, account) && o.db.leases[o.agent.lease].device == o.agent.device
  }

  lemma EnsureCovers(a: Agent, db: Db, account: AccountId, now: int, input: Input)
    requires Inv(db, now) && Fresh(db, input.newId) && !a.coordinator && Coherent(a, db)
    ensures var (b, after, answer) := EnsureLease(a, db, account, now, input);
            answer.Given? ==> Holds(after, answer.id, account) && after.leases[answer.id].device == a.device
  {
    if Keeps(a, account) {
      VaultRenewAdvances(db, a.lease, now, input);
      var (renewed, first) := VaultRenew(db, a.lease, now, input);
      if first.Given? {
        GivenIsUnique(db, a.lease, a.account, a.device);
      } else {
        SwitchHolds(a, renewed, account, now, input);
      }
    } else {
      SwitchHolds(a, db, account, now, input);
    }
  }

  /** What a manager that got its lease remembers: the account and that lease once the
      credential is in place, written or found there; and until then what it did before. */
  lemma RemoteRemembersWhatItPlaced(a: Agent, db: Db, now: int, input: Input, x: AccountId)
    requires Inv(db, now) && Fresh(db, input.newId) && !a.coordinator && Coherent(a, db)
    requires !Gated(a, input) && Chose(input, x)
    requires RemoteGets(a, AfterPick(db, a.device, now, input), x, now, input)
    ensures var o := RemoteTick(a, db, now, input);
            if input.loaded && (input.inPlace || (input.ready && input.written && input.marked))
            then o.agent == a.(account := x, lease := o.agent.lease) && Covered(o, x)
            else o.agent == a
  {
    var picked := AfterPick(db, a.device, now, input);
    PickAdvances(db, a.device, now, input);
    CoherenceSurvives(a, db, picked);
    EnsureGives(a, picked, x, now, input);
    EnsureCovers(a, picked, x, now, input);
  }

  /** What it remembers when it did not get the lease.  A slot lost to another device is
      forgotten with its account; an idle manager's lost lease alone; a refused provider
      counts as an empty pool; and any other failure leaves the memory for the next tick. */
  lemma RemoteWithoutLease(a: Agent, db: Db, now: int, input: Input, x: AccountId)
    requires Inv(db, now) && Fresh(db, input.newId) && !a.coordinator
    requires !Gated(a, input) && Chose(input, x)
    requires !RemoteGets(a, AfterPick(db, a.device, now, input), x, now, input)
    ensures var o, picked := RemoteTick(a, db, now, input), AfterPick(db, a.device, now, input);
            if RemoteAsks(a, picked, x, now, input) && Lost(picked, x, a.device, now, input)
            then o == Outcome(a.(account := 0, lease := 0), picked, None)
            else if Keeps(a, x) && Gone(picked, a.lease, now, input) && Idle(input)
            then o == Outcome(a.(lease := 0), picked, None)
            else if RemoteAsks(a, picked, x, now, input) && Reachable(picked, x, input) && !input.allowed
            then o == RemoteTick(a, picked, now, input.(pick := NothingAvailable))
            else o.agent == a && o.saved == None
  {
    var picked := AfterPick(db, a.device, now, input);
    PickAdvances(db, a.device, now, input);
    EnsureGives(a, picked, x, now, input);
    if Keeps(a, x) {
      RenewGives(picked, a.lease, now, input);
    }
    if RemoteAsks(a, picked, x, now, input) {
      AcquireGives(picked, x, a.device, now, input);
    }
  }

  /** Nothing to choose from: once the native credential is back and the lease, if any,
      released, the manager has forgotten both; until then it remembers them and goes on
      holding what it held. */
  lemma RemoteRestores(a: Agent, db: Db, now: int, input: Input)
    requires Inv(db, now) && !a.coordinator && !Gated(a, input) && input.pick == NothingAvailable
    ensures var o := RemoteTick(a, db, now, input);
            o.saved == None &&
            o.agent == (if input.restored && (a.lease == 0 || input.releaseFate == Answered)
                        then a.(account := 0, lease := 0) else a) &&
            (forall id :: id in o.db.leases <==>
               id in db.leases && !(id == a.lease && id != 0 && input.restored && input.releaseFate != NotSent)) &&
            (forall id :: id in o.db.leases ==> o.db.leases[id] == db.leases[id])
  {
  }

  lemma RemoteStandsBy(a: Agent, db: Db, now: int, input: Input)
    requires !a.coordinator
    requires Gated(a, input) || input.pick == PickFailed || (input.pick.Picked? && !input.pick.usable)
    ensures RemoteTick(a, db, now, input) ==
            Outcome(a, if Gated(a, input) then db else AfterPick(db, a.device, now, input), None)
  {
  }

  /** A renewal reports the tick's own idle time and changes nothing else. */
  lemma RemoteRenewsInPlace(a: Agent, db: Db, now: int, input: Input, x: AccountId)
    requires Inv(db, now) && Fresh(db, input.newId) && !a.coordinator && Keeps(a, x)
    requires Chose(input, x)
    requires Renewable(AfterPick(db, a.device, now, input), a.lease, now, input)
    ensures var o, picked := RemoteTick(a, db, now, input), AfterPick(db, a.device, now, input);
            var row := picked.leases[a.lease];
            o.db == picked.(leases := picked.leases[a.lease :=
              row.(expiresAt := now + input.ttl, lastActiveAt := now - if input.idleFor < 0 then 0 else input.idleFor)])
  {
    var picked := AfterPick(db, a.device, now, input);
    PickAdvances(db, a.device, now, input);
    RenewGives(picked, a.lease, now, input);
    RenewedIsLive(picked, a.lease, now, input.ttl, input.idleFor);
  }

  /** The device's lease on the account is the only one it still has from this agent. */
  ghost predicate LetGo(a: Agent, o: Outcome, x: AccountId) {
    exists id :: Holds(o.db, id, x) && o.db.leases[id].device == a.device &&
                 (a.lease in {0, id} || a.lease !in o.db.leases)
  }

  lemma EnsureLetsGo(a: Agent, db: Db, account: AccountId, now: int, input: Input)
    requires Inv(db, now) && Fresh(db, input.newId) && !a.coordinator && input.releaseFate != NotSent
    ensures var (b, after, answer) := EnsureLease(a, db, account, now, input);
            answer.Given? && a.lease != 0 ==> a.lease == answer.id || a.lease !in after.leases
  {
    hide Inv, Fresh, Leasable, Lost, Renewable, VaultRenew, VaultAcquire, Switch;
    RenewThenAcquire(db, a.lease, account, a.device, now, input, input);
    ReleasedIsGone(a, db, account, now, input);
    ReleasedIsGone(a, VaultRenew(db, a.lease, now, input).0, account, now, input);
  }

  lemma SwitchGives(a: Agent, db: Db, account: AccountId, now: int, input: Input)
    ensures var (b, after, answer) := Switch(a, db, account, now, input);
            answer == VaultAcquire(db, account, a.device, now, input).1 &&
            (answer.Given? ==> b == if a.coordinator then a.(lease := answer.id) else a) &&
            (answer.LeaseLocked? ==> b == a.(account := 0, lease := 0)) &&
            (!answer.Given? && !answer.LeaseLocked? ==> b == a) &&
            (!answer.Given? ==> after == VaultAcquire(db, account, a.device, now, input).0)
  {
  }

  lemma ReleasedIsGone(a: Agent, db: Db, account: AccountId, now: int, input: Input)
    requires input.releaseFate != NotSent
    ensures var (b, after, answer) := Switch(a, db, account, now, input);
            answer.Given? && a.lease != 0 ==> a.lease == answer.id || a.lease !in after.leases
  {
  }

  lemma RemoteLetsGo(a: Agent, db: Db, now: int, input: Input, x: AccountId)
    requires Inv(db, now) && Fresh(db, input.newId) && !a.coordinator && Coherent(a, db)
    requires !Gated(a, input) && Chose(input, x) && input.releaseFate != NotSent
    requires RemoteGets(a, AfterPick(db, a.device, now, input), x, now, input)
    ensures LetGo(a, RemoteTick(a, db, now, input), x)
  {
    hide Inv, Fresh, RemoteGets, Coherent, EnsureLease, AfterPick;
    var picked := AfterPick(db, a.device, now, input);
    PickAdvances(db, a.device, now, input);
    CoherenceSurvives(a, db, picked);
    EnsureGives(a, picked, x, now, input);
    EnsureCovers(a, picked, x, now, input);
    EnsureLetsGo(a, picked, x, now, input);
    var (_, after, answer) := EnsureLease(a, picked, x, now, input);
    assert RemoteTick(a, db, now, input).db == after && Holds(after, answer.id, x);
  }

  // ------------------------------------------------------------- Coordinator

  /** An idle Coordinator without a lease does nothing, unless a pin asks for this device. */
  predicate Waits(a: Agent, input: Input) { Idle(input) && a.lease == 0 && !input.pinned }

  /** Where a pin asks, the tick counts as active. */
  function IdleTime(a: Agent, input: Input): int { if Idle(input) && a.lease == 0 then 0 else input.idleFor }

  predicate Parks(a: Agent, input: Input) { IdleTime(a, input) >= input.threshold }

  /** The Coordinator gets the account's lease: renewed, or, while active, acquired. */
  ghost predicate CoordinatorGets(a: Agent, db: Db, account: AccountId, now: int, input: Input) {
    (Keeps(a, account) && Renewable(db, a.lease, now, input)) ||
    (!Parks(a, input) && Leasable(db, account, a.device, now, input))
  }

  lemma RefreshGives(a: Agent, db: Db, account: AccountId, now: int, input: Input)
    requires Inv(db, now) && Fresh(db, input.newId) && a.coordinator
    ensures var (b, after, answer) := RefreshLease(a, db, account, now, IdleTime(a, input), input);
            (answer.Given? <==> CoordinatorGets(a, db, account, now, input)) &&
            (answer.Given? ==> b == a.(lease := answer.id))
  {
    hide Inv, Fresh, Leasable, Lost, Renewable, VaultRenew, VaultAcquire, Switch, IdleTime;
    var asked := input.(idleFor := IdleTime(a, input));
    var between := VaultRenew(db, a.lease, now, asked).0;
    if Keeps(a, account) {
      RenewThenAcquire(db, a.lease, account, a.device, now, asked, input);
      SwitchGives(a, between, account, now, input);
    } else {
      AcquireGives(db, account, a.device, now, input);
      SwitchGives(a, db, account, now, input);
    }
  }

  /** When a Coordinator tick writes: exactly when it does not wait, has a pick, gets the
      lease, and has not that very token in place already. */
  lemma CoordinatorWritesExactlyWhen(a: Agent, db: Db, now: int, input: Input, x: AccountId)
    requires Inv(db, now) && Fresh(db, input.newId) && a.coordinator
    ensures CoordinatorTick(a, db, now, input).saved == Some(x) <==>
            !Waits(a, input) && input.pick.Picked? && input.pick.account == x &&
            CoordinatorGets(a, AfterPick(db, a.device, now, input), x, now, input) &&
            !(a.account == x && a.hash == input.tokenHash && input.inPlace) && input.ready
  {
    PickAdvances(db, a.device, now, input);
    if input.pick.Picked? {
      RefreshGives(a, AfterPick(db, a.device, now, input), input.pick.account, now, input);
    }
  }

  /** Idle, without a lease and without a pin for it, the device takes no slot. */
  lemma CoordinatorWaits(a: Agent, db: Db, now: int, input: Input)
    requires a.coordinator && Waits(a, input)
    ensures CoordinatorTick(a, db, now, input) == Outcome(a, db, None)
  {
  }

  /** With a pin it does not wait: "Use now" is obeyed at once. */
  lemma PinIsObeyed(a: Agent, db: Db, now: int, input: Input, x: AccountId)
    requires Inv(db, now) && Fresh(db, input.newId) && a.coordinator
    requires Idle(input) && input.threshold > 0 && a.lease == 0 && input.pinned
    requires input.pick == Picked(x, true, false) && Leasable(db, x, a.device, now, input) && input.ready
    requires !(a.account == x && a.hash == input.tokenHash && input.inPlace)
    ensures CoordinatorTick(a, db, now, input).saved == Some(x)
  {
    CoordinatorWritesExactlyWhen(a, db, now, input, x);
  }

  /** What a Coordinator that got its lease remembers: the new lease in any case, and the
      account and token once they are written. */
  lemma CoordinatorRemembersWhatItWrote(a: Agent, db: Db, now: int, input: Input, x: AccountId)
    requires Inv(db, now) && Fresh(db, input.newId) && a.coordinator && OwnLease(a, db)
    requires !Waits(a, input) && input.pick.Picked? && input.pick.account == x
    requires CoordinatorGets(a, AfterPick(db, a.device, now, input), x, now, input)
    ensures var o, picked := CoordinatorTick(a, db, now, input), AfterPick(db, a.device, now, input);
            var wrote := o.saved == Some(x) && input.written;
            o.agent == (if wrote then a.(account := x, hash := input.tokenHash, lease := o.agent.lease)
                        else a.(lease := o.agent.lease)) &&
            (Covered(o, x) <==> !RenewsAstray(a, picked, x, now, input))
  {
    var picked := AfterPick(db, a.device, now, input);
    PickAdvances(db, a.device, now, input);
    CoherenceSurvives(a, db, picked);
    RefreshGives(a, picked, x, now, input);
    RefreshLeaseHolds(a, picked, x, now, IdleTime(a, input), input);
  }

  lemma WithoutLease(a: Agent, db: Db, now: int, input: Input, x: AccountId)
    requires Inv(db, now) && Fresh(db, input.newId) && a.coordinator && !CoordinatorGets(a, db, x, now, input)
    ensures var (b, after, answer) := RefreshLease(a, db, x, now, IdleTime(a, input), input);
            (Parks(a, input) ==> after.leases.Keys == db.leases.Keys && after.events == db.events) &&
            b == (if Parks(a, input) then if Keeps(a, x) then a.(lease := 0) else a
                  else if Lost(db, x, a.device, now, input) then a.(account := 0, lease := 0) else a)
  {
    hide Inv, Fresh, Leasable, Lost, Renewable, VaultRenew, VaultAcquire, Switch;
    var asked := input.(idleFor := IdleTime(a, input));
    var between := VaultRenew(db, a.lease, now, asked).0;
    if Keeps(a, x) {
      RenewThenAcquire(db, a.lease, x, a.device, now, asked, input);
      SwitchGives(a, between, x, now, input);
    } else {
      AcquireGives(db, x, a.device, now, input);
      SwitchGives(a, db, x, now, input);
    }
  }

  /** What it remembers when it did not get the lease: an idle holder whose renewal did not
      come off parks, keeping the account but not the lease, and acquires nothing; a slot
      lost to another device is forgotten with its account; else the memory stays. */
  lemma CoordinatorWithoutLease(a: Agent, db: Db, now: int, input: Input, x: AccountId)
    requires Inv(db, now) && Fresh(db, input.newId) && a.coordinator
    requires !Waits(a, input) && input.pick.Picked? && input.pick.account == x
    requires !CoordinatorGets(a, AfterPick(db, a.device, now, input), x, now, input)
    ensures var o, picked := CoordinatorTick(a, db, now, input), AfterPick(db, a.device, now, input);
            o.saved == None &&
            (Parks(a, input) ==> o.db.leases.Keys == picked.leases.Keys && o.db.events == picked.events) &&
            o.agent == (if Parks(a, input) then if Keeps(a, x) then a.(lease := 0) else a
                        else if Lost(picked, x, a.device, now, input) then a.(account := 0, lease := 0) else a)
  {
    var picked := AfterPick(db, a.device, now, input);
    PickAdvances(db, a.device, now, input);
    RefreshGives(a, picked, x, now, input);
    WithoutLease(a, picked, now, input, x);
  }

  lemma CoordinatorStandsBy(a: Agent, db: Db, now: int, input: Input)
    requires a.coordinator && !input.pick.Picked?
    ensures CoordinatorTick(a, db, now, input) == Outcome(a, db, None)
  {
  }

  /** A renewal reports the device's own idle time, however long, and changes nothing else. */
  lemma CoordinatorRenewsInPlace(a: Agent, db: Db, now: int, input: Input, x: AccountId)
    requires Inv(db, now) && Fresh(db, input.newId) && a.coordinator && Keeps(a, x)
    requires input.pick.Picked? && input.pick.account == x
    requires Renewable(AfterPick(db, a.device, now, input), a.lease, now, input)
    ensures var o, picked := CoordinatorTick(a, db, now, input), AfterPick(db, a.device, now, input);
            var row := picked.leases[a.lease];
            o.db == picked.(leases := picked.leases[a.lease :=
              row.(expiresAt := now + input.ttl, lastActiveAt := now - if input.idleFor < 0 then 0 else input.idleFor)])
  {
    var picked := AfterPick(db, a.device, now, input);
    PickAdvances(db, a.device, now, input);
    RenewGives(picked, a.lease, now, input);
    RenewedIsLive(picked, a.lease, now, input.ttl, input.idleFor);
  }

  lemma RefreshLetsGo(a: Agent, db: Db, account: AccountId, now: int, input: Input)
    requires Inv(db, now) && Fresh(db, input.newId) && a.coordinator && input.releaseFate != NotSent
    ensures var (b, after, answer) := RefreshLease(a, db, account, now, IdleTime(a, input), input);
            answer.Given? && a.lease != 0 ==> a.lease == answer.id || a.lease !in after.leases
  {
    hide Inv, Fresh, Leasable, Lost, Renewable, VaultRenew, VaultAcquire, Switch;
    var asked := input.(idleFor := IdleTime(a, input));
    RenewThenAcquire(db, a.lease, account, a.device, now, asked, input);
    ReleasedIsGone(a, db, account, now, input);
    ReleasedIsGone(a, VaultRenew(db, a.lease, now, asked).0, account, now, input);
  }

  lemma CoordinatorLetsGo(a: Agent, db: Db, now: int, input: Input, x: AccountId)
    requires Inv(db, now) && Fresh(db, input.newId) && a.coordinator && Coherent(a, db)
    requires !Waits(a, input) && input.pick.Picked? && input.pick.account == x && input.releaseFate != NotSent
    requires CoordinatorGets(a, AfterPick(db, a.device, now, input), x, now, input)
    ensures LetGo(a, CoordinatorTick(a, db, now, input), x)
  {
    hide Fresh, Coherent, CoordinatorGets, RefreshLease, AfterPick, RenewsAstray, HoldsAlone;
    var picked := AfterPick(db, a.device, now, input);
    PickAdvances(db, a.device, now, input);
    CoherenceSurvives(a, db, picked);
    CoherentIsNotAstray(a, picked, x, now, input);
    CoherentOwns(a, picked);
    RefreshGives(a, picked, x, now, input);
    RefreshLeaseHolds(a, picked, x, now, IdleTime(a, input), input);
    RefreshLetsGo(a, picked, x, now, input);
    var (_, after, answer) := RefreshLease(a, picked, x, now, IdleTime(a, input), input);
    assert CoordinatorTick(a, db, now, input).db == after && Holds(after, answer.id, x);
  }

  lemma CoherentOwns(a: Agent, db: Db)
    requires Coherent(a, db)
    ensures OwnLease(a, db)
  {
  }
}
