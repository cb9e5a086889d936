/** Agents driving one lease table: the Codex RemoteManager and the Claude
    Coordinator as tick machines, any number of them, interleaved with any other
    use of the store.  A tick is one step; every outside answer is an input. */
module Agents {
  import opened Options
  import opened LeaseTables
  import opened LeaseOutcomes
  import opened LeaseRuns

  /** The fate of one call to the vault: answered, lost on the way, or carried
      out with its answer lost. */
  datatype Fate = Answered | NotSent | AnswerLost

  datatype Answer = Given(id: LeaseId) | LeaseLocked | LeaseNotFound | NoAvailable | Failed | Parked

  datatype Pick = PickFailed | NothingAvailable | Picked(account: AccountId, usable: bool, reclaims: bool)

  /** An agent's memory.  `hash` is the Coordinator's record of the token it last wrote. */
  datatype Agent = Agent(coordinator: bool, device: DeviceId, account: AccountId, lease: LeaseId, hash: int)

  /** Everything one tick learns from outside. */
  datatype Input = Input(
    idleFor: int, threshold: int, ttl: int,
    pinned: bool,          // an eligible account carries a pin naming this device
    pick: Pick,            // what choosing an account came to
    newId: LeaseId,        // the id the vault would give a new lease
    allowed: bool,         // the device may lease this provider
    renewFate: Fate, acquireFate: Fate, releaseFate: Fate,
    tokenHash: int,        // the chosen account's token
    inPlace: bool,         // the credential is already stored (RemoteManager), still on disk (Coordinator)
    loaded: bool,          // the credential storage could be read
    ready: bool,           // the native backup is in place and the blob could be built
    written: bool,         // the write of the credential succeeds
    marked: bool,          // MarkUsed succeeds
    restored: bool)        // putting the native credential back succeeds

  /** `saved` is the account whose pool credential the tick tried to write. */
  datatype Outcome = Outcome(agent: Agent, db: Db, saved: Option<AccountId>)

  // ------------------------------------------------------------------ vault

  ghost function VaultAcquire(db: Db, account: AccountId, device: DeviceId, now: int, input: Input): (Db, Answer) {
    if input.acquireFate == NotSent || account !in db.accounts then (db, Failed)
    else if !input.allowed then (db, if input.acquireFate == AnswerLost then Failed else NoAvailable)
    else
      var (after, r) := Acquire(db, input.newId, account, device, now, input.ttl);
      (after, if input.acquireFate == AnswerLost then Failed
              else match r case Granted(id) => Given(id) case Locked => LeaseLocked case _ => Failed)
  }

  function VaultRenew(db: Db, id: LeaseId, now: int, input: Input): (Db, Answer) {
    if input.renewFate == NotSent then (db, Failed)
    else
      var (after, r) := Renew(db, id, now, input.ttl, input.idleFor);
      (after, if input.renewFate == AnswerLost then Failed
              else match r case Renewed(i) => Given(i) case NotFound => LeaseNotFound case _ => Failed)
  }

  function VaultRelease(db: Db, id: LeaseId, now: int, input: Input): Db {
    if input.releaseFate == NotSent then db else Release(db, id, now)
  }

  /** Choosing an account may first free an idle foreign lease on it. */
  ghost function AfterPick(db: Db, device: DeviceId, now: int, input: Input): Db {
    match input.pick
    case Picked(account, _, true) => ReclaimIdle(db, account, device, input.threshold, now)
    case _ => db
  }

  /** Acquire `account`, then let go of the lease held before. */
  ghost function Switch(a: Agent, db: Db, account: AccountId, now: int, input: Input): (Agent, Db, Answer) {
    var (after, answer) := VaultAcquire(db, account, a.device, now, input);
    match answer
    case Given(id) =>
      var released := if a.lease != 0 && a.lease != id then VaultRelease(after, a.lease, now, input) else after;
      (if a.coordinator then a.(lease := id) else a, released, answer)
    case LeaseLocked => (a.(account := 0, lease := 0), after, answer)
    case _ => (a, after, answer)
  }

  // ----------------------------------------------------------- RemoteManager

  ghost function EnsureLease(a: Agent, db: Db, account: AccountId, now: int, input: Input): (Agent, Db, Answer) {
    if a.lease != 0 && a.account == account then
      var (after, answer) := VaultRenew(db, a.lease, now, input);
      if answer.Given? || answer != LeaseNotFound then (a, after, answer)
      else if input.idleFor >= input.threshold then (a.(lease := 0), after, Parked)
      else Switch(a, after, account, now, input)
    else Switch(a, db, account, now, input)
  }

  function RestoreNative(a: Agent, db: Db, now: int, input: Input): Outcome {
    if !input.restored then Outcome(a, db, None)
    else if a.lease == 0 then Outcome(a.(account := 0), db, None)
    else
      var after := VaultRelease(db, a.lease, now, input);
      Outcome(if input.releaseFate == Answered then a.(account := 0, lease := 0) else a, after, None)
  }

  ghost function RemoteTick(a: Agent, db: Db, now: int, input: Input): Outcome {
    if input.idleFor >= input.threshold && a.lease == 0 then Outcome(a, db, None)
    else
      var picked := AfterPick(db, a.device, now, input);
      match input.pick
      case PickFailed => Outcome(a, picked, None)
      case NothingAvailable => RestoreNative(a, picked, now, input)
      case Picked(account, usable, _) =>
        if !usable then Outcome(a, picked, None)
        else
          Inject(a, picked, account, now, input)
  }

  /** The tick from the choice of `account` on: lease, then write, then remember. */
  ghost function Inject(a: Agent, db: Db, account: AccountId, now: int, input: Input): Outcome {
    var (b, after, answer) := EnsureLease(a, db, account, now, input);
    match answer
    case Given(id) =>
      if !input.loaded then Outcome(b, after, None)
      else if input.inPlace then Outcome(b.(account := account, lease := id), after, None)
      else if !input.ready then Outcome(b, after, None)
      else if input.written && input.marked then Outcome(b.(account := account, lease := id), after, Some(account))
      else Outcome(b, after, Some(account))
    case NoAvailable => RestoreNative(b, after, now, input)
    case _ => Outcome(b, after, None)
  }

  // ------------------------------------------------------------- Coordinator

  ghost function RefreshLease(a: Agent, db: Db, account: AccountId, now: int, idleFor: int, input: Input)
    : (Agent, Db, Answer)
  {
    if a.lease != 0 && a.account == account then
      var (after, answer) := VaultRenew(db, a.lease, now, input.(idleFor := idleFor));
      if answer.Given? then (a, after, answer)
      else if idleFor >= input.threshold then (a.(lease := 0), after, Parked)
      else Switch(a, after, account, now, input)
    else if idleFor >= input.threshold then (a, db, Parked)
    else Switch(a, db, account, now, input)
  }

  ghost function CoordinatorTick(a: Agent, db: Db, now: int, input: Input): Outcome {
    var gated := input.idleFor >= input.threshold && a.lease == 0;
    if gated && !input.pinned then Outcome(a, db, None)
    else
      var idleFor := if gated then 0 else input.idleFor;
      var picked := AfterPick(db, a.device, now, input);
      match input.pick
      case Picked(account, _, _) =>
        var (b, after, answer) := RefreshLease(a, picked, account, now, idleFor, input);
        if !answer.Given? then Outcome(b, after, None)
        else if b.account == account && b.hash == input.tokenHash && input.inPlace then Outcome(b, after, None)
        else if !input.ready then Outcome(b, after, None)
        else if input.written then Outcome(b.(account := account, hash := input.tokenHash), after, Some(account))
        else Outcome(b, after, Some(account))
      case _ => Outcome(a, picked, None)
  }

  ghost function Tick(a: Agent, db: Db, now: int, input: Input): Outcome {
    if a.coordinator then CoordinatorTick(a, db, now, input) else RemoteTick(a, db, now, input)
  }

  // ---------------------------------------------------------------- coherence

  /** History names `device` and `account` as the holder the lease id was given to. */
  ghost predicate GivenFor(db: Db, id: LeaseId, account: AccountId, device: DeviceId) {
    exists k :: 0 <= k < |db.events| && db.events[k].lease == id && db.events[k].account == account &&
                db.events[k].device == device
  }

  ghost predicate GivenTo(db: Db, id: LeaseId, device: DeviceId) {
    exists k :: 0 <= k < |db.events| && db.events[k].lease == id && db.events[k].device == device
  }

  /** The lease an agent remembers was given to its device ... */
  ghost predicate OwnLease(a: Agent, db: Db) {
    a.lease != 0 ==> GivenTo(db, a.lease, a.device)
  }

  /** ... and for the very account it remembers. */
  ghost predicate Coherent(a: Agent, db: Db) {
    a.lease != 0 ==> GivenFor(db, a.lease, a.account, a.device)
  }

  lemma CoherenceSurvives(a: Agent, db: Db, later: Db)
    requires HistoryExtends(db.events, later.events)
    ensures OwnLease(a, db) ==> OwnLease(a, later)
    ensures Coherent(a, db) ==> Coherent(a, later)
  {
    if a.lease != 0 && GivenTo(db, a.lease, a.device) {
      var k :| 0 <= k < |db.events| && db.events[k].lease == a.lease && db.events[k].device == a.device;
      assert SameHold(db.events[k], later.events[k]);
    }
    if a.lease != 0 && GivenFor(db, a.lease, a.account, a.device) {
      var k :| 0 <= k < |db.events| && db.events[k].lease == a.lease && db.events[k].account == a.account &&
               db.events[k].device == a.device;
      assert SameHold(db.events[k], later.events[k]);
    }
  }

  lemma HistoryExtendsTransitive(x: seq<LeaseEvent>, y: seq<LeaseEvent>, z: seq<LeaseEvent>)
    requires HistoryExtends(x, y) && HistoryExtends(y, z)
    ensures HistoryExtends(x, z)
  {
    forall k | 0 <= k < |x|
      ensures SameHold(x[k], z[k])
    {
      assert SameHold(x[k], y[k]) && SameHold(y[k], z[k]);
    }
  }

  lemma RowsAreGivenFor(db: Db, id: LeaseId)
    requires InStep(db) && id in db.leases
    ensures GivenFor(db, id, db.leases[id].account, db.leases[id].device)
    ensures GivenTo(db, id, db.leases[id].device)
  {
    assert HasRecord(db, id);
  }

  lemma GivenIsUnique(db: Db, id: LeaseId, account: AccountId, device: DeviceId)
    requires InStep(db) && id in db.leases
    ensures GivenFor(db, id, account, device) ==> db.leases[id].account == account
    ensures GivenFor(db, id, account, device) ==> db.leases[id].device == device
    ensures GivenTo(db, id, device) ==> db.leases[id].device == device
  {
    assert HasRecord(db, id);
  }

  // -------------------------------------------------- what the calls promise

  /** What every store call inside a tick keeps. */
  ghost predicate Advances(before: Db, after: Db, now: int) {
    Inv(after, now) && HistoryExtends(before.events, after.events)
  }

  lemma ReleaseAdvances(db: Db, id: LeaseId, now: int, input: Input)
    requires Inv(db, now)
    ensures Advances(db, VaultRelease(db, id, now, input), now)
  {
    ReleaseKeepsInv(db, id, now);
  }

  lemma ReleaseKeepsHold(db: Db, id: LeaseId, kept: LeaseId, account: AccountId, device: DeviceId, now: int,
                         input: Input)
    requires Inv(db, now) && id != kept && Holds(db, kept, account) && HoldsAlone(db, account, device, now)
    ensures var after := VaultRelease(db, id, now, input);
            Holds(after, kept, account) && after.leases[kept] == db.leases[kept] &&
            HoldsAlone(after, account, device, now)
  {
    var after := VaultRelease(db, id, now, input);
    assert Holds(after, kept, account);
    assert forall other :: Holds(after, other, account) ==> Holds(db, other, account);
  }

  lemma VaultAcquireAdvances(db: Db, account: AccountId, device: DeviceId, now: int, input: Input)
    requires Inv(db, now) && Fresh(db, input.newId)
    ensures var (after, answer) := VaultAcquire(db, account, device, now, input);
            Advances(db, after, now) &&
            (answer.Given? ==> Holds(after, answer.id, account) && after.leases[answer.id].device == device &&
                               HoldsAlone(after, account, device, now))
  {
    AcquireKeepsInv(db, input.newId, account, device, now, input.ttl);
    AcquireExtendsHistory(db, input.newId, account, device, now, input.ttl);
    if Acquire(db, input.newId, account, device, now, input.ttl).1.Granted? {
      GrantedIsExclusive(db, input.newId, account, device, now, input.ttl);
    }
  }

  lemma VaultRenewAdvances(db: Db, id: LeaseId, now: int, input: Input)
    requires Inv(db, now)
    ensures var (after, answer) := VaultRenew(db, id, now, input);
            Advances(db, after, now) && after.events == db.events &&
            (answer.Given? ==> answer.id == id && id in db.leases && id in after.leases &&
                               after.leases[id].account == db.leases[id].account &&
                               HoldsAlone(after, db.leases[id].account, db.leases[id].device, now))
  {
    RenewKeepsInv(db, id, now, input.ttl, input.idleFor);
    if Renew(db, id, now, input.ttl, input.idleFor).1.Renewed? {
      RenewedIsLive(db, id, now, input.ttl, input.idleFor);
    }
  }

  /** After a switch that got its lease, the device alone holds the account. */
  lemma SwitchHolds(a: Agent, db: Db, account: AccountId, now: int, input: Input)
    requires Inv(db, now) && Fresh(db, input.newId)
    ensures var (b, after, answer) := Switch(a, db, account, now, input);
            Advances(db, after, now) && b.device == a.device && b.coordinator == a.coordinator && b.hash == a.hash &&
            (answer.Given? ==> b == (if a.coordinator then a.(lease := answer.id) else a) &&
                               Holds(after, answer.id, account) && after.leases[answer.id].device == a.device &&
                               HoldsAlone(after, account, a.device, now)) &&
            (!answer.Given? ==> b == a || b.lease == 0)
  {
    VaultAcquireAdvances(db, account, a.device, now, input);
    var (after, answer) := VaultAcquire(db, account, a.device, now, input);
    if answer.Given? && a.lease != 0 && a.lease != answer.id {
      ReleaseAdvances(after, a.lease, now, input);
      ReleaseKeepsHold(after, a.lease, answer.id, account, a.device, now, input);
      HistoryExtendsTransitive(db.events, after.events, VaultRelease(after, a.lease, now, input).events);
    }
  }

  lemma PickAdvances(db: Db, device: DeviceId, now: int, input: Input)
    requires Inv(db, now) && Fresh(db, input.newId)
    ensures var after := AfterPick(db, device, now, input);
            Advances(db, after, now) && Fresh(after, input.newId)
  {
    if input.pick.Picked? && input.pick.reclaims {
      ReclaimIdleKeepsInv(db, input.pick.account, device, input.threshold, now);
    }
  }

  lemma RestoreAdvances(a: Agent, db: Db, now: int, input: Input)
    requires Inv(db, now)
    ensures var o := RestoreNative(a, db, now, input);
            Advances(db, o.db, now) && o.saved.None? && Remembers(a, o.agent)
  {
    ReleaseAdvances(db, a.lease, now, input);
  }

  /** A lease call that failed leaves the agent's memory alone or drops its lease. */
  predicate Remembers(a: Agent, b: Agent) {
    b.device == a.device && b.coordinator == a.coordinator &&
    (b.lease == 0 || (b.lease == a.lease && b.account == a.account))
  }

  // ------------------------------------------------ one tick of each machine

  lemma EnsureLeaseHolds(a: Agent, db: Db, account: AccountId, now: int, input: Input)
    requires Inv(db, now) && Fresh(db, input.newId) && !a.coordinator && Coherent(a, db)
    ensures var (b, after, answer) := EnsureLease(a, db, account, now, input);
            Advances(db, after, now) && Remembers(a, b) &&
            (answer.Given? ==>
               HoldsAlone(after, account, a.device, now) && GivenFor(after, answer.id, account, a.device))
  {
    var (b, after, answer) := EnsureLease(a, db, account, now, input);
    if a.lease != 0 && a.account == account {
      VaultRenewAdvances(db, a.lease, now, input);
      var (renewed, first) := VaultRenew(db, a.lease, now, input);
      if first.Given? {
        GivenIsUnique(db, a.lease, a.account, a.device);
      } else {
        SwitchHolds(a, renewed, account, now, input);
        HistoryExtendsTransitive(db.events, renewed.events, Switch(a, renewed, account, now, input).1.events);
      }
    } else {
      SwitchHolds(a, db, account, now, input);
    }
    if answer.Given? && answer.id in after.leases && after.leases[answer.id].account == account {
      RowsAreGivenFor(after, answer.id);
    }
  }

  lemma InjectIsSafe(a: Agent, db: Db, account: AccountId, now: int, input: Input)
    requires Inv(db, now) && Fresh(db, input.newId) && !a.coordinator && Coherent(a, db)
    ensures var o := Inject(a, db, account, now, input);
            Advances(db, o.db, now) && o.agent.device == a.device && !o.agent.coordinator && Coherent(o.agent, o.db) &&
            (o.saved.Some? ==> HoldsAlone(o.db, o.saved.value, a.device, now))
  {
    EnsureLeaseHolds(a, db, account, now, input);
    var (b, after, answer) := EnsureLease(a, db, account, now, input);
    CoherenceSurvives(a, db, after);
    if answer.NoAvailable? {
      RestoreAdvances(b, after, now, input);
      var o := RestoreNative(b, after, now, input);
      HistoryExtendsTransitive(db.events, after.events, o.db.events);
      CoherenceSurvives(b, after, o.db);
    }
  }

  /** One RemoteManager tick: a credential is written, or its write attempted, only
      under the device's own single live lease; and the memory stays coherent. */
  lemma RemoteTickIsSafe(a: Agent, db: Db, now: int, input: Input)
    requires Inv(db, now) && Fresh(db, input.newId) && !a.coordinator && Coherent(a, db)
    ensures var o := RemoteTick(a, db, now, input);
            Advances(db, o.db, now) && o.agent.device == a.device && !o.agent.coordinator && Coherent(o.agent, o.db) &&
            (o.saved.Some? ==> HoldsAlone(o.db, o.saved.value, a.device, now))
  {
    var o := RemoteTick(a, db, now, input);
    if !(input.idleFor >= input.threshold && a.lease == 0) {
      PickAdvances(db, a.device, now, input);
      var picked := AfterPick(db, a.device, now, input);
      CoherenceSurvives(a, db, picked);
      match input.pick {
        case PickFailed =>
        case NothingAvailable =>
          RestoreAdvances(a, picked, now, input);
          CoherenceSurvives(a, picked, o.db);
        case Picked(account, usable, _) =>
          if usable {
            InjectIsSafe(a, picked, account, now, input);
          }
      }
      HistoryExtendsTransitive(db.events, picked.events, o.db.events);
    }
  }

  /** The Coordinator's remembered lease is live but on another account. */
  ghost predicate Astray(a: Agent, db: Db, account: AccountId, now: int) {
    a.lease in db.leases && db.leases[a.lease].expiresAt > now && db.leases[a.lease].account != account
  }

  /** The refresh goes wrong exactly here: the remembered account is the chosen
      one, and renewing the remembered lease succeeds although it is astray. */
  ghost predicate RenewsAstray(a: Agent, db: Db, account: AccountId, now: int, input: Input) {
    a.lease != 0 && a.account == account && input.ttl > 0 && input.renewFate == Answered && Astray(a, db, account, now)
  }

  /** What a refreshed Coordinator lease amounts to. */
  ghost predicate Refreshed(a: Agent, db: Db, b: Agent, after: Db, answer: Answer,
                            account: AccountId, now: int, astray: bool)
  {
    && Advances(db, after, now) && b.device == a.device && b.coordinator
    && (answer.Given? ==>
          b == a.(lease := answer.id) && answer.id in after.leases && after.leases[answer.id].device == a.device &&
          (astray <==> after.leases[answer.id].account != account) &&
          (!astray ==> HoldsAlone(after, account, a.device, now)))
    && (!answer.Given? ==> Remembers(a, b))
  }

  lemma SwitchRefreshes(a: Agent, db: Db, between: Db, account: AccountId, now: int, input: Input)
    requires Advances(db, between, now) && Fresh(between, input.newId) && a.coordinator
    ensures var (b, after, answer) := Switch(a, between, account, now, input);
            Refreshed(a, db, b, after, answer, account, now, false)
  {
    SwitchHolds(a, between, account, now, input);
    HistoryExtendsTransitive(db.events, between.events, Switch(a, between, account, now, input).1.events);
  }

  lemma RefreshLeaseHolds(a: Agent, db: Db, account: AccountId, now: int, idleFor: int, input: Input)
    requires Inv(db, now) && Fresh(db, input.newId) && a.coordinator && OwnLease(a, db)
    ensures var (b, after, answer) := RefreshLease(a, db, account, now, idleFor, input);
            Refreshed(a, db, b, after, answer, account, now, RenewsAstray(a, db, account, now, input))
  {
    if a.lease != 0 && a.account == account {
      var asked := input.(idleFor := idleFor);
      VaultRenewAdvances(db, a.lease, now, asked);
      var (renewed, first) := VaultRenew(db, a.lease, now, asked);
      if first.Given? {
        GivenIsUnique(db, a.lease, account, a.device);
      } else {
        SwitchRefreshes(a, db, renewed, account, now, input);
      }
    } else {
      SwitchRefreshes(a, db, db, account, now, input);
    }
  }

  lemma RefreshedOwnsLease(a: Agent, db: Db, account: AccountId, now: int, idleFor: int, input: Input)
    requires Inv(db, now) && Fresh(db, input.newId) && a.coordinator && OwnLease(a, db)
    ensures var (b, after, answer) := RefreshLease(a, db, account, now, idleFor, input);
            OwnLease(b, after) &&
            (Coherent(a, db) && (!answer.Given? || RenewsAstray(a, db, account, now, input)) ==> Coherent(b, after)) &&
            (answer.Given? && !RenewsAstray(a, db, account, now, input) ==> Coherent(b.(account := account), after))
  {
    RefreshLeaseHolds(a, db, account, now, idleFor, input);
    var (b, after, answer) := RefreshLease(a, db, account, now, idleFor, input);
    CoherenceSurvives(a, db, after);
    if answer.Given? {
      RowsAreGivenFor(after, answer.id);
    }
  }

  lemma CoherentIsNotAstray(a: Agent, db: Db, account: AccountId, now: int, input: Input)
    requires InStep(db) && Coherent(a, db)
    ensures !RenewsAstray(a, db, account, now, input)
  {
    if a.lease in db.leases {
      GivenIsUnique(db, a.lease, a.account, a.device);
    }
  }

  /** One Coordinator tick from any memory: its remembered lease is always its own
      device's, and a write it attempts is covered by the lease it remembers
      exactly when the refresh did not renew astray. */
  lemma CoordinatorTickCovered(a: Agent, db: Db, now: int, input: Input)
    requires Inv(db, now) && Fresh(db, input.newId) && a.coordinator && OwnLease(a, db)
    ensures var o := CoordinatorTick(a, db, now, input);
            Advances(db, o.db, now) && o.agent.device == a.device && o.agent.coordinator && OwnLease(o.agent, o.db)
    ensures var o := CoordinatorTick(a, db, now, input);
            o.saved.Some? ==>
              (Holds(o.db, o.agent.lease, o.saved.value) <==>
               !RenewsAstray(a, AfterPick(db, a.device, now, input), o.saved.value, now, input)) &&
              (Holds(o.db, o.agent.lease, o.saved.value) ==> HoldsAlone(o.db, o.saved.value, a.device, now))
  {
    var o := CoordinatorTick(a, db, now, input);
    var gated := input.idleFor >= input.threshold && a.lease == 0;
    if !(gated && !input.pinned) {
      PickAdvances(db, a.device, now, input);
      var picked := AfterPick(db, a.device, now, input);
      CoherenceSurvives(a, db, picked);
      if input.pick.Picked? {
        var idleFor := if gated then 0 else input.idleFor;
        RefreshLeaseHolds(a, picked, input.pick.account, now, idleFor, input);
        RefreshedOwnsLease(a, picked, input.pick.account, now, idleFor, input);
        HistoryExtendsTransitive(db.events, picked.events, o.db.events);
      }
    }
  }

  /** Renewing a lease on another account leaves the holding of an account as it was. */
  lemma RenewElsewhereKeepsHold(db: Db, id: LeaseId, now: int, input: Input, account: AccountId, device: DeviceId)
    requires id in db.leases && db.leases[id].account != account
    ensures HoldsAlone(VaultRenew(db, id, now, input).0, account, device, now) <==> HoldsAlone(db, account, device, now)
  {
    var after := VaultRenew(db, id, now, input).0;
    assert forall o :: Holds(after, o, account) <==> Holds(db, o, account);
    assert forall o :: Holds(db, o, account) ==> after.leases[o] == db.leases[o];
  }

  /** When the device holds the account alone at a Coordinator's attempted write, from
      any memory: exactly when the tick does not renew astray, or the device held the
      account alone before the renewal anyway. */
  lemma CoordinatorHoldsAloneExactlyWhen(a: Agent, db: Db, now: int, input: Input)
    requires Inv(db, now) && Fresh(db, input.newId) && a.coordinator && OwnLease(a, db)
    ensures var o, picked := CoordinatorTick(a, db, now, input), AfterPick(db, a.device, now, input);
            o.saved.Some? ==>
              (HoldsAlone(o.db, o.saved.value, a.device, now) <==>
               !RenewsAstray(a, picked, o.saved.value, now, input) || HoldsAlone(picked, o.saved.value, a.device, now))
  {
    CoordinatorTickCovered(a, db, now, input);
    var o, picked := CoordinatorTick(a, db, now, input), AfterPick(db, a.device, now, input);
    if o.saved.Some? && RenewsAstray(a, picked, o.saved.value, now, input) {
      var gated := input.idleFor >= input.threshold && a.lease == 0;
      var asked := input.(idleFor := if gated then 0 else input.idleFor);
      assert o.db == VaultRenew(picked, a.lease, now, asked).0;
      RenewElsewhereKeepsHold(picked, a.lease, now, asked, o.saved.value, a.device);
    }
  }

  /** With its backend writes succeeding, a coherent Coordinator stays coherent and
      never renews astray, so each write is made under its own single live lease. */
  lemma CoordinatorTickIsSafe(a: Agent, db: Db, now: int, input: Input)
    requires Inv(db, now) && Fresh(db, input.newId) && a.coordinator && Coherent(a, db)
    ensures var o := CoordinatorTick(a, db, now, input);
            (input.ready && input.written ==> Coherent(o.agent, o.db)) &&
            (o.saved.Some? ==> HoldsAlone(o.db, o.saved.value, a.device, now))
  {
    CoordinatorTickCovered(a, db, now, input);
    var gated := input.idleFor >= input.threshold && a.lease == 0;
    PickAdvances(db, a.device, now, input);
    var picked := AfterPick(db, a.device, now, input);
    CoherenceSurvives(a, db, picked);
    if !(gated && !input.pinned) && input.pick.Picked? {
      CoherentIsNotAstray(a, picked, input.pick.account, now, input);
      RefreshedOwnsLease(a, picked, input.pick.account, now, if gated then 0 else input.idleFor, input);
    }
  }
}
