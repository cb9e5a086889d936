/** The two agents as objects: each tick calls the store and updates the agent's
    fields in place, and does exactly what its tick function says. */
module AgentMachines {
  import opened Options
  import opened LeaseTables
  import opened Agents
  import opened LeaseStore

  // ------------------------------------------------------------ vault calls

  method CallAcquire(store: Store, account: AccountId, device: DeviceId, now: int, input: Input)
    returns (answer: Answer)
    requires store.Indexed()
    modifies store
    ensures store.Indexed()
    ensures (store.Tables(), answer) == VaultAcquire(old(store.Tables()), account, device, now, input)
  {
    if input.acquireFate == NotSent || account !in store.accounts {
      return Failed;
    }
    answer := NoAvailable;
    if input.allowed {
      var r, _ := store.AcquireLease(input.newId, account, device, now, input.ttl);
      answer := match r case Granted(id) => Given(id) case Locked => LeaseLocked case _ => Failed;
    }
    if input.acquireFate == AnswerLost {
      answer := Failed;
    }
  }

  method CallRenew(store: Store, id: LeaseId, now: int, input: Input) returns (answer: Answer)
    requires store.Indexed()
    modifies store
    ensures store.Indexed()
    ensures (store.Tables(), answer) == VaultRenew(old(store.Tables()), id, now, input)
  {
    if input.renewFate == NotSent {
      return Failed;
    }
    var r, _ := store.RenewLease(id, now, input.ttl, input.idleFor);
    answer := match r case Renewed(i) => Given(i) case NotFound => LeaseNotFound case _ => Failed;
    if input.renewFate == AnswerLost {
      answer := Failed;
    }
  }

  method CallRelease(store: Store, id: LeaseId, now: int, input: Input) returns (ok: bool)
    requires store.Indexed()
    modifies store
    ensures store.Indexed() && store.Tables() == VaultRelease(old(store.Tables()), id, now, input)
    ensures ok == (input.releaseFate == Answered)
  {
    if input.releaseFate != NotSent {
      store.ReleaseLease(id, now);
    }
    ok := input.releaseFate == Answered;
  }

  method CallPick(store: Store, device: DeviceId, now: int, input: Input)
    requires store.Indexed()
    modifies store
    ensures store.Indexed() && store.Tables() == AfterPick(old(store.Tables()), device, now, input)
  {
    if input.pick.Picked? && input.pick.reclaims {
      var _ := store.ReclaimIdleForeignLease(input.pick.account, device, input.threshold, now);
    }
  }

  // ----------------------------------------------------------- RemoteManager

  class RemoteManager {
    const store: Store
    const deviceID: DeviceId
    var currentAccountID: AccountId
    var currentLeaseID: LeaseId

    constructor (store: Store, deviceID: DeviceId)
      ensures this.store == store && this.deviceID == deviceID
      ensures Memory() == Agent(false, deviceID, 0, 0, 0)
    {
      this.store, this.deviceID := store, deviceID;
      currentAccountID, currentLeaseID := 0, 0;
    }

    function Memory(): Agent
      reads this
    {
      Agent(false, deviceID, currentAccountID, currentLeaseID, 0)
    }

    /** Writes a credential only as RemoteTick does, so only under a held lease. */
    method Reconcile(now: int, input: Input) returns (saved: Option<AccountId>)
      requires store.Indexed()
      modifies this, store
      ensures store.Indexed()
      ensures Outcome(Memory(), store.Tables(), saved) == RemoteTick(old(Memory()), old(store.Tables()), now, input)
    {
      if input.idleFor >= input.threshold && currentLeaseID == 0 {
        return None;
      }
      CallPick(store, deviceID, now, input);
      match input.pick {
        case PickFailed =>
          return None;
        case NothingAvailable =>
          RestoreLocked(now, input);
          return None;
        case Picked(account, usable, _) =>
          if !usable {
            return None;
          }
          var answer := EnsureLease(account, now, input);
          if answer.NoAvailable? {
            RestoreLocked(now, input);
            return None;
          }
          if !answer.Given? || !input.loaded {
            return None;
          }
          if input.inPlace {
            currentAccountID, currentLeaseID := account, answer.id;
            return None;
          }
          if !input.ready {
            return None;
          }
          saved := Some(account);
          if input.written && input.marked {
            currentAccountID, currentLeaseID := account, answer.id;
          }
      }
    }

    method EnsureLease(account: AccountId, now: int, input: Input) returns (answer: Answer)
      requires store.Indexed()
      modifies this, store
      ensures store.Indexed()
      ensures (Memory(), store.Tables(), answer) ==
              Agents.EnsureLease(old(Memory()), old(store.Tables()), account, now, input)
    {
      if currentLeaseID != 0 && currentAccountID == account {
        answer := CallRenew(store, currentLeaseID, now, input);
        if answer != LeaseNotFound {
          return;
        }
        if input.idleFor >= input.threshold {
          currentLeaseID := 0;
          return Parked;
        }
      }
      var oldLease := currentLeaseID;
      answer := CallAcquire(store, account, deviceID, now, input);
      if answer.LeaseLocked? {
        currentLeaseID, currentAccountID := 0, 0;
      } else if answer.Given? && oldLease != 0 && oldLease != answer.id {
        var _ := CallRelease(store, oldLease, now, input);
      }
    }

    /** Also the graceful exit: native credential back, lease let go, memory cleared. */
    method RestoreLocked(now: int, input: Input)
      requires store.Indexed()
      modifies this, store
      ensures store.Indexed()
      ensures Outcome(Memory(), store.Tables(), None) == RestoreNative(old(Memory()), old(store.Tables()), now, input)
    {
      if !input.restored {
        return;
      }
      if currentLeaseID != 0 {
        var ok := CallRelease(store, currentLeaseID, now, input);
        if !ok {
          return;
        }
      }
      currentAccountID, currentLeaseID := 0, 0;
    }
  }

  // ------------------------------------------------------------- Coordinator

  class Coordinator {
    const store: Store
    const deviceID: DeviceId
    var currentAccountID: AccountId
    var currentLeaseID: LeaseId
    var lastAccessHash: int

    /** A process start: the account and token come from the state file, if any. */
    constructor (store: Store, deviceID: DeviceId, stateAccount: AccountId, stateHash: int)
      ensures this.store == store && this.deviceID == deviceID
      ensures Memory() == Agent(true, deviceID, stateAccount, 0, stateHash)
    {
      this.store, this.deviceID := store, deviceID;
      currentAccountID, currentLeaseID, lastAccessHash := stateAccount, 0, stateHash;
    }

    function Memory(): Agent
      reads this
    {
      Agent(true, deviceID, currentAccountID, currentLeaseID, lastAccessHash)
    }

    method ReconcileWithIdle(now: int, input: Input) returns (saved: Option<AccountId>)
      requires store.Indexed()
      modifies this, store
      ensures store.Indexed()
      ensures Outcome(Memory(), store.Tables(), saved) ==
              CoordinatorTick(old(Memory()), old(store.Tables()), now, input)
    {
      var idleFor := input.idleFor;
      if input.idleFor >= input.threshold && currentLeaseID == 0 {
        if !input.pinned {
          return None;
        }
        idleFor := 0;
      }
      CallPick(store, deviceID, now, input);
      if !input.pick.Picked? {
        return None;
      }
      var account := input.pick.account;
      var answer := RefreshLease(account, now, idleFor, input);
      if !answer.Given? {
        return None;
      }
      var unchanged_ := currentAccountID == account && lastAccessHash == input.tokenHash;
      if unchanged_ && input.inPlace {
        return None;
      }
      if !input.ready {
        return None;
      }
      saved := Some(account);
      if input.written {
        currentAccountID, lastAccessHash := account, input.tokenHash;
      }
    }

    method RefreshLease(account: AccountId, now: int, idleFor: int, input: Input) returns (answer: Answer)
      requires store.Indexed()
      modifies this, store
      ensures store.Indexed()
      ensures (Memory(), store.Tables(), answer) ==
              Agents.RefreshLease(old(Memory()), old(store.Tables()), account, now, idleFor, input)
    {
      if currentLeaseID != 0 && currentAccountID == account {
        answer := CallRenew(store, currentLeaseID, now, input.(idleFor := idleFor));
        if answer.Given? {
          return;
        }
        if idleFor >= input.threshold {
          currentLeaseID := 0;
          return Parked;
        }
      } else if idleFor >= input.threshold {
        return Parked;
      }
      answer := CallAcquire(store, account, deviceID, now, input);
      if answer.LeaseLocked? {
        currentLeaseID, currentAccountID := 0, 0;
      } else if answer.Given? {
        var oldLease := currentLeaseID;
        currentLeaseID := answer.id;
        if oldLease != 0 && oldLease != answer.id {
          var _ := CallRelease(store, oldLease, now, input);
        }
      }
    }
  }
}
