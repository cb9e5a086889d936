/** Swapping a pool credential in over the user's own Codex login, and back, when the
    process can stop between any two writes. */
module CodexRestore {
  import opened Options

  /** A credential document, as bytes. */
  type Credential = string

  /** The native login as it was found: its document, or its absence. */
  datatype Backup = Backup(existed: bool, data: Credential)

  /** Credential storage as one cell, and the backup file beside it. */
  datatype Disk = Disk(storage: Option<Credential>, backup: Option<Backup>)

  datatype Write = WriteBackup(backup: Backup) | Save(data: Credential) | Delete | RemoveBackup

  function Wrote(d: Disk, w: Write): Disk {
    match w
    case WriteBackup(b) => d.(backup := Some(b))
    case Save(data) => d.(storage := Some(data))
    case Delete => d.(storage := None)
    case RemoveBackup => d.(backup := None)
  }

  function WroteAll(d: Disk, writes: seq<Write>): Disk {
    if writes == [] then d else Wrote(WroteAll(d, writes[..|writes| - 1]), writes[|writes| - 1])
  }

  function TakenOf(storage: Option<Credential>): Backup {
    match storage case Some(data) => Backup(true, data) case None => Backup(false, "")
  }

  /** What a tick decides: swap a credential in, restore, or leave things be because the
      wanted credential is already there or the tick failed earlier. */
  datatype Decision = Inject(want: Credential) | Restore | Leave

  /** The individual writes of a tick, in order. */
  function Writes(d: Disk, decision: Decision): seq<Write> {
    match decision
    case Inject(want) => (if d.backup.None? then [WriteBackup(TakenOf(d.storage))] else []) + [Save(want)]
    case Restore =>
      (match d.backup
       case None => []
       case Some(b) => [if b.existed then Save(b.data) else Delete, RemoveBackup])
    case Leave => []
  }

  /** A tick, of which only the first `done` writes take place. */
  datatype Step = Step(decision: Decision, done: nat)

  function Prefix(writes: seq<Write>, n: nat): seq<Write> { if n <= |writes| then writes[..n] else writes }

  function Stepped(d: Disk, s: Step): Disk { WroteAll(d, Prefix(Writes(d, s.decision), s.done)) }

  function Ran(d: Disk, steps: seq<Step>): Disk {
    if steps == [] then d else Stepped(Ran(d, steps[..|steps| - 1]), steps[|steps| - 1])
  }

  /** The backup keeps the native login. */
  predicate Keeps(b: Backup, native: Option<Credential>) {
    b.existed == native.Some? && (native.Some? ==> b.data == native.value)
  }

  /** The native login is in storage, or in the backup. */
  predicate NativeSafe(d: Disk, native: Option<Credential>) {
    match d.backup
    case None => d.storage == native
    case Some(b) => Keeps(b, native)
  }

  /** A tick's writes, as far as they take place. */
  function Cut(d: Disk, writes: seq<Write>, n: nat): Disk {
    if n == 0 || |writes| == 0 then d
    else if n == 1 || |writes| == 1 then Wrote(d, writes[0])
    else Wrote(Wrote(d, writes[0]), writes[1])
  }

  lemma WroteCut(d: Disk, writes: seq<Write>, n: nat)
    requires |writes| <= 2
    ensures WroteAll(d, Prefix(writes, n)) == Cut(d, writes, n)
  {
    var p := Prefix(writes, n);
    if |p| == 2 {
      assert p[..1] == [p[0]] && [p[0]][..0] == [];
      assert WroteAll(d, [p[0]]) == Wrote(d, p[0]);
    } else if |p| == 1 {
      assert p[..0] == [];
    }
  }

  lemma SteppedIsCut(d: Disk, s: Step)
    ensures |Writes(d, s.decision)| <= 2 && Stepped(d, s) == Cut(d, Writes(d, s.decision), s.done)
  {
    WroteCut(d, Writes(d, s.decision), s.done);
  }

  /** However many of its writes take place, a tick keeps the native login. */
  lemma StepKeepsNative(d: Disk, s: Step, native: Option<Credential>)
    requires NativeSafe(d, native)
    ensures NativeSafe(Stepped(d, s), native)
  {
    SteppedIsCut(d, s);
  }

  /** Cutting any run between any two writes leaves the native login in storage or in
      the backup. */
  lemma {:induction false} NativeSurvivesEveryRun(native: Option<Credential>, steps: seq<Step>)
    ensures NativeSafe(Ran(Disk(native, None), steps), native)
  {
    if steps != [] {
      var n := |steps| - 1;
      NativeSurvivesEveryRun(native, steps[..n]);
      StepKeepsNative(Ran(Disk(native, None), steps[..n]), steps[n], native);
    }
  }

  /** After any run, a completed restore puts the native login, or its absence, back
      and removes the backup. */
  lemma RestorePutsNativeBack(native: Option<Credential>, steps: seq<Step>, done: nat)
    requires done >= 2
    ensures Ran(Disk(native, None), steps + [Step(Restore, done)]) == Disk(native, None)
  {
    var run := steps + [Step(Restore, done)];
    assert run[..|run| - 1] == steps;
    NativeSurvivesEveryRun(native, steps);
    SteppedIsCut(Ran(Disk(native, None), steps), Step(Restore, done));
  }

  /** A completed injection puts the wanted credential in storage, and has the native
      login in the backup first. */
  lemma InjectIsBackedUp(native: Option<Credential>, steps: seq<Step>, want: Credential, done: nat)
    requires done >= 2
    ensures var d := Ran(Disk(native, None), steps + [Step(Inject(want), done)]);
            d.storage == Some(want) && d.backup.Some? && Keeps(d.backup.value, native)
  {
    var run := steps + [Step(Inject(want), done)];
    assert run[..|run| - 1] == steps;
    NativeSurvivesEveryRun(native, run);
    SteppedIsCut(Ran(Disk(native, None), steps), Step(Inject(want), done));
  }

  /** Storage never holds anything but the native login or a credential some tick
      wanted. */
  lemma {:induction false} StorageIsNativeOrWanted(native: Option<Credential>, steps: seq<Step>)
    ensures var d := Ran(Disk(native, None), steps);
            d.storage == native ||
            exists i :: 0 <= i < |steps| && steps[i].decision.Inject? && d.storage == Some(steps[i].decision.want)
  {
    if steps != [] {
      var n := |steps| - 1;
      StorageIsNativeOrWanted(native, steps[..n]);
      NativeSurvivesEveryRun(native, steps[..n]);
      var before := Ran(Disk(native, None), steps[..n]);
      StepStores(before, steps[n], native);
      if before.storage != native {
        var i :| 0 <= i < n && steps[..n][i].decision.Inject? && before.storage == Some(steps[..n][i].decision.want);
        assert steps[i] == steps[..n][i];
      }
    }
  }

  lemma StepStores(d: Disk, s: Step, native: Option<Credential>)
    requires NativeSafe(d, native)
    ensures var u := Stepped(d, s);
            u.storage == d.storage || u.storage == native ||
            (s.decision.Inject? && u.storage == Some(s.decision.want))
  {
    SteppedIsCut(d, s);
  }

  // ------------------------------------------------------------------------ as it runs

  /** The manager over its two files; every write can be the one that fails. */
  class Manager {
    var storage: Option<Credential>
    var backup: Option<Backup>
    var left: nat

    /** `writes`: how many writes take place before one fails or the process stops. */
    constructor (found: Option<Credential>, writes: nat)
      ensures OnDisk() == Disk(found, None) && left == writes
    {
      storage, backup, left := found, None, writes;
    }

    function OnDisk(): Disk
      reads this
    {
      Disk(storage, backup)
    }

    method Perform(w: Write) returns (ok: bool)
      modifies this
      ensures ok == (old(left) > 0) && left == (if ok then old(left) - 1 else 0)
      ensures OnDisk() == if ok then Wrote(old(OnDisk()), w) else old(OnDisk())
    {
      ok := left > 0;
      if ok {
        left := left - 1;
        match w
        case WriteBackup(b) => backup := Some(b);
        case Save(data) => storage := Some(data);
        case Delete => storage := None;
        case RemoveBackup => backup := None;
      }
    }

    method EnsureBackup() returns (ok: bool)
      modifies this
      ensures ok == (old(backup).Some? || old(left) > 0)
      ensures left == old(left) - if old(backup).None? && ok then 1 else 0
      ensures OnDisk() == if old(backup).None? && ok then Wrote(old(OnDisk()), WriteBackup(TakenOf(old(storage))))
                          else old(OnDisk())
    {
      if backup.Some? {
        return true;
      }
      ok := Perform(WriteBackup(TakenOf(storage)));
    }

    /** The writes of a reconcile that swaps a credential in: the backup first, so the
        native login is never overwritten unkept. */
    method InjectCredential(want: Credential) returns (ok: bool)
      modifies this
      ensures OnDisk() == Stepped(old(OnDisk()), Step(Inject(want), old(left)))
      ensures ok ==> storage == Some(want)
      ensures forall native :: NativeSafe(old(OnDisk()), native) ==> NativeSafe(OnDisk(), native)
    {
      AllCuts(OnDisk(), Step(Inject(want), left));
      ok := EnsureBackup();
      if ok {
        ok := Perform(Save(want));
      }
    }

    method RestoreLocked() returns (ok: bool)
      modifies this
      ensures OnDisk() == Stepped(old(OnDisk()), Step(Restore, old(left)))
      ensures ok ==> backup.None?
      ensures forall native :: NativeSafe(old(OnDisk()), native) ==>
                NativeSafe(OnDisk(), native) && (ok ==> storage == native)
    {
      AllCuts(OnDisk(), Step(Restore, left));
      if backup.None? {
        return true;
      }
      var b := backup.value;
      if b.existed {
        ok := Perform(Save(b.data));
      } else {
        ok := Perform(Delete);
      }
      if ok {
        ok := Perform(RemoveBackup);
      }
    }
  }

  lemma AllCuts(d: Disk, s: Step)
    ensures Stepped(d, s) == Cut(d, Writes(d, s.decision), s.done)
    ensures forall native :: NativeSafe(d, native) ==> NativeSafe(Stepped(d, s), native)
  {
    SteppedIsCut(d, s);
    forall native | NativeSafe(d, native)
      ensures NativeSafe(Stepped(d, s), native)
    {
      StepKeepsNative(d, s, native);
    }
  }
}
