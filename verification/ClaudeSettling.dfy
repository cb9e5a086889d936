/** When the Claude choice settles over a run, and when it goes on switching for ever. */
module ClaudeSettling {
  import opened Options
  import opened ClaudeChoice
  import C = StickyCodex
  import S = Selector

  type DeviceId = S.DeviceId

  // ------------------------------------------------------------------------ the best tier

  /** Ahead in the ranking before use is looked at: within the scoped cap, then more
      weekly headroom. */
  predicate Ahead(a: S.Account, b: S.Account) {
    if S.ScopedThreshold(a) != S.ScopedThreshold(b) then !S.ScopedThreshold(a) else a.sevenDay.util < b.sevenDay.util
  }

  predicate Ok(accounts: seq<S.Account>, i: nat, base: int) { i < |accounts| && S.IsEligible(accounts[i], base) }

  /** One of the eligible accounts that no eligible account is ahead of. */
  predicate InTier(accounts: seq<S.Account>, i: nat, base: int) {
    Ok(accounts, i, base) &&
    forall m :: 0 <= m < |accounts| && Ok(accounts, m, base) ==> !Ahead(accounts[m], accounts[i])
  }

  predicate UsedBefore(a: S.Account, b: S.Account) {
    a.lastUsedAt < b.lastUsedAt || (a.lastUsedAt == b.lastUsedAt && a.id < b.id)
  }

  /** The account of the tier that was used least recently. */
  predicate First(accounts: seq<S.Account>, b: nat, base: int) {
    InTier(accounts, b, base) &&
    forall m :: 0 <= m < |accounts| && m != b && InTier(accounts, m, base) ==> UsedBefore(accounts[b], accounts[m])
  }

  /** Never used, and pinned for nobody: a pin for every device. */
  predicate Unused(a: S.Account) { a.pinnedDevice == S.NO_DEVICE && a.lastUsedAt == 0 }

  predicate UnusedAt(accounts: seq<S.Account>, i: nat, base: int) { Ok(accounts, i, base) && Unused(accounts[i]) }

  // --------------------------------------------------------------------------- conditions

  predicate Held(s: Pool, base: int) {
    exists i :: 0 <= i < |s.accounts| && Ok(s.accounts, i, base) && s.accounts[i].id == s.current
  }

  predicate UnusedElsewhere(s: Pool, base: int) {
    exists i :: 0 <= i < |s.accounts| && UnusedAt(s.accounts, i, base) && s.accounts[i].id != s.current
  }

  /** The tick asks the picker: the current account is not eligible, or another one was
      never used. */
  predicate Asks(s: Pool, base: int) { !Held(s, base) || UnusedElsewhere(s, base) }

  /** And the picker does not give the current account back. */
  predicate Moves(s: Pool, base: int) {
    Asks(s, base) && exists b :: 0 <= b < |s.accounts| && First(s.accounts, b, base) && s.accounts[b].id != s.current
  }

  predicate TwoInTier(accounts: seq<S.Account>, base: int) {
    exists i, j :: 0 <= i < j < |accounts| && InTier(accounts, i, base) && InTier(accounts, j, base)
  }

  predicate UnusedOutside(accounts: seq<S.Account>, base: int) {
    exists i :: 0 <= i < |accounts| && UnusedAt(accounts, i, base) && !InTier(accounts, i, base)
  }

  /** Two accounts or more share the best tier, a never-used one lies outside it, and
      the next tick moves. */
  predicate Restless(s: Pool, base: int) {
    Moves(s, base) && TwoInTier(s.accounts, base) && UnusedOutside(s.accounts, base)
  }

  // ---------------------------------------------------------------------------- one tick

  /** Eligibility is at `now` as it was at `base`. */
  predicate Steady(accounts: seq<S.Account>, now: int, base: int) {
    forall i :: 0 <= i < |accounts| ==> S.IsEligible(accounts[i], now) == S.IsEligible(accounts[i], base)
  }

  /** Distinct ids, no use after `at`, and no eligible account pinned for this device. */
  ghost predicate Proper(accounts: seq<S.Account>, device: DeviceId, base: int, at: int) {
    && S.DistinctIds(accounts) && at >= 0
    && (forall i :: 0 <= i < |accounts| ==> accounts[i].id != 0 && 0 <= accounts[i].lastUsedAt <= at)
    && (forall i :: 0 <= i < |accounts| && Ok(accounts, i, base) ==>
          accounts[i].pinnedDevice == S.NO_DEVICE || accounts[i].pinnedDevice != device)
  }

  lemma BestIsFirst(accounts: seq<S.Account>, device: DeviceId, base: int, at: int, now: int, b: nat)
    requires Proper(accounts, device, base, at) && Steady(accounts, now, base)
    requires b < |accounts| && S.IsBest(accounts[b], CandidatesAt(accounts, now), device)
    ensures First(accounts, b, base)
  {
    S.CandidatesAre(accounts, now, NoSkip);
    forall m | 0 <= m < |accounts| && m != b && Ok(accounts, m, base)
      ensures S.RanksBefore(accounts[b], accounts[m], device)
    {
      assert accounts[m] in CandidatesAt(accounts, now);
      assert accounts[m].id != accounts[b].id;
    }
  }

  lemma FirstIsUnique(accounts: seq<S.Account>, base: int, a: nat, b: nat)
    requires First(accounts, a, base) && First(accounts, b, base)
    ensures a == b
  {
  }

  /** The picker gives the first of the tier, when any account is eligible. */
  lemma PickedIsFirst(accounts: seq<S.Account>, device: DeviceId, base: int, at: int, now: int)
    requires Proper(accounts, device, base, at) && Steady(accounts, now, base)
    ensures match Picked(accounts, device, now)
            case None => forall i :: 0 <= i < |accounts| ==> !Ok(accounts, i, base)
            case Some(a) => exists b :: 0 <= b < |accounts| && First(accounts, b, base) && a == accounts[b]
  {
    PickedIsBest(accounts, device, now);
    S.CandidatesAre(accounts, now, NoSkip);
    match Picked(accounts, device, now)
    case None =>
      forall i | 0 <= i < |accounts|
        ensures !Ok(accounts, i, base)
      {
        assert accounts[i] in accounts;
      }
    case Some(a) =>
      assert S.IsBest(a, CandidatesAt(accounts, now), device);
      var b :| 0 <= b < |accounts| && accounts[b] == a;
      BestIsFirst(accounts, device, base, at, now, b);
  }

  lemma RowsTell(s: Pool, device: DeviceId, base: int, at: int, now: int)
    requires Proper(s.accounts, device, base, at) && Steady(s.accounts, now, base)
    ensures var rows := Rows(s.accounts, now);
            (Held(s, base) <==> s.current != 0 && C.Holds(rows, s.current)) &&
            (UnusedElsewhere(s, base) <==> PinnedElsewhere(rows, s.current, device))
  {
    var rows := Rows(s.accounts, now);
    assert forall i :: 0 <= i < |rows| ==> rows[i].ok == Ok(s.accounts, i, base) && rows[i].id == s.accounts[i].id;
    assert forall i :: 0 <= i < |rows| ==> C.IsPin(rows[i], device) == UnusedAt(s.accounts, i, base);
    if i :| 0 <= i < |s.accounts| && UnusedAt(s.accounts, i, base) && s.accounts[i].id != s.current {
      assert rows[i].id != s.current && C.IsPin(rows[i], device);
    }
    if i :| 0 <= i < |rows| && rows[i].id != s.current && C.IsPin(rows[i], device) {
      assert UnusedAt(s.accounts, i, base) && s.accounts[i].id != s.current;
    }
    if i :| 0 <= i < |s.accounts| && Ok(s.accounts, i, base) && s.accounts[i].id == s.current {
      assert rows[i].ok && rows[i].id == s.current;
    }
    if i :| 0 <= i < |rows| && rows[i].ok && rows[i].id == s.current {
      assert Ok(s.accounts, i, base) && s.accounts[i].id == s.current;
    }
  }

  function Switched(s: Pool, b: nat, now: int): Pool
    requires b < |s.accounts|
  {
    Pool(UsedAt(s.accounts, s.accounts[b].id, now), s.accounts[b].id)
  }

  /** A tick changes nothing unless it moves, and then it goes to the first of the tier. */
  lemma TickIs(s: Pool, device: DeviceId, base: int, at: int, now: int)
    requires Proper(s.accounts, device, base, at) && Steady(s.accounts, now, base)
    ensures !Moves(s, base) ==> Ticked(s, device, now) == s
    ensures Moves(s, base) ==>
              exists b :: 0 <= b < |s.accounts| && First(s.accounts, b, base) && s.accounts[b].id != s.current &&
                          Ticked(s, device, now) == Switched(s, b, now)
  {
    hide First, Proper, Steady, C.Holds, PinnedElsewhere, Held, UnusedElsewhere, Picked, Rows;
    RowsTell(s, device, base, at, now);
    PickedIsFirst(s.accounts, device, base, at, now);
    if Moves(s, base) {
      var b :| 0 <= b < |s.accounts| && First(s.accounts, b, base) && s.accounts[b].id != s.current;
      FirstIsOk(s.accounts, b, base);
      var f :| 0 <= f < |s.accounts| && First(s.accounts, f, base) &&
               Picked(s.accounts, device, now) == Some(s.accounts[f]);
      FirstIsUnique(s.accounts, base, b, f);
    }
  }

  lemma FirstIsOk(accounts: seq<S.Account>, b: nat, base: int)
    requires First(accounts, b, base)
    ensures Ok(accounts, b, base) && InTier(accounts, b, base)
  {
  }

  // ------------------------------------------------------------------- what a switch keeps

  /** Equal but for who used it last, and its pin. */
  predicate SameButUse(a: S.Account, b: S.Account) {
    b == a.(pinnedDevice := b.pinnedDevice, lastUsedAt := b.lastUsedAt)
  }

  ghost predicate Alike(a: seq<S.Account>, b: seq<S.Account>) {
    |a| == |b| && forall i :: 0 <= i < |a| ==> SameButUse(a[i], b[i])
  }

  lemma AlikeTiers(a: seq<S.Account>, b: seq<S.Account>, base: int)
    requires Alike(a, b)
    ensures forall i :: Ok(a, i, base) == Ok(b, i, base) && InTier(a, i, base) == InTier(b, i, base)
    ensures TwoInTier(a, base) == TwoInTier(b, base)
  {
    OkAlike(a, b, base);
    forall i: nat
      ensures InTier(a, i, base) == InTier(b, i, base)
    {
      hide Ok, Ahead;
      AheadAlike(a, b, i, base);
    }
    TwoAlike(a, b, base);
  }

  lemma OkAlike(a: seq<S.Account>, b: seq<S.Account>, base: int)
    requires Alike(a, b)
    ensures forall i :: Ok(a, i, base) == Ok(b, i, base)
  {
  }

  lemma AheadAlike(a: seq<S.Account>, b: seq<S.Account>, i: nat, base: int)
    requires Alike(a, b) && forall i :: Ok(a, i, base) == Ok(b, i, base)
    ensures InTier(a, i, base) == InTier(b, i, base)
  {
    if i < |a| {
      assert SameButUse(a[i], b[i]);
      assert forall m :: 0 <= m < |a| ==> SameButUse(a[m], b[m]) && Ahead(a[m], a[i]) == Ahead(b[m], b[i]);
    }
  }

  lemma TwoAlike(a: seq<S.Account>, b: seq<S.Account>, base: int)
    requires |a| == |b| && forall i :: InTier(a, i, base) == InTier(b, i, base)
    ensures TwoInTier(a, base) == TwoInTier(b, base)
  {
    hide InTier;
  }

  /** The switched account is used now and pinned for nobody; the others are as they were. */
  lemma SwitchIs(s: Pool, b: nat, now: int)
    requires b < |s.accounts| && S.DistinctIds(s.accounts)
    ensures var t := Switched(s, b, now);
            t.current == s.accounts[b].id && |t.accounts| == |s.accounts| &&
            forall i :: 0 <= i < |s.accounts| ==>
              t.accounts[i] == if i == b then s.accounts[b].(pinnedDevice := S.NO_DEVICE, lastUsedAt := now)
                               else s.accounts[i]
  {
    assert forall i :: 0 <= i < |s.accounts| && i != b ==> s.accounts[i].id != s.accounts[b].id;
  }

  lemma SwitchKeeps(s: Pool, b: nat, device: DeviceId, base: int, at: int, now: int)
    requires Proper(s.accounts, device, base, at) && b < |s.accounts| && now > at
    ensures var t := Switched(s, b, now);
            Alike(s.accounts, t.accounts) && Proper(t.accounts, device, base, now)
  {
    SwitchIs(s, b, now);
    var t := Switched(s, b, now);
    assert Alike(s.accounts, t.accounts);
    OkAlike(s.accounts, t.accounts, base);
  }

  /** An account other than the switched one is unused after the switch as before. */
  lemma SwitchKeepsUnused(s: Pool, b: nat, device: DeviceId, base: int, at: int, now: int)
    requires Proper(s.accounts, device, base, at) && b < |s.accounts| && now > at
    ensures forall i :: UnusedAt(Switched(s, b, now).accounts, i, base) <==> i != b && UnusedAt(s.accounts, i, base)
  {
    SwitchIs(s, b, now);
    SwitchKeeps(s, b, device, base, at, now);
    OkAlike(s.accounts, Switched(s, b, now).accounts, base);
  }

  lemma OkHasFirst(accounts: seq<S.Account>, device: DeviceId, base: int, at: int, i: nat)
    requires Proper(accounts, device, base, at) && i < |accounts| && Ok(accounts, i, base)
    ensures exists b :: 0 <= b < |accounts| && First(accounts, b, base)
  {
    PickedIsFirst(accounts, device, base, at, base);
  }

  // --------------------------------------------------------------------- restless for ever

  /** Restlessness survives the move: the unused account is still passed over, and the
      account just used is not the first of the tier. */
  lemma MoveStaysRestless(s: Pool, b: nat, device: DeviceId, base: int, at: int, now: int)
    requires Proper(s.accounts, device, base, at) && Restless(s, base) && now > at
    requires b < |s.accounts| && First(s.accounts, b, base)
    ensures Restless(Switched(s, b, now), base)
  {
    hide Proper, Alike, Ahead, Ok, InTier, First, UnusedAt, TwoInTier, Asks, Switched;
    var t := Switched(s, b, now);
    SwitchKeeps(s, b, device, base, at, now);
    SwitchKeepsUnused(s, b, device, base, at, now);
    AlikeTiers(s.accounts, t.accounts, base);
    FirstIsOk(s.accounts, b, base);
    OthersUsedBefore(s, b, device, base, at, now);
    var u :| 0 <= u < |s.accounts| && UnusedAt(s.accounts, u, base) && !InTier(s.accounts, u, base);
    assert UnusedAt(t.accounts, u, base) && !InTier(t.accounts, u, base);
    UnusedIsElsewhere(t, u, b, device, base, now);
    NewFirst(t, b, device, base, at, now);
  }

  lemma OthersUsedBefore(s: Pool, b: nat, device: DeviceId, base: int, at: int, now: int)
    requires Proper(s.accounts, device, base, at) && b < |s.accounts|
    ensures var t := Switched(s, b, now);
            |t.accounts| == |s.accounts| && t.accounts[b].lastUsedAt == now && t.current == t.accounts[b].id &&
            forall i :: 0 <= i < |t.accounts| && i != b ==> t.accounts[i].lastUsedAt <= at
  {
    SwitchIs(s, b, now);
  }

  lemma UnusedIsElsewhere(t: Pool, u: nat, b: nat, device: DeviceId, base: int, now: int)
    requires Proper(t.accounts, device, base, now) && b < |t.accounts| && t.current == t.accounts[b].id
    requires u < |t.accounts| && u != b && UnusedAt(t.accounts, u, base)
    ensures Asks(t, base)
  {
    assert t.accounts[u].id != t.accounts[b].id;
  }

  lemma NewFirst(t: Pool, b: nat, device: DeviceId, base: int, at: int, now: int)
    requires Proper(t.accounts, device, base, now) && TwoInTier(t.accounts, base) && now > at
    requires b < |t.accounts| && t.current == t.accounts[b].id && t.accounts[b].lastUsedAt == now
    requires forall i :: 0 <= i < |t.accounts| && i != b ==> t.accounts[i].lastUsedAt <= at
    ensures exists f :: 0 <= f < |t.accounts| && First(t.accounts, f, base) && t.accounts[f].id != t.current
  {
    var i, j :| 0 <= i < j < |t.accounts| && InTier(t.accounts, i, base) && InTier(t.accounts, j, base);
    OkHasFirst(t.accounts, device, base, now, i);
    var f :| 0 <= f < |t.accounts| && First(t.accounts, f, base);
    var other := if i == b then j else i;
    UsedLastIsNotFirst(t.accounts, b, other, base);
    assert t.accounts[f].id != t.accounts[b].id;
  }

  lemma UsedLastIsNotFirst(accounts: seq<S.Account>, b: nat, other: nat, base: int)
    requires b < |accounts| && other < |accounts| && other != b && InTier(accounts, other, base)
    requires accounts[other].lastUsedAt < accounts[b].lastUsedAt
    ensures !First(accounts, b, base)
  {
    assert !UsedBefore(accounts[b], accounts[other]);
  }

  // ------------------------------------------------------------------------------- at rest

  /** Accounts of the tier, among the first `n`, that were never used. */
  function Zeros(accounts: seq<S.Account>, base: int, n: nat): nat
    requires n <= |accounts|
  {
    if n == 0 then 0
    else
      Zeros(accounts, base, n - 1) +
      if InTier(accounts, n - 1, base) && accounts[n - 1].lastUsedAt == 0 then 1 else 0
  }

  /** One switch per never-used account of the tier, or one in all. */
  function Bound(s: Pool, base: int): nat {
    var zeros := Zeros(s.accounts, base, |s.accounts|);
    if zeros > 1 then zeros else 1
  }

  /** The switches still possible for a pool that is not restless. */
  function Left(s: Pool, base: int): nat { if Moves(s, base) then Bound(s, base) else 0 }

  lemma {:induction false} ZerosFind(accounts: seq<S.Account>, base: int, n: nat, i: nat)
    requires i < n <= |accounts| && InTier(accounts, i, base) && accounts[i].lastUsedAt == 0
    ensures Zeros(accounts, base, n) > 0
  {
    hide InTier;
    if i < n - 1 {
      ZerosFind(accounts, base, n - 1, i);
    }
  }

  /** Switching to a never-used account of the tier takes it off the count. */
  lemma {:induction false} ZerosDrop(before: seq<S.Account>, after: seq<S.Account>, b: nat, base: int, n: nat)
    requires n <= |before| == |after| && b < |before|
    requires forall i :: InTier(before, i, base) == InTier(after, i, base)
    requires forall i :: 0 <= i < |before| && i != b ==> after[i].lastUsedAt == before[i].lastUsedAt
    requires after[b].lastUsedAt != 0
    ensures Zeros(after, base, n) ==
            Zeros(before, base, n) - if b < n && InTier(before, b, base) && before[b].lastUsedAt == 0 then 1 else 0
  {
    hide InTier;
    if n > 0 {
      ZerosDrop(before, after, b, base, n - 1);
    }
  }

  lemma SwitchDropsZeros(s: Pool, b: nat, device: DeviceId, base: int, at: int, now: int)
    requires Proper(s.accounts, device, base, at) && now > at && b < |s.accounts| && InTier(s.accounts, b, base)
    ensures var t := Switched(s, b, now);
            Zeros(t.accounts, base, |t.accounts|) ==
            Zeros(s.accounts, base, |s.accounts|) - if s.accounts[b].lastUsedAt == 0 then 1 else 0
  {
    hide InTier;
    var t := Switched(s, b, now);
    SwitchIs(s, b, now);
    SwitchKeeps(s, b, device, base, at, now);
    AlikeTiers(s.accounts, t.accounts, base);
    ZerosDrop(s.accounts, t.accounts, b, base, |s.accounts|);
  }

  /** The first of a tier that holds a never-used account was never used. */
  lemma FirstIsUnusedToo(accounts: seq<S.Account>, b: nat, u: nat, device: DeviceId, base: int, at: int)
    requires Proper(accounts, device, base, at) && First(accounts, b, base)
    requires InTier(accounts, u, base) && accounts[u].lastUsedAt == 0
    ensures accounts[b].lastUsedAt == 0
  {
    if u != b {
      assert UsedBefore(accounts[b], accounts[u]);
    }
  }

  /** After a switch the current account is held, so only a never-used one elsewhere can
      make the next tick ask. */
  lemma SwitchedIsHeld(s: Pool, b: nat, device: DeviceId, base: int, at: int, now: int)
    requires Proper(s.accounts, device, base, at) && now > at && b < |s.accounts| && Ok(s.accounts, b, base)
    ensures var t := Switched(s, b, now);
            Held(t, base) &&
            (Asks(t, base) ==> exists u :: 0 <= u < |s.accounts| && u != b && UnusedAt(s.accounts, u, base))
  {
    var t := Switched(s, b, now);
    SwitchIs(s, b, now);
    SwitchKeeps(s, b, device, base, at, now);
    OkAlike(s.accounts, t.accounts, base);
    SwitchKeepsUnused(s, b, device, base, at, now);
    assert Ok(t.accounts, b, base) && t.accounts[b].id == t.current;
    if UnusedElsewhere(t, base) {
      var u :| 0 <= u < |t.accounts| && UnusedAt(t.accounts, u, base) && t.accounts[u].id != t.current;
      assert u != b && UnusedAt(s.accounts, u, base);
    }
  }

  /** A tier of one account is left nowhere. */
  lemma LoneTierRests(s: Pool, b: nat, device: DeviceId, base: int, at: int, now: int)
    requires Proper(s.accounts, device, base, at) && now > at
    requires b < |s.accounts| && First(s.accounts, b, base) && !TwoInTier(s.accounts, base)
    ensures !Moves(Switched(s, b, now), base)
  {
    var t := Switched(s, b, now);
    SwitchIs(s, b, now);
    SwitchKeeps(s, b, device, base, at, now);
    AlikeTiers(s.accounts, t.accounts, base);
    forall f | 0 <= f < |t.accounts| && First(t.accounts, f, base)
      ensures f == b
    {
      OnlyOfTier(s.accounts, f, b, base);
    }
  }

  lemma OnlyOfTier(accounts: seq<S.Account>, f: nat, b: nat, base: int)
    requires InTier(accounts, f, base) && InTier(accounts, b, base) && !TwoInTier(accounts, base)
    ensures f == b
  {
    hide InTier;
    InTierIsIndex(accounts, f, base);
    InTierIsIndex(accounts, b, base);
  }

  lemma InTierIsIndex(accounts: seq<S.Account>, i: nat, base: int)
    requires InTier(accounts, i, base)
    ensures i < |accounts|
  {
  }

  /** With every never-used account in the tier, a move uses one up, or is the one that
      leaves an account that is gone. */
  lemma InnerMovePays(s: Pool, b: nat, device: DeviceId, base: int, at: int, now: int)
    requires Proper(s.accounts, device, base, at) && now > at && Moves(s, base)
    requires b < |s.accounts| && First(s.accounts, b, base) && !UnusedOutside(s.accounts, base)
    ensures Left(Switched(s, b, now), base) + 1 <= Left(s, base)
  {
    hide Proper, First, InTier, Held, Switched, Ok, Zeros;
    var t := Switched(s, b, now);
    FirstIsOk(s.accounts, b, base);
    SwitchDropsZeros(s, b, device, base, at, now);
    SwitchedIsHeld(s, b, device, base, at, now);
    if Asks(t, base) {
      var u :| 0 <= u < |s.accounts| && u != b && UnusedAt(s.accounts, u, base);
      assert InTier(s.accounts, u, base);
      FirstIsUnusedToo(s.accounts, b, u, device, base, at);
      ZerosFind(s.accounts, base, |s.accounts|, b);
      UnusedStaysCounted(s, b, u, device, base, at, now);
    }
  }

  lemma UnusedStaysCounted(s: Pool, b: nat, u: nat, device: DeviceId, base: int, at: int, now: int)
    requires Proper(s.accounts, device, base, at) && now > at && b < |s.accounts|
    requires u < |s.accounts| && u != b && InTier(s.accounts, u, base) && s.accounts[u].lastUsedAt == 0
    ensures var t := Switched(s, b, now); Zeros(t.accounts, base, |t.accounts|) > 0
  {
    var t := Switched(s, b, now);
    SwitchIs(s, b, now);
    SwitchKeeps(s, b, device, base, at, now);
    AlikeTiers(s.accounts, t.accounts, base);
    ZerosFind(t.accounts, base, |t.accounts|, u);
  }

  lemma NoNewOutsider(s: Pool, b: nat, device: DeviceId, base: int, at: int, now: int)
    requires Proper(s.accounts, device, base, at) && now > at && b < |s.accounts|
    ensures var t := Switched(s, b, now);
            TwoInTier(t.accounts, base) == TwoInTier(s.accounts, base) &&
            (UnusedOutside(t.accounts, base) ==> UnusedOutside(s.accounts, base))
  {
    var t := Switched(s, b, now);
    SwitchIs(s, b, now);
    SwitchKeeps(s, b, device, base, at, now);
    SwitchKeepsUnused(s, b, device, base, at, now);
    AlikeTiers(s.accounts, t.accounts, base);
    hide InTier, UnusedAt, Ok;
    if u :| 0 <= u < |t.accounts| && UnusedAt(t.accounts, u, base) && !InTier(t.accounts, u, base) {
      assert UnusedAt(s.accounts, u, base) && !InTier(s.accounts, u, base);
    }
  }

  /** A pool that is not restless pays for every move. */
  lemma RestingMovePays(s: Pool, b: nat, device: DeviceId, base: int, at: int, now: int)
    requires Proper(s.accounts, device, base, at) && now > at && Moves(s, base) && !Restless(s, base)
    requires b < |s.accounts| && First(s.accounts, b, base)
    ensures var t := Switched(s, b, now);
            !Restless(t, base) && Left(t, base) + 1 <= Left(s, base)
  {
    hide Proper, First, Moves, TwoInTier, UnusedOutside, Switched;
    NoNewOutsider(s, b, device, base, at, now);
    if !TwoInTier(s.accounts, base) {
      LoneTierRests(s, b, device, base, at, now);
    } else {
      InnerMovePays(s, b, device, base, at, now);
    }
  }

  // -------------------------------------------------------------------------------- a run

  /** Ticks at growing times after `at`, through which eligibility stays as at `base`. */
  ghost predicate Calm(accounts: seq<S.Account>, base: int, at: int, times: seq<int>) {
    && (forall n :: 0 <= n < |times| ==> times[n] > at && Steady(accounts, times[n], base))
    && (forall m, n :: 0 <= m < n < |times| ==> times[m] < times[n])
  }

  function LastOf(times: seq<int>, at: int): int { if times == [] then at else times[|times| - 1] }

  /** How often a run moves to another account. */
  function SwitchCount(s: Pool, device: DeviceId, times: seq<int>): nat {
    if times == [] then 0
    else
      var init := times[..|times| - 1];
      SwitchCount(s, device, init) + if Run(s, device, times).current != Run(s, device, init).current then 1 else 0
  }

  lemma AlikeJoins(a: seq<S.Account>, b: seq<S.Account>, c: seq<S.Account>)
    requires Alike(a, b) && Alike(b, c)
    ensures Alike(a, c)
  {
    forall i | 0 <= i < |a|
      ensures SameButUse(a[i], c[i])
    {
      assert SameButUse(a[i], b[i]) && SameButUse(b[i], c[i]);
    }
  }

  lemma AlikeIsSteady(a: seq<S.Account>, b: seq<S.Account>, now: int, base: int)
    requires Alike(a, b) && Steady(a, now, base)
    ensures Steady(b, now, base)
  {
    assert forall i :: 0 <= i < |a| ==> SameButUse(a[i], b[i]);
  }

  lemma CalmSteps(accounts: seq<S.Account>, base: int, at: int, times: seq<int>)
    requires Calm(accounts, base, at, times) && times != []
    ensures var n := |times| - 1;
            Calm(accounts, base, at, times[..n]) && times[n] > LastOf(times[..n], at) &&
            Steady(accounts, times[n], base)
  {
    hide Steady;
  }

  /** The state a run has reached: still proper, the same accounts but for their use. */
  ghost predicate Reached(s: Pool, t: Pool, device: DeviceId, base: int, at: int) {
    Alike(s.accounts, t.accounts) && Proper(t.accounts, device, base, at)
  }

  /** One tick of a run, restless or not. */
  lemma TickPays(s: Pool, t: Pool, device: DeviceId, base: int, at: int, now: int)
    requires Reached(s, t, device, base, at) && Steady(s.accounts, now, base) && now > at
    ensures var u := Ticked(t, device, now);
            Reached(s, u, device, base, now) &&
            (Restless(t, base) ==> Restless(u, base) && u.current != t.current) &&
            (!Restless(t, base) ==>
               !Restless(u, base) && Left(u, base) + (if u.current != t.current then 1 else 0) <= Left(t, base))
  {
    hide Alike, Proper, Steady, Restless, Moves, Left, First, Ticked, Switched;
    AlikeIsSteady(s.accounts, t.accounts, now, base);
    TickIs(t, device, base, at, now);
    RestlessMoves(t, base);
    if Moves(t, base) {
      var b :| 0 <= b < |t.accounts| && First(t.accounts, b, base) && t.accounts[b].id != t.current &&
               Ticked(t, device, now) == Switched(t, b, now);
      SwitchKeeps(t, b, device, base, at, now);
      AlikeJoins(s.accounts, t.accounts, Switched(t, b, now).accounts);
      SwitchNames(t, b, now);
      if Restless(t, base) {
        MoveStaysRestless(t, b, device, base, at, now);
      } else {
        RestingMovePays(t, b, device, base, at, now);
      }
    } else {
      LaterIsProper(t.accounts, device, base, at, now);
    }
  }

  lemma RestlessMoves(s: Pool, base: int)
    ensures Restless(s, base) ==> Moves(s, base)
  {
  }

  lemma SwitchNames(s: Pool, b: nat, now: int)
    requires b < |s.accounts|
    ensures Switched(s, b, now).current == s.accounts[b].id
  {
  }

  lemma LaterIsProper(accounts: seq<S.Account>, device: DeviceId, base: int, at: int, now: int)
    requires Proper(accounts, device, base, at) && now >= at
    ensures Proper(accounts, device, base, now)
  {
  }

  lemma {:induction false} RunPays(s: Pool, device: DeviceId, base: int, at: int, times: seq<int>)
    requires Proper(s.accounts, device, base, at) && Calm(s.accounts, base, at, times)
    ensures var t := Run(s, device, times);
            Reached(s, t, device, base, LastOf(times, at)) && Restless(t, base) == Restless(s, base) &&
            (Restless(s, base) ==> SwitchCount(s, device, times) == |times|) &&
            (!Restless(s, base) ==> SwitchCount(s, device, times) + Left(t, base) <= Left(s, base))
  {
    if times == [] {
    } else {
      hide Proper, Calm, Reached, Restless, Left, Ticked, Steady;
      var n := |times| - 1;
      CalmSteps(s.accounts, base, at, times);
      RunPays(s, device, base, at, times[..n]);
      TickPays(s, Run(s, device, times[..n]), device, base, LastOf(times[..n], at), times[n]);
    }
  }

  /** However long it runs, a restless pool switches at every tick. */
  lemma SwingsForEver(s: Pool, device: DeviceId, base: int, at: int, times: seq<int>)
    requires Proper(s.accounts, device, base, at) && Calm(s.accounts, base, at, times) && Restless(s, base)
    ensures SwitchCount(s, device, times) == |times| && Restless(Run(s, device, times), base)
  {
    RunPays(s, device, base, at, times);
  }

  /** Any other settles: over any run it switches at most once per never-used account of
      its tier, or once in all. */
  lemma SettlesOtherwise(s: Pool, device: DeviceId, base: int, at: int, times: seq<int>)
    requires Proper(s.accounts, device, base, at) && Calm(s.accounts, base, at, times) && !Restless(s, base)
    ensures SwitchCount(s, device, times) <= Bound(s, base)
  {
    RunPays(s, device, base, at, times);
  }

  /** The law of the run, with eligibility and utilizations fixed and no pin for the
      device: the choice settles, within the bound, exactly when it is not restless. */
  lemma SettlesExactlyWhen(s: Pool, device: DeviceId, base: int, at: int, times: seq<int>)
    requires Proper(s.accounts, device, base, at) && Calm(s.accounts, base, at, times) && |times| > Bound(s, base)
    ensures SwitchCount(s, device, times) <= Bound(s, base) <==> !Restless(s, base)
  {
    RunPays(s, device, base, at, times);
  }

  function Ticks(at: int, n: nat): seq<int> { if n == 0 then [] else Ticks(at, n - 1) + [at + n] }

  lemma {:induction false} TicksAreCalm(accounts: seq<S.Account>, base: int, at: int, n: nat)
    requires forall now :: now > at ==> Steady(accounts, now, base)
    ensures |Ticks(at, n)| == n && Calm(accounts, base, at, Ticks(at, n)) && LastOf(Ticks(at, n), at) == at + n
  {
    hide Steady;
    if n > 0 {
      TicksAreCalm(accounts, base, at, n - 1);
      var init := Ticks(at, n - 1);
      assert forall m :: 0 <= m < |init| ==> init[m] <= LastOf(init, at);
    }
  }

  /** So, where eligibility never changes again, the bound holds on every run exactly when
      the pool is not restless; on a restless one no bound does. */
  lemma SettlesOnEveryRunExactlyWhen(s: Pool, device: DeviceId, base: int, at: int)
    requires Proper(s.accounts, device, base, at) && forall now :: now > at ==> Steady(s.accounts, now, base)
    ensures (forall times :: Calm(s.accounts, base, at, times) ==> SwitchCount(s, device, times) <= Bound(s, base)) <==>
            !Restless(s, base)
    ensures Restless(s, base) ==>
              forall n: nat :: Calm(s.accounts, base, at, Ticks(at, n)) && SwitchCount(s, device, Ticks(at, n)) == n
  {
    hide Proper, Calm, Steady, Restless, Bound;
    forall n: nat
      ensures Calm(s.accounts, base, at, Ticks(at, n))
      ensures Restless(s, base) ==> SwitchCount(s, device, Ticks(at, n)) == n
    {
      TicksAreCalm(s.accounts, base, at, n);
      if Restless(s, base) {
        SwingsForEver(s, device, base, at, Ticks(at, n));
      }
    }
    if Restless(s, base) {
      var longer := Ticks(at, Bound(s, base) + 1);
      assert SwitchCount(s, device, longer) > Bound(s, base);
    } else {
      forall times | Calm(s.accounts, base, at, times)
        ensures SwitchCount(s, device, times) <= Bound(s, base)
      {
        SettlesOtherwise(s, device, base, at, times);
      }
    }
  }

  /** Where the current account was used after every other of the tier, as it was if this
      device switched to it last, the shape of the tier alone decides. */
  lemma UsedLastExactlyWhen(s: Pool, c: nat, device: DeviceId, base: int, at: int)
    requires Proper(s.accounts, device, base, at) && c < |s.accounts| && Ok(s.accounts, c, base)
    requires s.current == s.accounts[c].id && s.accounts[c].lastUsedAt > 0
    requires forall m :: 0 <= m < |s.accounts| && m != c && InTier(s.accounts, m, base) ==>
               s.accounts[m].lastUsedAt < s.accounts[c].lastUsedAt
    ensures Restless(s, base) <==> TwoInTier(s.accounts, base) && UnusedOutside(s.accounts, base)
  {
    hide Ok, InTier;
    if TwoInTier(s.accounts, base) && UnusedOutside(s.accounts, base) {
      var u :| 0 <= u < |s.accounts| && UnusedAt(s.accounts, u, base) && !InTier(s.accounts, u, base);
      assert s.accounts[u].id != s.accounts[c].id;
      var i, j :| 0 <= i < j < |s.accounts| && InTier(s.accounts, i, base) && InTier(s.accounts, j, base);
      OkHasFirst(s.accounts, device, base, at, c);
      var f :| 0 <= f < |s.accounts| && First(s.accounts, f, base);
      UsedLastIsNotFirst(s.accounts, c, if i == c then j else i, base);
      assert s.accounts[f].id != s.accounts[c].id;
    }
  }

  /** But an account that is itself the least recently used of the tier is kept for good,
      whatever else the pool holds. */
  lemma FirstIsKept(s: Pool, b: nat, device: DeviceId, base: int, at: int, times: seq<int>)
    requires Proper(s.accounts, device, base, at) && Calm(s.accounts, base, at, times)
    requires b < |s.accounts| && First(s.accounts, b, base) && s.current == s.accounts[b].id
    ensures SwitchCount(s, device, times) == 0
  {
    forall f | 0 <= f < |s.accounts| && First(s.accounts, f, base)
      ensures f == b
    {
      FirstIsUnique(s.accounts, base, f, b);
    }
    RunPays(s, device, base, at, times);
  }

  function Example(w: S.Window, half: S.Window): Pool {
    Pool([S.Account(1, true, 0, w, w, w, S.NO_DEVICE, 20), S.Account(2, true, 0, w, w, w, S.NO_DEVICE, 10),
          S.Account(3, true, 0, w, half, w, S.NO_DEVICE, 0)], 1)
  }

  /** A restless pool: two accounts without usage, one half used and never injected. */
  lemma RestlessExists(device: DeviceId, w: S.Window, half: S.Window, base: int)
    requires w == S.Window(0.0, 95.0, false) && half == S.Window(50.0, 95.0, false) && device != S.NO_DEVICE
    ensures var s := Example(w, half);
            Proper(s.accounts, device, base, 20) && Restless(s, base) && forall now :: Steady(s.accounts, now, base)
  {
    var s := Example(w, half);
    assert InTier(s.accounts, 0, base) && InTier(s.accounts, 1, base);
    assert UnusedAt(s.accounts, 2, base) && !InTier(s.accounts, 2, base);
    assert First(s.accounts, 1, base);
  }
}
