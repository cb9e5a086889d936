/** Which Claude account a Coordinator tick aims at, and when it stays with it. */
module ClaudeChoice {
  import opened Options
  import opened StickyCodex
  import S = Selector

  /** An account as listed: the vault lists every provider's accounts together. */
  datatype Entry = Entry(account: S.Account, claude: bool)

  function EntryRow(e: Entry, now: int): Row {
    Row(e.account.id, e.claude && S.IsEligible(e.account, now), e.account.pinnedDevice, e.account.lastUsedAt)
  }

  function EntryRows(entries: seq<Entry>, now: int): (rows: seq<Row>)
    ensures |rows| == |entries| && forall i :: 0 <= i < |rows| ==> rows[i] == EntryRow(entries[i], now)
  {
    if entries == [] then []
    else EntryRows(entries[..|entries| - 1], now) + [EntryRow(entries[|entries| - 1], now)]
  }

  predicate PinnedElsewhere(rows: seq<Row>, current: AccountId, device: DeviceId) {
    exists i :: 0 <= i < |rows| && rows[i].id != current && IsPin(rows[i], device)
  }

  /** Auto mode: the current account while it is eligible and no other is pinned. */
  function ChooseAuto(rows: seq<Row>, current: AccountId, device: DeviceId): Choice {
    if current != 0 && Holds(rows, current) && !PinnedElsewhere(rows, current, device) then Take(current) else AskPicker
  }

  /** Manual mode: the lowest pin, else the current account, else nothing. */
  function ChooseManual(rows: seq<Row>, current: AccountId, device: DeviceId): Choice {
    match LowestPin(rows, device)
    case Some(id) => Take(id)
    case None => if Holds(rows, current) then Take(current) else NoneAvailable
  }

  method ChooseAutoScan(entries: seq<Entry>, current: AccountId, device: DeviceId, now: int) returns (choice: Choice)
    ensures choice == ChooseAuto(EntryRows(entries, now), current, device)
  {
    if current == 0 {
      return AskPicker;
    }
    ghost var rows := EntryRows(entries, now);
    var held, pinnedOther := false, false;
    for i := 0 to |entries|
      invariant held <==> Holds(rows[..i], current)
      invariant pinnedOther <==> PinnedElsewhere(rows[..i], current, device)
    {
      HoldsGrows(rows, i, current);
      PinnedElsewhereGrows(rows, i, current, device);
      var e := entries[i];
      if !e.claude || !S.IsEligible(e.account, now) {
        continue;
      }
      if e.account.id == current {
        held := true;
        continue;
      }
      if PinnedForDevice(EntryRow(e, now), device) {
        pinnedOther := true;
      }
    }
    assert rows[..|rows|] == rows;
    choice := if held && !pinnedOther then Take(current) else AskPicker;
  }

  lemma PinnedElsewhereGrows(rows: seq<Row>, i: nat, current: AccountId, device: DeviceId)
    requires i < |rows|
    ensures PinnedElsewhere(rows[..i + 1], current, device) <==>
            PinnedElsewhere(rows[..i], current, device) || (rows[i].id != current && IsPin(rows[i], device))
  {
    var longer := rows[..i + 1];
    if j :| 0 <= j < i && rows[..i][j].id != current && IsPin(rows[..i][j], device) {
      assert longer[j] == rows[..i][j];
    }
    if j :| 0 <= j < |longer| && longer[j].id != current && IsPin(longer[j], device) {
      assert j < i ==> rows[..i][j] == longer[j];
    }
    assert longer[i] == rows[i];
  }

  method ChooseManualScan(entries: seq<Entry>, current: AccountId, device: DeviceId, now: int) returns (choice: Choice)
    ensures choice == ChooseManual(EntryRows(entries, now), current, device)
  {
    ghost var rows := EntryRows(entries, now);
    var held: bool, pinned: Option<AccountId> := false, None;
    for i := 0 to |entries|
      invariant held <==> Holds(rows[..i], current)
      invariant pinned == LowestPin(rows[..i], device)
    {
      assert rows[..i + 1][..i] == rows[..i];
      HoldsGrows(rows, i, current);
      var e := entries[i];
      if !e.claude || !S.IsEligible(e.account, now) {
        continue;
      }
      if PinnedForDevice(EntryRow(e, now), device) && (pinned.None? || e.account.id < pinned.value) {
        pinned := Some(e.account.id);
      }
      if e.account.id == current {
        held := true;
      }
    }
    assert rows[..|rows|] == rows;
    if pinned.Some? {
      return Take(pinned.value);
    }
    return if held then Take(current) else NoneAvailable;
  }

  /** Whatever is taken is an eligible Claude account, and only such an account's pin makes a
      tick leave the current one: the other providers' accounts take no part. */
  lemma TakesOnlyEligibleClaude(entries: seq<Entry>, current: AccountId, device: DeviceId, now: int, id: AccountId)
    requires ChooseAuto(EntryRows(entries, now), current, device) == Take(id) ||
             ChooseManual(EntryRows(entries, now), current, device) == Take(id)
    ensures exists e :: e in entries && e.claude && S.IsEligible(e.account, now) && e.account.id == id
  {
    var rows := EntryRows(entries, now);
    LowestPinIs(rows, device);
    var i :| 0 <= i < |rows| && rows[i].ok && rows[i].id == id;
    assert entries[i] in entries;
  }

  lemma OnlyClaudePinsCount(entries: seq<Entry>, current: AccountId, device: DeviceId, now: int)
    requires PinnedElsewhere(EntryRows(entries, now), current, device)
    ensures exists e :: e in entries && e.claude && S.IsEligible(e.account, now) && e.account.id != current
  {
    var rows := EntryRows(entries, now);
    var i :| 0 <= i < |rows| && rows[i].id != current && IsPin(rows[i], device);
    assert entries[i] in entries;
  }

  /** The Codex choice mirrors the Claude one: exactly so in manual mode, and in auto
      mode wherever no other account is pinned. */
  lemma CodexMirrorsClaude(rows: seq<Row>, current: AccountId, device: DeviceId)
    requires ProperIds(rows)
    ensures ChooseManual(rows, current, device) == Choose(rows, current, device, false)
    ensures !PinnedElsewhere(rows, current, device) && current != 0 ==>
              ChooseAuto(rows, current, device) == Choose(rows, current, device, true)
    ensures PinnedElsewhere(rows, current, device) ==> ChooseAuto(rows, current, device) == AskPicker
  {
    LowestPinIs(rows, device);
    LowestPinCounts(rows, device);
  }

  // -------------------------------------------------------------------- staying put

  /** One device on its own pool, in auto mode. */
  datatype Pool = Pool(accounts: seq<S.Account>, current: AccountId)

  function Entries(accounts: seq<S.Account>): (entries: seq<Entry>)
    ensures |entries| == |accounts| && forall i :: 0 <= i < |entries| ==> entries[i] == Entry(accounts[i], true)
  {
    if accounts == [] then [] else Entries(accounts[..|accounts| - 1]) + [Entry(accounts[|accounts| - 1], true)]
  }

  function Rows(accounts: seq<S.Account>, now: int): seq<Row> { EntryRows(Entries(accounts), now) }

  predicate NoSkip(a: S.Account) { false }

  function CandidatesAt(accounts: seq<S.Account>, now: int): seq<S.Account> { S.Candidates(accounts, now, NoSkip) }

  function UsedAt(accounts: seq<S.Account>, id: AccountId, at: int): (r: seq<S.Account>)
    ensures |r| == |accounts|
    ensures forall i :: 0 <= i < |r| ==>
      r[i] == if accounts[i].id == id then accounts[i].(pinnedDevice := S.NO_DEVICE, lastUsedAt := at) else accounts[i]
  {
    if accounts == [] then []
    else
      var a := accounts[|accounts| - 1];
      UsedAt(accounts[..|accounts| - 1], id, at) +
      [if a.id == id then a.(pinnedDevice := S.NO_DEVICE, lastUsedAt := at) else a]
  }

  function Picked(accounts: seq<S.Account>, device: DeviceId, now: int): Option<S.Account> {
    var candidates := CandidatesAt(accounts, now);
    if candidates == [] then None else Some(S.Sorted(candidates, device)[0])
  }

  /** A tick whose lease and write succeed; only a real switch marks the account used. */
  function Ticked(s: Pool, device: DeviceId, now: int): Pool {
    match ChooseAuto(Rows(s.accounts, now), s.current, device)
    case Take(_) => s
    case NoneAvailable => s
    case AskPicker =>
      match Picked(s.accounts, device, now)
      case None => s
      case Some(a) => if a.id == s.current then s else Pool(UsedAt(s.accounts, a.id, now), a.id)
  }

  function Run(s: Pool, device: DeviceId, times: seq<int>): Pool {
    if times == [] then s else Ticked(Run(s, device, times[..|times| - 1]), device, times[|times| - 1])
  }

  lemma PickedIsBest(accounts: seq<S.Account>, device: DeviceId, now: int)
    requires S.DistinctIds(accounts)
    ensures var c := CandidatesAt(accounts, now);
            Picked(accounts, device, now).None? <==> c == []
    ensures forall a :: S.IsBest(a, CandidatesAt(accounts, now), device) <==> Picked(accounts, device, now) == Some(a)
  {
    var c := CandidatesAt(accounts, now);
    S.CandidatesAre(accounts, now, NoSkip);
    if c != [] {
      S.SortedIsRanked(c, device);
      S.SortedHeadIsBest(c, S.Sorted(c, device), device);
    }
  }

  /** An eligible current account is kept by a tick exactly when no other eligible
      account is pinned here or unused, or it is itself the best of the pool. */
  lemma KeptExactlyWhen(s: Pool, device: DeviceId, now: int)
    requires S.DistinctIds(s.accounts) && s.current != 0 && Holds(Rows(s.accounts, now), s.current)
    ensures Ticked(s, device, now).current == s.current <==>
            !PinnedElsewhere(Rows(s.accounts, now), s.current, device) ||
            exists a :: S.IsBest(a, CandidatesAt(s.accounts, now), device) && a.id == s.current
  {
    PickedIsBest(s.accounts, device, now);
    HeldIsCandidate(s.accounts, now, s.current);
    if Picked(s.accounts, device, now).Some? {
      assert S.IsBest(Picked(s.accounts, device, now).value, CandidatesAt(s.accounts, now), device);
    }
  }

  lemma HeldIsCandidate(accounts: seq<S.Account>, now: int, id: AccountId)
    requires Holds(Rows(accounts, now), id)
    ensures CandidatesAt(accounts, now) != []
  {
    S.CandidatesAre(accounts, now, NoSkip);
    var i :| 0 <= i < |Rows(accounts, now)| && Rows(accounts, now)[i].ok && Rows(accounts, now)[i].id == id;
    assert accounts[i] in CandidatesAt(accounts, now);
  }

  /** With no other account pinned or unused, the current one is kept for good, while
      it stays eligible. */
  lemma {:induction false} StaysWithoutPins(s: Pool, device: DeviceId, times: seq<int>)
    requires s.current != 0
    requires forall now :: now in times ==>
      Holds(Rows(s.accounts, now), s.current) && !PinnedElsewhere(Rows(s.accounts, now), s.current, device)
    ensures Run(s, device, times) == s
  {
    if times != [] {
      StaysWithoutPins(s, device, times[..|times| - 1]);
    }
  }
}
