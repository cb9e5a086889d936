/** The sticky choice of a Codex account, and why it settles. */
module StickyCodex {
  import opened Options
  import S = Selector

  type AccountId = S.AccountId
  type DeviceId = S.DeviceId

  /** An account as listed; only eligible Codex accounts take part. */
  datatype Listed = Listed(account: S.Account, codex: bool)

  /** What the choice sees of an account. */
  datatype Row = Row(id: AccountId, ok: bool, pinnedDevice: DeviceId, lastUsedAt: int)

  function RowOf(l: Listed, now: int): Row {
    Row(l.account.id, l.codex && S.IsEligible(l.account, now), l.account.pinnedDevice, l.account.lastUsedAt)
  }

  function RowsOf(accounts: seq<Listed>, now: int): (rows: seq<Row>)
    ensures |rows| == |accounts| && forall i :: 0 <= i < |rows| ==> rows[i] == RowOf(accounts[i], now)
  {
    if accounts == [] then []
    else RowsOf(accounts[..|accounts| - 1], now) + [RowOf(accounts[|accounts| - 1], now)]
  }

  /** A pin names its device; a row never used counts as pinned for every device. */
  predicate PinnedForDevice(r: Row, device: DeviceId) {
    if r.pinnedDevice != S.NO_DEVICE then r.pinnedDevice == device else r.lastUsedAt == 0
  }

  predicate IsPin(r: Row, device: DeviceId) { r.ok && PinnedForDevice(r, device) }

  /** The pin with the lowest id. */
  function LowestPin(rows: seq<Row>, device: DeviceId): Option<AccountId> {
    if rows == [] then None
    else
      var lowest, r := LowestPin(rows[..|rows| - 1], device), rows[|rows| - 1];
      if IsPin(r, device) && (lowest.None? || r.id < lowest.value) then Some(r.id) else lowest
  }

  predicate Holds(rows: seq<Row>, id: AccountId) { exists i :: 0 <= i < |rows| && rows[i].ok && rows[i].id == id }

  datatype Choice = Take(id: AccountId) | AskPicker | NoneAvailable

  function Choose(rows: seq<Row>, current: AccountId, device: DeviceId, auto: bool): Choice {
    var pinned := LowestPin(rows, device);
    if pinned.Some? && pinned.value != current then Take(pinned.value)
    else if Holds(rows, current) then Take(current)
    else if auto then AskPicker
    else NoneAvailable
  }

  method ChooseStickyCodex(accounts: seq<Listed>, current: AccountId, device: DeviceId, auto: bool, now: int)
    returns (choice: Choice)
    ensures choice == Choose(RowsOf(accounts, now), current, device, auto)
  {
    ghost var rows := RowsOf(accounts, now);
    var held: bool, pinned: Option<AccountId> := false, None;
    for i := 0 to |accounts|
      invariant held <==> Holds(rows[..i], current)
      invariant pinned == LowestPin(rows[..i], device)
    {
      assert rows[..i + 1][..i] == rows[..i] && rows[..i + 1] == rows[..i] + [rows[i]];
      HoldsGrows(rows, i, current);
      var a := accounts[i];
      if a.codex && S.IsEligible(a.account, now) {
        if a.account.id == current {
          held := true;
        }
        if PinnedForDevice(RowOf(a, now), device) && (pinned.None? || a.account.id < pinned.value) {
          pinned := Some(a.account.id);
        }
      }
    }
    assert rows[..|rows|] == rows;
    if pinned.Some? && pinned.value != current {
      return Take(pinned.value);
    }
    if held {
      return Take(current);
    }
    return if auto then AskPicker else NoneAvailable;
  }

  lemma HoldsGrows(rows: seq<Row>, i: nat, id: AccountId)
    requires i < |rows|
    ensures Holds(rows[..i + 1], id) <==> Holds(rows[..i], id) || (rows[i].ok && rows[i].id == id)
  {
    if j :| 0 <= j < i && rows[..i][j].ok && rows[..i][j].id == id {
      assert rows[..i + 1][j] == rows[..i][j];
    }
    var longer := rows[..i + 1];
    if j :| 0 <= j < |longer| && longer[j].ok && longer[j].id == id {
      assert j < i ==> rows[..i][j] == longer[j];
    }
    assert longer[i] == rows[i];
  }

  /** Whatever is chosen is an eligible Codex account: nothing else takes part. */
  lemma TakesOnlyEligibleCodex(accounts: seq<Listed>, current: AccountId, device: DeviceId, auto: bool, now: int)
    ensures match Choose(RowsOf(accounts, now), current, device, auto)
            case Take(id) => exists l :: l in accounts && l.codex && S.IsEligible(l.account, now) && l.account.id == id
            case _ => forall l :: l in accounts && l.codex && S.IsEligible(l.account, now) ==> l.account.id != current
  {
    var rows := RowsOf(accounts, now);
    LowestPinIs(rows, device);
    forall i | 0 <= i < |rows| && rows[i].ok
      ensures accounts[i] in accounts && accounts[i].codex && S.IsEligible(accounts[i].account, now)
    {
    }
    if Choose(rows, current, device, auto).Take? {
      var id := Choose(rows, current, device, auto).id;
      var i :| 0 <= i < |rows| && rows[i].ok && rows[i].id == id;
      assert accounts[i] in accounts;
    } else {
      forall l | l in accounts && l.codex && S.IsEligible(l.account, now)
        ensures l.account.id != current
      {
        var i :| 0 <= i < |accounts| && accounts[i] == l;
        assert rows[i].ok;
      }
    }
  }

  /** The choice in its own terms: the lowest pin wins, then the current account. */
  lemma {:induction false} LowestPinIs(rows: seq<Row>, device: DeviceId)
    ensures match LowestPin(rows, device)
            case None => forall i :: 0 <= i < |rows| ==> !IsPin(rows[i], device)
            case Some(id) =>
              (exists i :: 0 <= i < |rows| && IsPin(rows[i], device) && rows[i].id == id) &&
              forall i :: 0 <= i < |rows| && IsPin(rows[i], device) ==> id <= rows[i].id
  {
    if rows == [] {
    } else {
      var n := |rows| - 1;
      LowestPinIs(rows[..n], device);
      assert forall i :: 0 <= i < n ==> rows[..n][i] == rows[i];
      match LowestPin(rows[..n], device)
      case None =>
      case Some(id) =>
        var i :| 0 <= i < n && IsPin(rows[..n][i], device) && rows[..n][i].id == id;
        assert IsPin(rows[i], device) && rows[i].id == id;
    }
  }

  // ----------------------------------------------------------------------------- a run

  datatype Sticky = Sticky(rows: seq<Row>, current: AccountId)

  /** One tick as its surroundings decide it: the auto switch, what the picker offers
      (0: nothing), whether the credential is already in storage, whether the tick
      fails before it saves, and the time. */
  datatype Tick = Tick(auto: bool, offered: AccountId, stored: bool, fails: bool, at: int)

  ghost predicate ProperIds(rows: seq<Row>) {
    && (forall i, j :: 0 <= i < j < |rows| ==> rows[i].id != rows[j].id)
    && (forall i :: 0 <= i < |rows| ==> rows[i].id != 0)
  }

  /** The picker offers nothing or an eligible account; clocks are past the epoch. */
  predicate Possible(s: Sticky, t: Tick) { t.at > 0 && (t.offered == 0 || Holds(s.rows, t.offered)) }

  /** A used row carries no pin, and is no longer unused. */
  function Used(r: Row, at: int): Row { r.(pinnedDevice := S.NO_DEVICE, lastUsedAt := at) }

  function MarkUsed(rows: seq<Row>, id: AccountId, at: int): (r: seq<Row>)
    ensures |r| == |rows|
    ensures forall i :: 0 <= i < |r| ==>
      r[i] == if rows[i].id == id then Used(rows[i], at) else rows[i]
  {
    if rows == [] then []
    else
      var r := rows[|rows| - 1];
      MarkUsed(rows[..|rows| - 1], id, at) +
      [if r.id == id then Used(r, at) else r]
  }

  function Selected(s: Sticky, device: DeviceId, t: Tick): AccountId {
    match Choose(s.rows, s.current, device, t.auto)
    case Take(id) => id
    case AskPicker => t.offered
    case NoneAvailable => 0
  }

  /** A tick with every lease granted: nothing available restores, and drops the
      current account; a saved credential marks its account used. */
  function Ticked(s: Sticky, device: DeviceId, t: Tick): Sticky {
    var id := Selected(s, device, t);
    if id == 0 then s.(current := 0)
    else if t.fails then s
    else if t.stored then s.(current := id)
    else Sticky(MarkUsed(s.rows, id, t.at), id)
  }

  function Run(s: Sticky, device: DeviceId, ticks: seq<Tick>): Sticky {
    if ticks == [] then s else Ticked(Run(s, device, ticks[..|ticks| - 1]), device, ticks[|ticks| - 1])
  }

  ghost predicate PossibleRun(s: Sticky, device: DeviceId, ticks: seq<Tick>) {
    forall n :: 0 <= n < |ticks| ==> Possible(Run(s, device, ticks[..n]), ticks[n])
  }

  predicate Switches(s: Sticky, t: Sticky) { t.current != s.current && t.current != 0 }

  /** How often a run moves to another account. */
  function SwitchCount(s: Sticky, device: DeviceId, ticks: seq<Tick>): nat {
    if ticks == [] then 0
    else
      var init := ticks[..|ticks| - 1];
      SwitchCount(s, device, init) + if Switches(Run(s, device, init), Run(s, device, ticks)) then 1 else 0
  }

  function PinCount(rows: seq<Row>, device: DeviceId): nat {
    if rows == [] then 0
    else PinCount(rows[..|rows| - 1], device) + if IsPin(rows[|rows| - 1], device) then 1 else 0
  }

  /** The switches still possible: one per pin not yet current, or one to leave an
      account that is gone. */
  function Unsettled(s: Sticky, device: DeviceId): int {
    var pins := PinCount(s.rows, device);
    if pins == 0 then if Holds(s.rows, s.current) then 0 else 1
    else if LowestPin(s.rows, device) == Some(s.current) then pins - 1
    else pins
  }

  lemma {:induction false} NoPinsCounted(rows: seq<Row>, device: DeviceId)
    ensures PinCount(rows, device) == 0 <==> forall i :: 0 <= i < |rows| ==> !IsPin(rows[i], device)
  {
    if rows == [] {
    } else {
      var n := |rows| - 1;
      NoPinsCounted(rows[..n], device);
      assert rows == rows[..n] + [rows[n]];
    }
  }

  predicate HasPin(rows: seq<Row>, id: AccountId, device: DeviceId) {
    exists i :: 0 <= i < |rows| && rows[i].id == id && IsPin(rows[i], device)
  }

  lemma HasPinGrows(rows: seq<Row>, id: AccountId, device: DeviceId)
    requires rows != []
    ensures var n := |rows| - 1;
            HasPin(rows, id, device) <==> HasPin(rows[..n], id, device) || (rows[n].id == id && IsPin(rows[n], device))
  {
    var n := |rows| - 1;
    if i :| 0 <= i < n && rows[..n][i].id == id && IsPin(rows[..n][i], device) {
      assert rows[i] == rows[..n][i];
    }
    if i :| 0 <= i < |rows| && rows[i].id == id && IsPin(rows[i], device) {
      assert i < n ==> rows[i] == rows[..n][i];
    }
  }

  lemma PinCountGrows(rows: seq<Row>, r: Row, device: DeviceId)
    ensures PinCount(rows + [r], device) == PinCount(rows, device) + if IsPin(r, device) then 1 else 0
  {
    assert (rows + [r])[..|rows|] == rows;
  }

  lemma MarkUsedGrows(rows: seq<Row>, r: Row, id: AccountId, at: int)
    ensures MarkUsed(rows + [r], id, at) == MarkUsed(rows, id, at) + [if r.id == id then Used(r, at) else r]
  {
    assert (rows + [r])[..|rows|] == rows;
  }

  lemma UsedIsNoPin(r: Row, at: int, device: DeviceId)
    requires at > 0
    ensures !IsPin(Used(r, at), device)
  {
  }

  /** Marking a row used takes its pin off, and no other. */
  lemma {:induction false} MarkUsedUnpins(rows: seq<Row>, id: AccountId, at: int, device: DeviceId)
    requires ProperIds(rows) && at > 0
    ensures PinCount(MarkUsed(rows, id, at), device) ==
            PinCount(rows, device) - if HasPin(rows, id, device) then 1 else 0
  {
    if rows == [] {
    } else {
      var n := |rows| - 1;
      var init, r := rows[..n], rows[n];
      assert rows == init + [r] && ProperIds(init);
      MarkUsedUnpins(init, id, at, device);
      HasPinGrows(rows, id, device);
      MarkUsedGrows(init, r, id, at);
      PinCountGrows(init, r, device);
      PinCountGrows(MarkUsed(init, id, at), if r.id == id then Used(r, at) else r, device);
      if r.id == id {
        AbsentHasNoPin(rows, n, device);
        UsedIsNoPin(r, at, device);
      }
    }
  }

  lemma AbsentHasNoPin(rows: seq<Row>, n: nat, device: DeviceId)
    requires ProperIds(rows) && n < |rows|
    ensures !HasPin(rows[..n], rows[n].id, device)
  {
  }

  lemma MarkUsedKeeps(rows: seq<Row>, id: AccountId, at: int, device: DeviceId, held: AccountId)
    requires at > 0 && ProperIds(rows)
    ensures Holds(MarkUsed(rows, id, at), held) <==> Holds(rows, held)
    ensures ProperIds(MarkUsed(rows, id, at))
    ensures LowestPin(MarkUsed(rows, id, at), device) != Some(id)
  {
    var used := MarkUsed(rows, id, at);
    if i :| 0 <= i < |rows| && rows[i].ok && rows[i].id == held {
      assert used[i].ok && used[i].id == held;
    }
    if i :| 0 <= i < |used| && used[i].ok && used[i].id == held {
      assert rows[i].ok && rows[i].id == held;
    }
    LowestPinIs(used, device);
  }

  /** The lowest pin is a pin, and eligible; there is one exactly when any is counted. */
  lemma LowestPinCounts(rows: seq<Row>, device: DeviceId)
    requires ProperIds(rows)
    ensures LowestPin(rows, device).Some? <==> PinCount(rows, device) > 0
    ensures match LowestPin(rows, device)
            case None => true
            case Some(id) => id != 0 && Holds(rows, id) && HasPin(rows, id, device)
  {
    LowestPinIs(rows, device);
    NoPinsCounted(rows, device);
  }

  lemma PinTickPays(s: Sticky, device: DeviceId, t: Tick)
    requires ProperIds(s.rows) && Possible(s, t) && PinCount(s.rows, device) > 0
    ensures var u := Ticked(s, device, t);
            ProperIds(u.rows) && Unsettled(u, device) + (if Switches(s, u) then 1 else 0) <= Unsettled(s, device)
  {
    hide ProperIds, PinCount, LowestPin, Holds, HasPin, MarkUsed;
    LowestPinCounts(s.rows, device);
    var id := LowestPin(s.rows, device).value;
    if !t.fails && !t.stored {
      MarkUsedUnpins(s.rows, id, t.at, device);
      MarkUsedKeeps(s.rows, id, t.at, device, id);
    }
  }

  lemma FreeTickPays(s: Sticky, device: DeviceId, t: Tick)
    requires ProperIds(s.rows) && Possible(s, t) && PinCount(s.rows, device) == 0
    ensures var u := Ticked(s, device, t);
            ProperIds(u.rows) && Unsettled(u, device) + (if Switches(s, u) then 1 else 0) <= Unsettled(s, device)
  {
    hide ProperIds, PinCount, LowestPin, Holds, HasPin, MarkUsed;
    LowestPinCounts(s.rows, device);
    var id := Selected(s, device, t);
    if id != 0 && !t.fails {
      MarkUsedUnpins(s.rows, id, t.at, device);
      MarkUsedKeeps(s.rows, id, t.at, device, id);
    }
  }

  lemma TickPays(s: Sticky, device: DeviceId, t: Tick)
    requires ProperIds(s.rows) && Possible(s, t)
    ensures var u := Ticked(s, device, t);
            ProperIds(u.rows) && Unsettled(u, device) + (if Switches(s, u) then 1 else 0) <= Unsettled(s, device)
  {
    if PinCount(s.rows, device) > 0 {
      PinTickPays(s, device, t);
    } else {
      FreeTickPays(s, device, t);
    }
  }

  lemma {:induction false} RunPays(s: Sticky, device: DeviceId, ticks: seq<Tick>)
    requires ProperIds(s.rows) && PossibleRun(s, device, ticks)
    ensures ProperIds(Run(s, device, ticks).rows)
    ensures SwitchCount(s, device, ticks) + Unsettled(Run(s, device, ticks), device) <= Unsettled(s, device)
  {
    if ticks == [] {
    } else {
      var n := |ticks| - 1;
      var init := ticks[..n];
      forall m | 0 <= m < n
        ensures Possible(Run(s, device, init[..m]), init[m])
      {
        assert init[..m] == ticks[..m];
        assert Possible(Run(s, device, ticks[..m]), ticks[m]);
      }
      RunPays(s, device, init);
      assert Possible(Run(s, device, init), ticks[n]);
      TickPays(Run(s, device, init), device, ticks[n]);
    }
  }

  /** Over any run of ticks, with eligibility fixed, no new pins, leases granted and
      MarkUsed succeeding: at most one switch per pinned row, or one in all. */
  lemma SelectionSettles(s: Sticky, device: DeviceId, ticks: seq<Tick>)
    requires ProperIds(s.rows) && PossibleRun(s, device, ticks)
    ensures SwitchCount(s, device, ticks) <= if PinCount(s.rows, device) > 1 then PinCount(s.rows, device) else 1
  {
    RunPays(s, device, ticks);
    UnsettledIsNotNegative(Run(s, device, ticks), device);
  }

  lemma UnsettledIsNotNegative(s: Sticky, device: DeviceId)
    requires ProperIds(s.rows)
    ensures 0 <= Unsettled(s, device) <= if PinCount(s.rows, device) > 1 then PinCount(s.rows, device) else 1
  {
    LowestPinCounts(s.rows, device);
  }

  /** Once settled, the chosen account never changes again, not even to none. */
  lemma {:induction false} SettledStays(s: Sticky, device: DeviceId, ticks: seq<Tick>)
    requires ProperIds(s.rows) && PossibleRun(s, device, ticks) && Unsettled(s, device) == 0
    ensures Run(s, device, ticks).current == s.current && Unsettled(Run(s, device, ticks), device) == 0
  {
    if ticks == [] {
    } else {
      var n := |ticks| - 1;
      var init := ticks[..n];
      forall m | 0 <= m < n
        ensures Possible(Run(s, device, init[..m]), init[m])
      {
        assert init[..m] == ticks[..m];
        assert Possible(Run(s, device, ticks[..m]), ticks[m]);
      }
      hide ProperIds, PinCount, LowestPin, Holds, HasPin, MarkUsed, PossibleRun;
      SettledStays(s, device, init);
      RunPays(s, device, init);
      var before := Run(s, device, init);
      assert Possible(before, ticks[n]);
      LowestPinCounts(before.rows, device);
      assert Selected(before, device, ticks[n]) == before.current;
      TickPays(before, device, ticks[n]);
      UnsettledIsNotNegative(Run(s, device, ticks), device);
    }
  }
}
