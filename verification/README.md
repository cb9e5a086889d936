# Verified model of the account switcher

The switcher keeps a pool of shared accounts and lets several devices take turns
using them. This project models the parts of it that keep that honest, and proves
what they promise.

- **Leases** (`LeaseTables`, `LeaseOutcomes`, `LeaseRuns`, `LeaseClosings`, `LeaseStore`,
  `RenewRaces`): the table of current leases and its audit history, as mutable state with
  one method per transaction, what holds over every run of operations by any devices, and
  what is left of it when other calls come between the statements of a renewal.
- **Agents** (`Agents`, `AgentLaws`, `Fleet`, `AgentMachines`): the Codex RemoteManager and
  the Claude Coordinator as tick machines over one lease table, any number of them
  interleaved, with every call to the vault answered, lost, or carried out with its
  answer lost.
- **Usage accounting** (`Attribution`, `AttributionLaws`, `Attributor`, `WeekChart`,
  `WeekForecast`, `WeekLaws`, `DashboardWeek`, `MapSums`): whose usage it was, and the
  seven-day chart.
- **File editors** (`TextLines`, `TextFiles`, `TomlStrings`, and the `Dsh...` and
  `Codex...` modules): the managed block in the DeepSeek Harness's credential file and
  in codex's `config.toml`.
- **Selection and switching** (`Selector`, `StickyCodex`, `ClaudeChoice`, `ClaudeSettling`,
  `CodexRestore`) and the **activity log** (`ActivityBus`, `ActivityLaws`).

Conventions: times are `int` milliseconds under a clock that never goes back; ids are
integers, 0 standing for the empty one; lease ids are never reused; utilizations,
thresholds and weights are `real`. Where the source works step by step, a method or a
class does too, and is proved equal to a function whose properties the lemmas state.

## What the proofs found

- **A failed Coordinator write breaks its coherence.** The Coordinator remembers a new
  lease id before it writes the credential (server/credinject/coordinator.go:794-797,
  653-658). If that write fails it goes on remembering the old account with the new
  lease, and a later tick renews that lease while writing the old account's credential,
  which another device may hold by then. `Fleet.CoordinatorMayWriteWhatAnotherHolds` is
  such a run. `Fleet.CoordinatorHoldsAloneInEveryRun` says exactly when the device holds
  the account it writes: when the tick does not renew astray, or when the device held the
  account alone before the renewal anyway. `Fleet.WritesOnlyWhatItHolds` is what holds when
  writes succeed. The RemoteManager records both only after the write and needs no such
  assumption.
- **A renewal can bring a lost hold back into the history.** A renewal is three statements
  outside a transaction (server/store/leases.go:149-176). If its lease is released,
  reclaimed or swept between the second and the third, the third records the hold again, as
  open. With another device on the account, two then hold it at once by the history
  (`RenewRaces.HistoryMayOverlap`), and the row stays open until a release names that lease
  id once more (`RenewRaces.GoneRowStaysOpen`). `RenewRaces.RulesHoldExactlyWhenNoneLandsLate` says
  exactly when; the leases themselves are not affected
  (`RenewRaces.RacesMirrorWholeRenewals`).
- **An unused account can undo the Claude stickiness.** A Claude tick keeps its account to
  avoid going to and fro on every refresh (server/credinject/coordinator.go:423-427). But
  an eligible account that was never used counts as a pin, and the picker, which ranks by
  weekly headroom, need not pick it. While it waits outside the best tier and two or more
  accounts share that tier, they are switched on every tick for ever
  (`ClaudeSettling.SwingsForEver`), unless the current one is the tier's least recently used,
  which is kept for good (`ClaudeSettling.FirstIsKept`).
  `ClaudeSettling.SettlesOnEveryRunExactlyWhen` is the law of the run, both ways and with
  the bound on the switches. The Codex choice takes the pinned account itself and always
  settles (`StickyCodex.SelectionSettles`).
- **Applying the codex block is not always idempotent.** The comment at
  server/openrouter/codexconfig.go:121-122 promises byte-identical files. A `config.toml`
  that is one newline, or ends in a blank line, changes once more on the second
  application (`CodexLaws.ReapplyExactlyWhenTidy`, `CodexLaws.LoneNewlineChurns`).
- **Nor is applying the dsh key.** The comment at server/deepseek/dshconfig.go:100-102
  promises a byte-identical file. Each read and write takes one trailing empty line off,
  so a file ending in several is shortened by each application
  (`DshFile.FileReappliedExactlyWhen`, `DshFile.ExampleChurns`); and a sentinel left over
  in the section can make the indent move (`DshReapply.ReapplyExactlyWhenIndentKept`). A key
  with a newline in it is accepted, and its document does not read back as written
  (`DshFile.WrittenReadsBackExactlyWhen`).
- **Removing the dsh key does not always restore the file**, which the comment at
  server/deepseek/dshconfig.go:258-260 promises byte for byte
  (`DshRestore.FileRestoredExactlyWhen`): a second key entry and a missing final newline
  are not put back. Nor is removing always idempotent: a parked line that is itself a
  begin sentinel starts a new block (`DshRoundTrip.SecondRemovalIdleExactlyWhen`).
- **U+007F is written raw into TOML strings**, which TOML v1.0.0 does not allow
  (`TomlStrings.ReadsBackExactlyWithoutDel`).
- **An event can miss the activity ring.** One that was inserted but whose id could not be
  read stays out of it until a restart (server/activity/activity.go:231-235);
  `ActivityBus.RingIsNewestOfLog` says exactly when the ring shows the newest events.
- `List` never reads the table, although its comment says that it does when the ring does
  not reach back far enough (server/activity/activity.go:300-338).
- `AcquireLease` returns a lease dated now when it renews in place, while the row keeps
  its first date (server/store/leases.go:127-128).
- With no Claude account available the Coordinator keeps the current credential
  (server/credinject/coordinator.go:843-865), although the comment on its choice says that
  the native one is restored (server/credinject/coordinator.go:428-431).
- An account's expiry of 0 or less means unknown in the code
  (server/store/store.go:144-148); its comment says only 0.

## Model

| member | source | states |
|---|---|---|
| `LeaseStore.Store.AcquireLease` | server/store/leases.go:42-129 | an acquire leaves the two tables exactly as the acquire rule says; refused or rejected, it leaves them as they were; granted, the device alone holds the account, and every table rule is kept |
| `LeaseStore.Store.AcquireTx` | server/store/leases.go:50-129 | the transaction's statements, one by one, give the acquire rule's tables; bad arguments, a foreign holder and a duplicate id leave the tables as they were |
| `LeaseStore.Store.RenewLease` | server/store/leases.go:139-178 | with no other call between its statements: a live lease gets its new expiry and reported activity and an open history row; a lapsed or missing one, or bad arguments, change nothing |
| `LeaseStore.Store.ReleaseLease` | server/store/leases.go:183-201 | the two tables after the call are the release rule's, whose every effect `LeaseClosings.ReleaseEndsNow` states: the lease is gone, its open rows end now, expired or not, and nothing else changes; an empty or unknown id changes nothing |
| `LeaseStore.Store.ReleaseDeviceLeases` | server/store/leases.go:209-235 | all and only the device's leases go, their rows closed at now; the count returned is the number of leases gone |
| `LeaseStore.Store.ReclaimIdleForeignLease` | server/store/leases.go:508-545 | frees the one live lease another device holds on the account without activity for the threshold; true exactly when there was one; never for a threshold of 0 or less |
| `LeaseStore.Store.SweepLeases` | server/store/leases.go:552-567 | removes exactly the lapsed leases and closes each one's row at its own expiry |
| `LeaseStore.Store.IsAccountLeasedByOther` | server/store/leases.go:464-474 | true exactly when another device has a live lease on the account |
| `LeaseStore.Store.IsAccountLeasedByOtherActive` | server/store/leases.go:483-498 | true exactly when another device has a live lease with activity inside the threshold; a threshold of 0 or less counts every live lease |
| `LeaseStore.Store.CloseExpiredLeaseEventsTx` | server/store/leases.go:575-582 | closes exactly the open rows whose lease expired by the cutoff, each at the lease's own expiry |
| `LeaseStore.Store.ReleaseOtherDeviceProviderLeasesTx` | server/store/leases.go:603-628 | of the device's leases, those on other existing accounts of the same provider go, closed at now, and no others |
| `LeaseStore.Store.EnsureOpenLeaseEventTx` | server/store/leases.go:644-651 | a lease without an open row gets one dated from its acquisition; one that has it is left alone |
| `LeaseTables.AcquireKeepsInv` | server/store/leases.go:42-129 | an acquire keeps every rule of the two tables; anything but a grant leaves the tables unchanged |
| `LeaseTables.RenewKeepsInv` | server/store/leases.go:139-178 | a renew keeps every rule |
| `LeaseTables.ReclaimIdleKeepsInv` | server/store/leases.go:508-545 | an idle reclaim keeps every rule |
| `LeaseTables.ExpireKeepsInv` | server/store/leases.go:552-582 | the sweep keeps every rule and leaves only live leases, each still with its open row |
| `LeaseOutcomes.LockedExactlyWhenHeldElsewhere` | server/store/leases.go:61-90 | with proper arguments, an acquire is refused if and only if another device has a live lease on the account, and granted otherwise |
| `LeaseOutcomes.GrantedIsExclusive` | server/store/leases.go:85-129 | after a grant the device holds the single live lease on the account, with the promised expiry and activity, and no lease on another account of that provider |
| `LeaseOutcomes.RenewedIsLive` | server/store/leases.go:139-178 | a renewed lease is live, keeps holder and start, and records activity now minus the reported idle time |
| `LeaseOutcomes.ReclaimThenAcquireSucceeds` | server/store/leases.go:483-545 | if no other device is active on the account, reclaim followed by acquire at the same instant is always granted |
| `LeaseOutcomes.ReclaimTakesOnlyIdleLeases` | server/store/leases.go:508-545 | a lease that a reclaim removes was another device's, live, and inactive for the threshold |
| `LeaseClosings.ReleaseEndsNow` | server/store/leases.go:183-201 | for any table: the lease is gone, each of its open rows ends at the release, every other row and lease is as it was |
| `LeaseClosings.ReclaimEndsNow` | server/store/leases.go:508-545 | a reclaim takes a lease exactly when one is idle for the threshold, ends its row at that instant, and changes nothing else |
| `LeaseClosings.ReleaseDeviceEndsNow` | server/store/leases.go:209-235 | all the device's holds and no other end at the instant of the call |
| `LeaseClosings.SweepEndsAtExpiry` | server/store/leases.go:552-582 | every lapsed hold ends at its own expiry, and no other row changes |
| `LeaseClosings.GrantInFull` | server/store/leases.go:42-129 | a grant takes exactly the lapsed leases and the device's others of the provider, ends their rows at their expiry or now, leaves every other lease and row alone, and opens one row for a new lease, none for a renewed one |
| `LeaseClosings.ActiveExactlyWhenNotReclaimable` | server/store/leases.go:483-498 | a foreign holder counts as active exactly when the reclaim would find nothing to take; with a threshold of 0 or less every foreign holder counts |
| `LeaseClosings.EveryEndIsGiven` | server/store/leases.go:183-235 | over every run, a hold that has ended was ended by one step of it: at its lease's expiry if a sweep or an acquire found it lapsed, else at the instant of that step |
| `LeaseRuns.ReachableTablesKeepRules` | server/store/leases.go:42-235 | over every run: at most one lease per account, at most one per device and provider of an existing account, exactly one open history row per lease and no other open row, history segments of an account in order and disjoint |
| `LeaseRuns.HeldByAtMostOne` | server/store/leases.go:42-235 | at no instant of any run do two history rows of one account both cover it |
| `LeaseRuns.LiveLeaseIsTheOpenSegment` | server/store/leases.go:644-651 | a history row is open if and only if it records a lease now in the table, with that lease's holder and start |
| `LeaseRuns.HistoryOnlyGrows` | server/store/leases.go:575-651 | from any moment of a run on, history rows are only appended or closed once; none is lost or re-attributed |
| `LeaseRuns.LeaseIdKeepsItsHolder` | server/store/leases.go:92-129 | a lease id never changes account, device or start, however much later it is seen |
| `LeaseRuns.RowCarriesRecordedActivity` | server/store/leases.go:139-178 | every lease's row carries the activity its latest acquire or renew recorded |
| `LeaseRuns.OnlyIdleLeasesAreReclaimed` | server/store/leases.go:508-545 | over every run, a lease is only ever reclaimed when its latest acquire or renew recorded activity at least the threshold before |
| `RenewRaces.UndisturbedIsRenew` | server/store/leases.go:139-178 | the three statements of a renewal, with nothing between them, are the renewal in one step |
| `RenewRaces.RacesMirrorWholeRenewals` | server/store/leases.go:149-176 | however the statements of any renewals interleave with other calls, the leases are those of a run with whole renewals, and so is the history but for the rows a backfill wrote |
| `RenewRaces.LeasesStayExclusive` | server/store/leases.go:149-176 | in every such run the lease table keeps its rules: one lease per account and per device and provider, each with its open row |
| `RenewRaces.RulesHoldExactlyWhenNoneLandsLate` | server/store/leases.go:173-176 | in every such run, all rules of both tables hold at the end if and only if no backfill ever ran with its lease gone from the table and no row of it open |
| `RenewRaces.GoneRowStaysOpen` | server/store/leases.go:569-582 | an open row whose lease is gone stays open, through any run, until a release names that lease id |
| `RenewRaces.HistoryMayOverlap` | server/store/leases.go:173-176 | the failing case: a renewal overtaken by a release and another device's acquire leaves two open rows of one account, which cover the same instants |
| `Agents.RemoteTickIsSafe` | server/openai/remote_manager.go:170-306 | after any tick the remembered lease was given to this device for the remembered account, and a pool credential is written, even unsuccessfully, only while the device alone holds the account |
| `Agents.CoordinatorTickIsSafe` | server/credinject/coordinator.go:575-809 | the same for a Coordinator tick from a coherent memory; the memory stays coherent when the tick's write succeeds |
| `Agents.CoordinatorTickCovered` | server/credinject/coordinator.go:653-809 | with no assumption on writes, the account a Coordinator writes is the one of the lease it remembers if and only if it did not renew a lease taken for another account |
| `Agents.CoordinatorHoldsAloneExactlyWhen` | server/credinject/coordinator.go:653-809 | from any memory, the device holds alone the account a Coordinator's tick writes, or tries to, if and only if the tick does not renew astray or the device held it alone before the renewal |
| `AgentLaws.RemoteWritesExactlyWhen` | server/openai/remote_manager.go:170-306 | a RemoteManager's tick writes if and only if it is active or holds a lease, has a usable pick, gets the lease, could read storage, finds another credential there and has its backup |
| `AgentLaws.RemoteRemembersWhatItPlaced` | server/openai/remote_manager.go:240-261 | having got the lease, it remembers the account and a lease on it of its own once the credential is in place, written or found there, and else what it did before |
| `AgentLaws.RemoteWithoutLease` | server/openai/remote_manager.go:216-306 | without the lease: a slot lost to another device is forgotten with its account, an idle manager's lost lease alone, a refused provider counts as an empty pool, and any other failure leaves the memory |
| `AgentLaws.RemoteRestores` | server/openai/remote_manager.go:368-384 | with nothing to choose from: both are forgotten exactly when the native credential is back and the release answered; the lease is let go unless the release was lost |
| `AgentLaws.RemoteRenewsInPlace` | server/openai/remote_manager.go:264-282 | a renewing tick moves the lease's expiry, reports the tick's own idle time, and changes nothing else in the tables |
| `AgentLaws.RemoteLetsGo` | server/openai/remote_manager.go:289-306 | having got an account's lease, the manager has no other left, unless a release was lost |
| `AgentLaws.CoordinatorWritesExactlyWhen` | server/credinject/coordinator.go:575-653 | a Coordinator's tick writes if and only if it is not waiting idle without a lease or a pin, has a pick, gets the lease, has not that very token in place, and could build its blob |
| `AgentLaws.CoordinatorWaits` | server/credinject/coordinator.go:587-598 | idle, without a lease and without a pin for it, the device changes nothing |
| `AgentLaws.PinIsObeyed` | server/credinject/coordinator.go:587-600 | idle and without a lease but pinned, it writes the free account at once |
| `AgentLaws.CoordinatorRemembersWhatItWrote` | server/credinject/coordinator.go:622-690 | having got the lease, it remembers it in any case, and the account and token once they are written; the lease covers the account exactly when the tick did not renew astray |
| `AgentLaws.CoordinatorWithoutLease` | server/credinject/coordinator.go:746-797 | without the lease: an idle holder parks, keeping the account but not the lease, and acquires nothing; a slot lost to another device is forgotten with its account; else the memory stays |
| `AgentLaws.CoordinatorRenewsInPlace` | server/credinject/coordinator.go:753-762 | a renewing tick, idle or not, moves the lease's expiry, reports its own idle time, and changes nothing else in the tables |
| `AgentLaws.CoordinatorLetsGo` | server/credinject/coordinator.go:794-808 | having got an account's lease, the Coordinator has no other left, unless a release was lost |
| `AgentLaws.LeasableAfterPick` | server/store/leases.go:500-545 | with a pick that reclaims, an acquire gets the account exactly when no other device is active on it; with one that does not, exactly when none has it |
| `Fleet.ReachedIsSound` | server/openai/remote_manager.go:170-306 | every agent of every interleaved run keeps owning the lease it remembers, and every table rule holds |
| `Fleet.WritesOnlyWhatItHolds` | server/openai/remote_manager.go:170-306 | in every run of any number of agents, whoever writes an account's pool credential, or tries to, alone holds the account at that moment; a Coordinator needs its earlier writes to have succeeded, a RemoteManager needs nothing |
| `Fleet.WritesExactlyWhenItShould` | server/openai/remote_manager.go:170-306 | and no agent holds back: in every run a tick writes exactly when its agent is to act, has an account chosen, gets the lease on it, and has not its credential in place |
| `Fleet.ShutDownLetsGo` | server/openai/remote_manager.go:357-384 | a RemoteManager that shuts down with the native credential back and its release answered leaves no lease and remembers nothing; the other agents are as they were |
| `Fleet.CoordinatorCoveredExactlyWhen` | server/credinject/coordinator.go:746-809 | in every run, a Coordinator's write is covered by the lease it remembers exactly when the tick does not renew astray, a condition on the tables and its memory before the renewal |
| `Fleet.CoordinatorHoldsAloneInEveryRun` | server/credinject/coordinator.go:746-809 | and in every run its device holds alone the account it writes if and only if the tick does not renew astray or it held that account alone before the renewal |
| `Fleet.CoordinatorMayWriteWhatAnotherHolds` | server/credinject/coordinator.go:653-809 | the failing case: after one failed write a Coordinator renews another account's lease and writes a credential that another device alone holds |
| `Fleet.HoldersTakeTurns` | server/store/leases.go:42-235 | when an account passes from one device to another, the first hold was closed in history no later than the second began |
| `Fleet.FleetHistoryOnlyGrows` | server/store/leases.go:575-651 | history only grows over every run of the fleet |
| `AgentMachines.RemoteManager.Reconcile` | server/openai/remote_manager.go:170-262 | the manager's tick, on its own fields and the shared store, is the tick machine's step |
| `AgentMachines.RemoteManager.EnsureLease` | server/openai/remote_manager.go:264-306 | renew, park, or acquire and then release, exactly as the lease rule says |
| `AgentMachines.RemoteManager.RestoreLocked` | server/openai/remote_manager.go:368-384 | account and lease are forgotten only once the credential is back and the release was answered |
| `AgentMachines.Coordinator.ReconcileWithIdle` | server/credinject/coordinator.go:575-734 | the Coordinator's tick on its fields and the shared store is the tick machine's step |
| `AgentMachines.Coordinator.RefreshLease` | server/credinject/coordinator.go:746-809 | renew, park, or switch; a new lease id is remembered before the credential is written |
| `Attribution.ReplayConserves` | server/store/attribution.go:129-198 | for strictly increasing times and non-negative levels, device shares plus the unattributed share equal last level minus first when the level never drops, and the last level once it has, whatever the segments |
| `Attribution.SpreadIsProportional` | server/store/attribution.go:179-198 | each device gets the interval's amount in proportion to the time it held the account |
| `Attribution.LastUsedIsGroundedAndMonotone` | server/store/attribution.go:129-198 | every credited device has a last-used instant inside one of its own segments, which never goes back |
| `AttributionLaws.LastUseIsLatestDrive` | server/store/attribution.go:129-198 | after a replay each device's last use is at or after the end of every hold of its during an interval in which usage rose, and is one of these or the value given at the start |
| `AttributionLaws.OverlapCountsInstants` | server/store/attribution.go:162-178 | an overlap lasts as many instants of the interval as the segment was held at, and ends after the last of them |
| `AttributionLaws.ReplayIsSharesSinceDrop` | server/store/attribution.go:129-198 | the replay in closed form: a device's credit is its shares of the intervals since the last drop, each in proportion to the instants it held the account |
| `Attribution.UnattributedExactlyWhenUnheld` | server/store/attribution.go:166-183 | an interval's amount goes unattributed if and only if nobody held the account during it |
| `Attribution.OverlapsFitTheInterval` | server/store/attribution.go:162-178 | for segments in order, the overlaps with an interval total at most its length |
| `Attributor.CollectOverlaps` | server/store/attribution.go:162-178 | the scan collects exactly the positive overlaps and their total |
| `Attributor.Tally.Distribute` | server/store/attribution.go:158-198 | the in-place update of shares, unattributed share and last-used map is the distribution rule |
| `Attributor.Tally.AttributeWindow` | server/store/attribution.go:129-151 | the walk over snapshots, resets included, is the replay rule |
| `Attributor.ComputeAttribution` | server/store/attribution.go:56-121 | three windows share one last-used map and are united per device; the list holds one named row for each device with points and no other, most points first, ties by device; samples are counted and the first one dated |
| `Attributor.ReportConserves` | server/store/attribution.go:56-121 | in each window the report's device columns and unattributed share add up to the observed use |
| `Attributor.ListConserves` | server/store/attribution.go:56-121 | and so do the rows of the sorted list |
| `Attributor.ListIsUnique` | server/store/attribution.go:94-118 | the rows have one such order, so neither the map's order nor the sort shows |
| `Attributor.ListIsByPoints` | server/store/attribution.go:110-117 | a row stands ahead of another exactly for more points in all over the three windows, or as many and the lower id |
| `Attributor.ReportIsSharesSinceDrop` | server/store/attribution.go:78-104 | each column of the report is, device by device, the shares since that window's last drop; a device not listed has none |
| `Attributor.ReportLastUseIsLatestDrive` | server/store/attribution.go:76-104 | a listed device's last use is the latest end of its holds during intervals in which any of the three windows rose |
| `Attributor.ReportIsGrounded` | server/store/attribution.go:78-104 | every reported device's last-used instant lies in one of its own segments |
| `Attributor.HistoryIsInOrder` | server/store/leases.go:692-712 | an account's history, as read back from the lease table, is in order and disjoint |
| `Attributor.RealHistoriesFit` | server/store/attribution.go:158-178 | fed with the history of any run of the lease machine, the overlaps fit the interval and an amount goes unattributed exactly when nobody held the account |
| `DashboardWeek.SevenDayWeek` | server/httpapi/dashboard_week.go:46-217 | the chart is 168 history points by the simple definition, today's levels, and 168 points of the hour-by-hour forecast |
| `DashboardWeek.ChartIsBounded` | server/httpapi/dashboard_week.go:85-98 | for any stored percentages, every charted value lies in [0, 100] and idle never exceeds same-week |
| `DashboardWeek.PointsAreHourly` | server/httpapi/dashboard_week.go:139-215 | the points are an hour apart, the 169th is now, and those after it are the forecast |
| `DashboardWeek.NowStandsAtLevels` | server/httpapi/dashboard_week.go:152-156 | the point of now shows the members' own levels in all three lines |
| `DashboardWeek.BuildPool` | server/httpapi/dashboard_week.go:59-83 | the pool and its capacity: accounts with a weight, threshold 0 read as 100, a passed reset read as an empty window |
| `WeekLaws.PoolStandsForWeighted` | server/httpapi/dashboard_week.go:59-83 | the pool holds one member for each weighted account and no other: at its threshold or 100, and empty with no reset ahead once its reset has passed |
| `DashboardWeek.PoolPct` | server/httpapi/dashboard_week.go:85-98 | the used share of the capacity, an account at its threshold counting as full |
| `WeekLaws.PctIsFullExactlyWhen` | server/httpapi/dashboard_week.go:85-98 | a pool reads 100 exactly when every account is at its threshold, and 0 exactly when every one is empty |
| `WeekLaws.OneAccountMovesPct` | server/httpapi/dashboard_week.go:85-98 | moving one account moves the pool by that account's share of the capacity, full from its threshold on |
| `DashboardWeek.SeedLatest` | server/httpapi/dashboard_week.go:104-113 | the table starts from each account's earliest sample, or its current level |
| `DashboardWeek.HistoryPoints` | server/httpapi/dashboard_week.go:139-151 | the advancing index gives, at each hour, the pool's percentage by the simple definition |
| `WeekChart.ScanIsValueAt` | server/httpapi/dashboard_week.go:100-151 | once the scan has passed the rows at or before an instant it holds every account's last sample there, else its earliest, else its current level |
| `WeekLaws.ValueBeforeSamples` | server/httpapi/dashboard_week.go:100-113 | before an account's first sample its value is that sample, and without any its current level |
| `DashboardWeek.ExtractUses` | server/httpapi/dashboard_week.go:114-137 | each sample after an account's first adds its rise, or after a drop its whole value, weighted |
| `WeekLaws.RecordConserves` | server/httpapi/dashboard_week.go:114-137 | the record holds exactly what the accounts' samples show, weighted: the last less the first, and what each gave back at its resets |
| `WeekLaws.DemandIsRecordGrowth` | server/httpapi/dashboard_week.go:173-180 | the demand of a span is what the record grew by while it lasted |
| `DashboardWeek.TakeHour` | server/httpapi/dashboard_week.go:173-180 | the advancing use index finds exactly the uses of the replayed hour |
| `WeekChart.WeekIsReplayedOnce` | server/httpapi/dashboard_week.go:166-180 | the 168 hourly demands add up to the last week's recorded consumption |
| `WeekChart.UseFallsInOneHour` | server/httpapi/dashboard_week.go:173-180 | a use is replayed in exactly one of the 168 hours if recorded in the last week, and in none otherwise |
| `DashboardWeek.PourInOrder` | server/httpapi/dashboard_week.go:195-208 | the pour over the ordered accounts, stopping once the demand is spent |
| `WeekForecast.PourMovesExactly` | server/httpapi/dashboard_week.go:195-208 | the pour moves exactly the smaller of the demand and the total room below threshold |
| `WeekForecast.OrderIsOpenAndRanked` | server/httpapi/dashboard_week.go:182-194 | it pours into exactly the active accounts below threshold, lowest level first, ties by id |
| `WeekForecast.RankedOrderIsUnique` | server/httpapi/dashboard_week.go:189-194 | distinct ids leave one ranked arrangement of the accounts, so the sort does not show |
| `WeekForecast.HourPourIsGreedy` | server/httpapi/dashboard_week.go:181-208 | no account is lowered or lifted above its threshold, only active ones below it change, and one gains only after every open account ahead of it is full |
| `DashboardWeek.ResetDueMembers` | server/httpapi/dashboard_week.go:168-172 | the accounts whose reset fell in the hour, and no others, start again from zero |
| `DashboardWeek.RunHour` | server/httpapi/dashboard_week.go:166-208 | one forecast hour: resets, then the pour of the replayed demand |
| `DashboardWeek.ForecastPoints` | server/httpapi/dashboard_week.go:158-215 | the 168 points of the hour-by-hour state |
| `WeekForecast.ForecastDominates` | server/httpapi/dashboard_week.go:158-208 | at every hour each account's level is at least its idle level, and both lie in [0, 100] |
| `WeekForecast.EveryHourPoursItsDemand` | server/httpapi/dashboard_week.go:158-208 | each forecast hour, its resets done, pours exactly its demand or all the room, into active accounts below threshold, the lowest first, and leaves the idle levels alone |
| `WeekLaws.ChartPoursItsRecord` | server/httpapi/dashboard_week.go:114-208 | so for the uses the chart itself extracts, in every hour |
| `WeekForecast.ProjectionsAreOrdered` | server/httpapi/dashboard_week.go:158-215 | same-week is at or above idle, idle never rises, both are percentages, at every hour |
| `WeekForecast.IdleLine` | server/httpapi/dashboard_week.go:158-172 | the idle line in closed form: today's level until the account's own reset has passed, zero from then on |
| `DshEditor.FindRefsBlock` | server/deepseek/dshconfig.go:337-375 | finds the first top-level refs section: its body without trailing blank lines, and its entries' indent; or that there is none |
| `DshEditor.ScanBody` | server/deepseek/dshconfig.go:265-291 | the kept lines, the parked line and the block's place, as the loop over the section gathers them |
| `DshEditor.ApplyBlock` | server/deepseek/dshconfig.go:242-298 | the document with the block in place, in all three starting states |
| `DshEditor.RemoveBlock` | server/deepseek/dshconfig.go:301-322 | the document without the block, the parked line restored at the block's indent; and whether there was a block |
| `DshEditor.DropEmptyRefs` | server/deepseek/dshconfig.go:380-387 | a refs header with nothing under it is dropped, and nothing else |
| `DshEditor.RenderManagedBlock` | server/deepseek/dshconfig.go:325-332 | the block's lines at an indent |
| `DshEditor.CheckVersioned` | server/deepseek/dshconfig.go:140-150 | no document, or one with a top-level version key |
| `DshEditor.Apply` | server/deepseek/dshconfig.go:103-122 | the whole edit on the file's contents: an empty key and an unversioned document are refused |
| `DshEditor.Remove` | server/deepseek/dshconfig.go:154-170 | taking the key out of the file's contents: strip, drop an empty section, write; a file without a block is not touched |
| `DshOutcomes.RefusedExactlyWhen` | server/deepseek/dshconfig.go:103-150 | applying is refused exactly for a key that is all white space, and for a file with lines of which none is a version key |
| `DshOutcomes.OutsideStays` | server/deepseek/dshconfig.go:242-298 | the lines up to the section's header stay in front and those after the section at the end; a document without a section stays in front whole |
| `DshOutcomes.RefsKeyIs` | server/deepseek/dshconfig.go:224 | a header is "refs:" at the start of its line and, after any space, nothing but a comment |
| `DshOutcomes.RefLineIs` | server/deepseek/dshconfig.go:228 | an entry for the key is indented, names the key, and has a colon after any space |
| `DshOutcomes.VersionKeyIs` | server/deepseek/dshconfig.go:138 | the version key is "version" at the start of its line and a colon after any space |
| `DshLaws.Locate` | server/deepseek/dshconfig.go:337-375 | a section laid out as header, inside lines, and a closing tail is the one found |
| `DshLaws.Located` | server/deepseek/dshconfig.go:337-375 | the section found is so laid out |
| `DshReapply.ReapplyExactlyWhenIndentKept` | server/deepseek/dshconfig.go:226-298 | for every document, applying k1 and then k2 is applying k2 alone if and only if the kept lines ahead of the block are indented as the section's first line |
| `DshReapply.LastKeyWins` | server/deepseek/dshconfig.go:226-298 | that always holds when the section has no sentinel in it: the last key applied is the only one that shows |
| `DshReapply.AppliedKeepsIndent` | server/deepseek/dshconfig.go:226-298 | and it always holds from the second application on |
| `DshReapply.AppliedKeyIsInForce` | server/deepseek/dshconfig.go:226-298 | for every document, the result has a refs section with exactly one line that is an entry for the key, and that line carries the applied key |
| `DshRoundTrip.RestoredExactlyWhenReversible` | server/deepseek/dshconfig.go:242-387 | for every sentinel-free document, remove after apply gives the original lines back if and only if it has a non-empty section with at most one key entry, at the section's indent with nothing after it, or no section and a blank last line |
| `DshRoundTrip.RemovedIsReturned` | server/deepseek/dshconfig.go:301-322 | removing takes exactly the block out of the section and puts the parked line in its place |
| `DshRoundTrip.RemovedIsAppended` | server/deepseek/dshconfig.go:242-387 | a document without a section is left with its separator lines only |
| `DshRoundTrip.SecondRemovalIsIdle` | server/deepseek/dshconfig.go:152-170 | after an application to a sentinel-free document, removing is idempotent, and harmless on one that was never touched |
| `DshRoundTrip.SecondRemovalIdleExactlyWhen` | server/deepseek/dshconfig.go:152-170 | for every document, removing twice is removing once if and only if no line parked in a block is itself a begin sentinel |
| `DshRoundTrip.QuotedKeyReadsBack` | server/deepseek/dshconfig.go:393-403 | a quoted key is one single-quoted scalar that reads back as the key |
| `DshOutcomes.PlainIsSafe` | server/deepseek/dshconfig.go:393-403 | a key is written as it is exactly when it is plain, and then holds no character that means something in YAML |
| `DshOutcomes.AppliedKeyReadsBack` | server/deepseek/dshconfig.go:226-298 | for every document and key, the one entry for the key reads back as that key |
| `DshFile.FileReappliedExactlyWhen` | server/deepseek/dshconfig.go:99-122 | on the file itself, a second application gives what it alone gives if and only if the kept lines keep the indent and what they and the lines after the section leave behind the block does not end in two empty lines, both conditions on the file's own lines |
| `DshFile.TwoEmptyIsKnown` | server/deepseek/dshconfig.go:226-298 | whether the document written ends in two empty lines is known from the one it is applied to, for every document and key |
| `DshFile.WrittenReadsBackExactlyWhen` | server/deepseek/dshconfig.go:186-208 | what is written reads back as the document, but for one empty last line, if and only if the key is on one line |
| `DshFile.ReadBack` | server/deepseek/dshconfig.go:186-208 | written lines read back, but for one empty line at the end |
| `DshFile.TrailingBlanksChurn` | server/deepseek/dshconfig.go:99-101 | the failing family: a section followed by two empty lines at the end of the file is not left byte-identical by applying the same key twice |
| `DshFile.ExampleChurns` | server/deepseek/dshconfig.go:99-101 | one such file |
| `DshRestore.FileRestoredExactlyWhen` | server/deepseek/dshconfig.go:258-260 | for every sentinel-free file, remove after apply gives its bytes back if and only if it ends in exactly one newline and has no section, or a non-empty one with at most one key entry, at the section's indent with nothing after it |
| `DshRestore.UntouchedFileIsLeft` | server/deepseek/dshconfig.go:152-153 | removing leaves a file without sentinels as it is, whatever its bytes |
| `CodexEditor.StripManagedBlock` | server/openrouter/codexconfig.go:404-439 | the text without our block and its separator, trailing newlines reduced to one; a text that never mentions the block is left alone |
| `CodexEditor.DeclaresProvider` | server/openrouter/codexconfig.go:444-465 | true exactly when some line is a table header of the provider or of one of its sub-tables |
| `CodexEditor.RenderProviderBlock` | server/openrouter/codexconfig.go:234-271 | the block for a specification, with its defaults |
| `CodexEditor.ApplyProviderBlock` | server/openrouter/codexconfig.go:205-230 | the user's text led by a blank line, then the block; no token command and a provider of the user's own are refused |
| `CodexEditor.RemoveProviderBlock` | server/openrouter/codexconfig.go:178-199 | the stripped text when a block was found, else the text itself |
| `CodexRefusals.RefusedExactlyWhen` | server/openrouter/codexconfig.go:122-218 | applying is refused exactly without a token command, or when the text without our block declares the provider |
| `CodexRefusals.WrittenDeclaresOnlyInBlock` | server/openrouter/codexconfig.go:205-230 | in what is written the provider's table is declared once and that of its credentials once, both in our block, whatever the user's text is |
| `CodexRefusals.HeaderDeclares` | server/openrouter/codexconfig.go:444-465 | an indented table header, spaces after it, declares exactly what it names: the provider or a sub-table |
| `CodexRefusals.CommentedHeaderDeclares` | server/openrouter/codexconfig.go:451-454 | with a comment after it as well |
| `CodexRefusals.ArrayHeaderDeclares` | server/openrouter/codexconfig.go:458-459 | and the header of an array of tables |
| `CodexLaws.BlockSplits` | server/openrouter/codexconfig.go:234-271 | the block delimits itself: split into lines it is its own lines, whatever strings it carries |
| `CodexLaws.SettingsAreHarmless` | server/openrouter/codexconfig.go:234-271 | no setting leaves its line or can be taken for a sentinel |
| `CodexLaws.StrippedHasNoBegin` | server/openrouter/codexconfig.go:404-439 | what stripping leaves has no block left in it, for any text |
| `CodexLaws.StrippedAfterApplied` | server/openrouter/codexconfig.go:205-230 | stripping after applying gives the stripped user text with its trailing newlines normalised, and finds the block |
| `CodexLaws.ReapplyExactlyWhenTidy` | server/openrouter/codexconfig.go:121-122 | re-applying, with any specification, gives what applying it alone gives if and only if the text is not a lone newline and does not end in a blank line, or already holds the block; it is never refused |
| `CodexLaws.SecondApplicationSettles` | server/openrouter/codexconfig.go:121-122 | from the second application on that always holds |
| `CodexLaws.LoneNewlineChurns` | server/openrouter/codexconfig.go:121-122 | a file of one newline is not left byte-identical by a second identical application |
| `CodexLaws.UserTextIsPrefix` | server/openrouter/codexconfig.go:203-230 | the user's text stays in front, byte for byte |
| `CodexLaws.RestoredExactlyWhenEnded` | server/openrouter/codexconfig.go:430-437 | remove after apply gives the file back if and only if it was empty, or ended in exactly one newline after some text |
| `CodexLaws.NormalisedDeclaresTheSame` | server/openrouter/codexconfig.go:444-465 | trailing newlines never change whether the user declares the provider |
| `TomlStrings.WriteTomlString` | server/openrouter/codexconfig.go:470-495 | the escaped string |
| `TomlStrings.TomlStringIsOneLine` | server/openrouter/codexconfig.go:470-495 | a written string holds no raw newline, whatever it says |
| `CodexLaws.BlockDeclares` | server/openrouter/codexconfig.go:256-270 | between its sentinels the block declares the provider's table and the one of its credentials |
| `CodexLaws.BlockReadsBack` | server/openrouter/codexconfig.go:234-271 | the block reads back as the specification, defaults filled in: its address, its command with every argument, and its timings, for strings without U+007F |
| `CodexLaws.BlockNamesProtocol` | server/openrouter/codexconfig.go:256-262 | the block's fixed lines name the provider and the protocol |
| `CodexLaws.ArgsReadBack` | server/openrouter/codexconfig.go:248-251 | the written argument list reads back as the arguments, in order |
| `TomlStrings.StringReadsBack` | server/openrouter/codexconfig.go:470-495 | a written string reads back together with whatever follows it, so its closing quote is where it should be |
| `TomlStrings.ReadsBackExactlyWithoutDel` | server/openrouter/codexconfig.go:467-495 | TOML v1.0.0, section "String", reads a written string back as it was if and only if it holds no U+007F, the one control character written raw |
| `Selector.FilterInPlace` | server/selector/selector.go:69-79 | the filter over the slice's own storage leaves exactly the candidates, in order |
| `Selector.PickProviderWithFilter` | server/selector/selector.go:64-113 | the one best candidate; none exactly when no account is eligible and unskipped |
| `Selector.EligibleUntilExpiry` | server/selector/selector.go:119-141 | only active accounts are eligible, and time takes eligibility away at the token's known expiry alone |
| `Selector.LessUseIsEligible` | server/selector/selector.go:143-158 | less use never costs eligibility; a measured window must be below its threshold, one not measured and the scoped one do not count |
| `Selector.RankingIsStrictTotalOrder` | server/selector/selector.go:91-111 | the five-level ranking is irreflexive, asymmetric, transitive, and total on distinct ids |
| `Selector.SortedHeadIsBest` | server/selector/selector.go:94-112 | the head of any ranked arrangement of the candidates is their unique best, so the pick does not depend on the sort |
| `Selector.BestRespectsTiers` | server/selector/selector.go:91-105 | a pin for this device comes first; a scoped-capped account is taken over a scoped-OK one only by such a pin; within a tier the pick has the most weekly headroom, then the oldest use, then the lowest id |
| `Selector.ForeignPinIsIgnored` | server/selector/selector.go:55-58 | an account pinned for another device ranks as if unpinned |
| `StickyCodex.ChooseStickyCodex` | server/openai/selection.go:12-38 | the lowest pin of this device unless it is current, else the current account while eligible, else the picker or nothing |
| `StickyCodex.LowestPinIs` | server/openai/selection.go:14-28 | the pin chosen is an eligible account pinned here, with the lowest id of all such |
| `StickyCodex.TakesOnlyEligibleCodex` | server/openai/selection.go:14-38 | what is taken is an eligible Codex account, and when nothing is, the current account is not one |
| `StickyCodex.SelectionSettles` | server/openai/selection.go:12-45 | over any run of ticks, eligibility fixed and no new pins, the account switches at most once per pinned row, or once in all |
| `StickyCodex.SettledStays` | server/openai/remote_manager.go:202-261 | once settled, the chosen account never changes again, not even to none |
| `StickyCodex.TickPays` | server/openai/remote_manager.go:202-261 | every switch uses up a pin, or the one departure from an account that is gone |
| `ClaudeChoice.ChooseAutoScan` | server/credinject/coordinator.go:459-494 | auto mode's scan: the current account while it is eligible and no other Claude account is pinned here or unused, else the picker |
| `ClaudeChoice.ChooseManualScan` | server/credinject/coordinator.go:532-563 | manual mode's scan: the lowest pin, else the current account while eligible, else nothing |
| `ClaudeChoice.TakesOnlyEligibleClaude` | server/credinject/coordinator.go:459-563 | what is taken, in either mode, is an eligible Claude account |
| `ClaudeChoice.OnlyClaudePinsCount` | server/credinject/coordinator.go:465-485 | only another eligible Claude account can make a tick ask the picker |
| `ClaudeChoice.CodexMirrorsClaude` | server/openai/selection.go:10-38 | the Codex choice is the Claude manual choice in manual mode, and the Claude auto choice wherever no other account is pinned |
| `ClaudeChoice.KeptExactlyWhen` | server/credinject/coordinator.go:432-494 | a tick keeps an eligible current account if and only if no other eligible account is pinned here or unused, or it is itself the best of the pool |
| `ClaudeChoice.StaysWithoutPins` | server/credinject/coordinator.go:413-427 | with no other account pinned or unused, the current one is kept for good while eligible |
| `ClaudeChoice.PickedIsBest` | server/selector/selector.go:64-113 | the picker's account is the unique best candidate |
| `ClaudeSettling.PickedIsFirst` | server/selector/selector.go:64-113 | with no pin for the device, the picker gives the least recently used account of the best tier |
| `ClaudeSettling.TickIs` | server/credinject/coordinator.go:432-494 | a tick changes nothing unless it asks the picker and gets another account back; then it goes there and marks that account used |
| `ClaudeSettling.MoveStaysRestless` | server/credinject/coordinator.go:682-688 | marking the account used leaves another first in the tier, so a restless pool stays restless |
| `ClaudeSettling.SwingsForEver` | server/credinject/coordinator.go:423-427 | the failing case: with any two or more accounts tied for the best tier, a never-used account outside it and a tick that moves, every tick switches, however long the run |
| `ClaudeSettling.SettlesOtherwise` | server/credinject/coordinator.go:413-427 | any other pool switches at most once per never-used account of the tier, or once in all, over any run |
| `ClaudeSettling.SettlesExactlyWhen` | server/credinject/coordinator.go:413-494 | over any run longer than that bound, eligibility and utilizations fixed and no pin for the device, the bound holds if and only if the pool is not restless |
| `ClaudeSettling.SettlesOnEveryRunExactlyWhen` | server/credinject/coordinator.go:413-494 | the bound holds on every run if and only if the pool is not restless; on a restless one there are as many switches as ticks |
| `ClaudeSettling.UsedLastExactlyWhen` | server/credinject/coordinator.go:682-688 | where the current account was used after all others of its tier, restless means just that the tier has two accounts and a never-used one lies outside it |
| `ClaudeSettling.FirstIsKept` | server/credinject/coordinator.go:432-494 | an account that is the least recently used of the best tier is kept for good, whatever else is in the pool |
| `ClaudeSettling.RestlessExists` | server/credinject/coordinator.go:423-427 | one restless pool |
| `CodexRestore.Manager.InjectCredential` | server/openai/manager.go:123-143 | the backup is written before the credential is, and the native login survives whichever write fails |
| `CodexRestore.Manager.EnsureBackup` | server/openai/manager.go:232-244 | a backup that exists is never overwritten |
| `CodexRestore.Manager.RestoreLocked` | server/openai/manager.go:252-274 | a completed restore leaves the native login in storage and no backup; an interrupted one loses nothing |
| `CodexRestore.StepKeepsNative` | server/openai/manager.go:89-144 | however many of a tick's writes take place, the native login stays in storage or in the backup |
| `CodexRestore.NativeSurvivesEveryRun` | server/openai/manager.go:232-274 | over every run of ticks cut between any two writes, the native login is in storage or in the backup |
| `CodexRestore.RestorePutsNativeBack` | server/openai/remote_manager.go:399-419 | after any such run a completed restore puts the native login, or its absence, back and removes the backup |
| `CodexRestore.InjectIsBackedUp` | server/openai/remote_manager.go:386-397 | after any such run a completed injection has the wanted credential in storage and the native one in the backup |
| `CodexRestore.StorageIsNativeOrWanted` | server/openai/manager.go:89-144 | storage never holds anything but the native login or a credential some tick wanted |
| `ActivityBus.Bus.Emit` | server/activity/activity.go:209-265 | one emit: insert, trim, append to the ring; a failed insert changes nothing, one whose id cannot be read changes the table alone |
| `ActivityLaws.LogIsWhatLanded` | server/activity/activity.go:209-236 | over every run the log is exactly the emits that landed, in order, numbered from one, each with all it was given, its own time, and "info" where no severity was |
| `ActivityBus.Bus.Hydrate` | server/activity/activity.go:154-182 | a restart reads the newest rows and turns them oldest first |
| `ActivityBus.ReverseInPlace` | server/activity/activity.go:176-179 | the in-place swap loop reverses the rows |
| `ActivityBus.Bus.List` | server/activity/activity.go:303-338 | the backward scan gives the ring's matching events, newest first, up to the limit |
| `ActivityBus.MatchType` | server/activity/activity.go:340-351 | an exact type, or a prefix written with a trailing ".*" |
| `ActivityBus.TrimmedIsNewest` | server/activity/activity.go:237-243 | the trim statement leaves exactly the newest 1000 rows |
| `ActivityBus.TableIsTailOfLog` | server/activity/activity.go:237-244 | over every run of emits and restarts, whatever fails, the table is a tail of all that was ever persisted, in id order, and holds at least the newest 1000 |
| `ActivityBus.RingIsNewestSeen` | server/activity/activity.go:209-265 | and the ring holds exactly the newest 1000 of the events the daemon has had in hand, emitted under a known id or read back by a restart |
| `ActivityBus.RingIsNewestOfLog` | server/activity/activity.go:209-265 | so, over every run, the ring holds exactly the newest 1000 events ever persisted if and only if each of these was in hand |
| `ActivityBus.NamedAreSeen` | server/activity/activity.go:223-265 | that is so in every run where ids are read, with inserts and trims failing at will |
| `ActivityBus.RestartCatchesUp` | server/activity/activity.go:154-182 | a restart makes up for every id that could not be read |
| `ActivityBus.RingEqualsTable` | server/activity/activity.go:209-265 | with every write succeeding, ring and table both hold exactly the newest 1000 events in id order, and listing either gives the same |
| `ActivityBus.TrimCatchesUp` | server/activity/activity.go:237-243 | a failed trim is made up for: after the next emit that trims, the table is exactly the newest 1000 events |
| `ActivityBus.ListedIsNewestMatches` | server/activity/activity.go:303-338 | a listing holds only matches, newest first, and leaves one out only when it is full of newer ones |
| `ActivityLaws.ListingLength` | server/activity/activity.go:303-338 | a listing is as long as was asked for where there are matches enough: 200 where nothing was asked, never over 1000 |
| `ActivityLaws.FiltersNarrow` | server/activity/activity.go:319-331 | without filters all is listed; each filter narrows that by its own test, several by all of theirs |
| `ActivityLaws.FamilyIsAllowed` | server/activity/activity.go:340-351 | "a.*" allows every type that begins with "a.", and no other but itself |

## Left out

- LeaseStore.Store.RenewLease: its three statements (server/store/leases.go:149-176) are one method with no other call between them; `RenewRaces` has the runs where other calls come between, with each transaction still one step.
- LeaseStore.Store.ReleaseLease: an expired but unswept lease is closed at now, as the code does, so history segments may outlast the expiry; no bound by the expiry is claimed.
- LeaseRuns.ReachableTablesKeepRules: its one-per-provider rule covers accounts that exist; deleted accounts keep their lease rows, as in the source. Renewals are whole steps here, in `Fleet` and in `Attributor.RealHistoriesFit`; `RenewRaces.RulesHoldExactlyWhenNoneLandsLate` says when the rules outlive split ones.
- Fleet.WritesOnlyWhatItHolds: each tick and each store call is one step; goroutines, mutexes and calls overlapping inside a tick are not modelled.
- Agents.CoordinatorTickIsSafe: the chosen account is an input of the tick, any account whatever, so that the result holds for every choice; `ClaudeChoice` and `StickyCodex` model the choices. The Coordinator's native backup, marker file and token refresh are not part of this model.
- ClaudeSettling.SettlesOnEveryRunExactlyWhen: one device with the pool to itself and no explicit pin for it, eligibility and utilizations fixed over the run, ticks whose lease and write succeed; failing reads of the account list or of the auto-switch setting are not modelled.
- StickyCodex.SelectionSettles: eligibility is fixed over the run, no new pins arrive, leases are granted and MarkUsed succeeds; a tick may fail before it saves.
- CodexRestore.NativeSurvivesEveryRun: storage is one cell that nobody else writes; the automatic storage that falls back from one backend to another, JSON encoding and file permissions are not modelled, and each file write is atomic.
- ActivityBus.RingIsNewestOfLog: emits are serialised; subscribers and the JSON payload are not modelled.
- Attributor.ComputeAttribution: the history rows, the usage rows and the devices' display names are parameters, and their queries' errors are left out.
- DashboardWeek.SevenDayWeek: plan weights and parsed reset times are given with the accounts; the library sort is any ranked arrangement, which distinct ids make unique (`WeekForecast.RankedOrderIsUnique`); rounding of floating point is not modelled.
- Selector.PickProviderWithFilter: the listed accounts and the extra filter are parameters; the library sort is replaced by a function, which `Selector.SortedHeadIsBest` shows does not matter.
- DshFile.FileReappliedExactlyWhen: keys are on one line once trimmed; one with a newline inside is accepted by the source but does not read back as written (`DshFile.WrittenReadsBackExactlyWhen`), and what a second application makes of it is not stated.
- DshOutcomes.AppliedKeyReadsBack: scalars are read as text; how a YAML reader types a plain key, one of digits say, is not modelled.
- DshRestore.FileRestoredExactlyWhen: files without sentinels of their own, and keys on one line.
- DshReapply.ReapplyExactlyWhenIndentKept: keys and lines are without newlines, as lines of a file are; a key holding one would be split when the file is read again.
- CodexEditor.ApplyProviderBlock: works on the file's text; reading, atomic replacement and the profile files beside it (names, collisions, sweeping) are not modelled.
- The vault over HTTP, SQL and its errors, credentials' own formats, keychains, encryption, login flows, pairing and settings: outside calls.
- Database migrations and rows from older versions: every run starts from empty tables.
- Listing and reporting queries on leases, token refresh scheduling, polling backoff and the user interfaces: each is settled by reading one query or branch.
