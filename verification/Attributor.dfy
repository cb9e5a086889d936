/** The attribution loops over mutable tallies, the three-window report built from
    them, and what the report means on histories the lease table can produce. */
module Attributor {
  import opened LeaseTables
  import opened LeaseRuns
  import opened MapSums
  import opened Attribution
  import opened AttributionLaws

  lemma OverlapsGrow(segs: seq<LeaseEvent>, i: nat, from: int, to: int, now: int)
    requires i < |segs|
    ensures var o := OverlapOf(segs[i], from, to, now);
            Overlaps(segs[..i + 1], from, to, now) == Overlaps(segs[..i], from, to, now) + if o.dur > 0 then [o] else []
  {
    assert segs[..i + 1][..i] == segs[..i];
  }

  lemma TotalGrows(ovs: seq<Overlap>, o: Overlap)
    ensures Total(ovs + [o]) == Total(ovs) + o.dur
  {
    assert (ovs + [o])[..|ovs|] == ovs;
  }

  lemma SpreadGrows(l: Ledger, amount: real, total: int, ovs: seq<Overlap>, j: nat)
    requires total > 0 && j < |ovs|
    ensures Spread(l, amount, total, ovs[..j + 1]) == Credit(Spread(l, amount, total, ovs[..j]), amount, total, ovs[j])
  {
    assert ovs[..j + 1][..j] == ovs[..j];
  }

  method CollectOverlaps(segs: seq<LeaseEvent>, from: int, to: int, now: int) returns (ovs: seq<Overlap>, total: int)
    ensures ovs == Overlaps(segs, from, to, now) && total == Total(ovs)
  {
    ovs, total := [], 0;
    for i := 0 to |segs|
      invariant ovs == Overlaps(segs[..i], from, to, now) && total == Total(ovs)
    {
      OverlapsGrow(segs, i, from, to, now);
      var end := segs[i].endedAt;
      if end == 0 {
        end := now;
      }
      var lo, hi := from, to;
      if segs[i].startedAt > lo {
        lo := segs[i].startedAt;
      }
      if end < hi {
        hi := end;
      }
      assert OverlapOf(segs[i], from, to, now) == Overlap.Overlap(segs[i].device, hi - lo, hi);
      if hi > lo {
        var o := Overlap.Overlap(segs[i].device, hi - lo, hi);
        TotalGrows(ovs, o);
        ovs, total := ovs + [o], total + (hi - lo);
      }
    }
    assert segs[..|segs|] == segs;
  }

  class Tally {
    var accum: map<DeviceId, real>
    var unattr: real
    var lastUsed: map<DeviceId, int>

    constructor (lastUsed: map<DeviceId, int>)
      ensures Contents() == Ledger(map[], 0.0, lastUsed)
    {
      accum, unattr, this.lastUsed := map[], 0.0, lastUsed;
    }

    function Contents(): Ledger
      reads this
    {
      Ledger(accum, unattr, lastUsed)
    }

    method Distribute(amount: real, from: int, to: int, segs: seq<LeaseEvent>, now: int)
      modifies this
      ensures Contents() == Distributed(old(Contents()), amount, from, to, segs, now)
    {
      if to <= from {
        return;
      }
      var ovs, total := CollectOverlaps(segs, from, to, now);
      PositiveOverlaps(segs, from, to, now);
      if total == 0 {
        unattr := unattr + amount;
        return;
      }
      for j := 0 to |ovs|
        invariant Contents() == Spread(old(Contents()), amount, total, ovs[..j])
      {
        SpreadGrows(old(Contents()), amount, total, ovs, j);
        var o := ovs[j];
        accum := accum[o.device := Get(accum, o.device) + Share(amount, o.dur, total)];
        if o.endTs > LastUsed(lastUsed, o.device) {
          lastUsed := lastUsed[o.device := o.endTs];
        }
      }
      assert ovs[..|ovs|] == ovs;
    }

    /** Walks the snapshots pairwise; a drop throws the window's tally away but keeps lastUsed. */
    method AttributeWindow(rows: seq<Row>, w: Window, segs: seq<LeaseEvent>, now: int)
      modifies this
      ensures Contents() == Replay(rows, w, segs, now, old(lastUsed))
    {
      accum, unattr := map[], 0.0;
      var i := 1;
      while i < |rows|
        invariant i == 1 || 1 <= i <= |rows|
        invariant Contents() == Replay(rows[..Min(i, |rows|)], w, segs, now, old(lastUsed))
      {
        var prev, cur := rows[i - 1], rows[i];
        assert rows[..i + 1][..i] == rows[..i];
        ReplayStep(rows[..i + 1], w, segs, now, old(lastUsed));
        var contribution := Util(w, cur) - Util(w, prev);
        if contribution < 0.0 {
          accum, unattr := map[], 0.0;
          contribution := Util(w, cur);
        }
        if contribution > 0.0 {
          Distribute(contribution, prev.ts, cur.ts, segs, now);
        }
        i := i + 1;
      }
      assert rows[..|rows|] == rows;
    }
  }

  // ------------------------------------------------------------- the report

  datatype DeviceShare = DeviceShare(fiveHour: real, sevenDay: real, scoped: real, lastUsedAt: int)

  function Column(s: DeviceShare, w: Window): real {
    match w case FiveHour => s.fiveHour case SevenDay => s.sevenDay case Scoped => s.scoped
  }

  datatype Report = Report(devices: map<DeviceId, DeviceShare>, unattributed: DeviceShare)

  function Union(five: Ledger, seven: Ledger, scoped: Ledger): Report {
    var ids := five.accum.Keys + seven.accum.Keys + scoped.accum.Keys;
    Report(map d | d in ids :: DeviceShare(Get(five.accum, d), Get(seven.accum, d), Get(scoped.accum, d),
                                           LastUsed(scoped.lastUsed, d)),
           DeviceShare(five.unattr, seven.unattr, scoped.unattr, 0))
  }

  const NOTHING := Report(map[], DeviceShare(0.0, 0.0, 0.0, 0))

  function Computed(rows: seq<Row>, segs: seq<LeaseEvent>, now: int): Report {
    if |rows| < 2 then NOTHING
    else
      var five := Replay(rows, FiveHour, segs, now, map[]);
      var seven := Replay(rows, SevenDay, segs, now, five.lastUsed);
      Union(five, seven, Replay(rows, Scoped, segs, now, seven.lastUsed))
  }

  // --------------------------------------------------------- the list of devices

  datatype DeviceRow = DeviceRow(device: DeviceId, name: string, share: DeviceShare)

  datatype AccountAttribution = AccountAttribution(account: AccountId, devices: seq<DeviceRow>,
                                                   unattributed: DeviceShare, sampleCount: nat, sampleStart: int)

  function Points(s: DeviceShare): real { s.fiveHour + s.sevenDay + s.scoped }

  /** Most points first, ties by device. */
  predicate Ahead(r: DeviceRow, q: DeviceRow) {
    Points(r.share) > Points(q.share) || (Points(r.share) == Points(q.share) && r.device < q.device)
  }

  ghost predicate Ordered(list: seq<DeviceRow>) { forall i, j :: 0 <= i < j < |list| ==> Ahead(list[i], list[j]) }

  function NameOf(names: map<DeviceId, string>, d: DeviceId): string { if d in names then names[d] else "" }

  function RowFor(devices: map<DeviceId, DeviceShare>, names: map<DeviceId, string>, d: DeviceId): DeviceRow
    requires d in devices
  {
    DeviceRow(d, NameOf(names, d), devices[d])
  }

  /** One row for each of the devices `done`, and no other row. */
  ghost predicate HasRows(list: seq<DeviceRow>, devices: map<DeviceId, DeviceShare>, names: map<DeviceId, string>,
                          done: set<DeviceId>) {
    && done <= devices.Keys
    && (forall r :: r in list ==> r.device in done && r == RowFor(devices, names, r.device))
    && (forall d :: d in done ==> RowFor(devices, names, d) in list)
  }

  ghost predicate Lists(list: seq<DeviceRow>, devices: map<DeviceId, DeviceShare>, names: map<DeviceId, string>) {
    Ordered(list) && HasRows(list, devices, names, devices.Keys)
  }

  /** The list with `r` put before the first row it is ahead of. */
  function Placed(list: seq<DeviceRow>, r: DeviceRow): seq<DeviceRow> {
    if list == [] then [r]
    else if Ahead(r, list[0]) then [r] + list
    else [list[0]] + Placed(list[1..], r)
  }

  lemma {:induction false} PlacedHas(list: seq<DeviceRow>, r: DeviceRow)
    ensures forall q :: q in Placed(list, r) <==> q in list || q == r
  {
    if list == [] || Ahead(r, list[0]) {
    } else {
      PlacedHas(list[1..], r);
      assert list == [list[0]] + list[1..];
    }
  }

  lemma {:induction false} PlacedIsOrdered(list: seq<DeviceRow>, r: DeviceRow)
    requires Ordered(list) && forall q :: q in list ==> q.device != r.device
    ensures Ordered(Placed(list, r))
  {
    if list == [] || Ahead(r, list[0]) {
    } else {
      PlacedIsOrdered(list[1..], r);
      PlacedHas(list[1..], r);
      var rest := Placed(list[1..], r);
      forall j | 0 <= j < |rest|
        ensures Ahead(list[0], rest[j])
      {
        assert rest[j] in rest;
      }
    }
  }

  lemma NoMember(left: set<DeviceId>)
    requires forall d :: d !in left
    ensures left == {}
  {
    assert forall d :: d in left <==> d in {};
  }

  lemma SomeMember(left: set<DeviceId>)
    requires left != {}
    ensures exists d :: d in left
  {
    if forall d :: d !in left {
      NoMember(left);
    }
  }

  /** The devices as they come out of the map, in any order, put in the list's order. */
  method ListDevices(devices: map<DeviceId, DeviceShare>, names: map<DeviceId, string>) returns (list: seq<DeviceRow>)
    ensures Lists(list, devices, names)
  {
    list := [];
    var left := devices.Keys;
    while left != {}
      invariant left <= devices.Keys
      invariant Ordered(list) && HasRows(list, devices, names, devices.Keys - left)
    {
      SomeMember(left);
      var d :| d in left;
      var r := RowFor(devices, names, d);
      PlacedHas(list, r);
      PlacedIsOrdered(list, r);
      list := Placed(list, r);
      left := left - {d};
    }
    assert devices.Keys - left == devices.Keys;
  }

  lemma FirstIsIn(list: seq<DeviceRow>)
    requires list != []
    ensures exists r :: r in list
  {
    assert list[0] in list;
  }

  /** There is only one such list, so the order the map gives its keys in does not show. */
  lemma {:induction false} ListIsUnique(one: seq<DeviceRow>, other: seq<DeviceRow>)
    requires Ordered(one) && Ordered(other) && forall r :: r in one <==> r in other
    ensures one == other
  {
    if one == [] {
      if other != [] {
        FirstIsIn(other);
      }
    } else {
      assert one[0] in other && other != [] && other[0] in one;
      var i :| 0 <= i < |one| && one[i] == other[0];
      var j :| 0 <= j < |other| && other[j] == one[0];
      assert one[0] == other[0];
      SameRest(one, other);
      SameRest(other, one);
      ListIsUnique(one[1..], other[1..]);
    }
  }

  /** A device stands ahead of another for more points in all over the three windows, or for
      as many and the lower id. */
  lemma ListIsByPoints(list: seq<DeviceRow>, devices: map<DeviceId, DeviceShare>, names: map<DeviceId, string>,
                       i: nat, j: nat)
    requires Lists(list, devices, names) && i < |list| && j < |list|
    ensures var r, q := list[i], list[j];
            var x, y := r.share.fiveHour + r.share.sevenDay + r.share.scoped,
                        q.share.fiveHour + q.share.sevenDay + q.share.scoped;
            i < j <==> x > y || (x == y && r.device < q.device)
  {
    assert i < j ==> Ahead(list[i], list[j]);
    assert j < i ==> Ahead(list[j], list[i]);
  }

  lemma SameRest(one: seq<DeviceRow>, other: seq<DeviceRow>)
    requires Ordered(one) && one != [] && other != [] && one[0] == other[0]
    requires forall r :: r in one ==> r in other
    ensures forall r :: r in one[1..] ==> r in other[1..]
  {
    var rest := one[1..];
    forall r | r in rest
      ensures r in other[1..]
    {
      var i :| 0 <= i < |rest| && rest[i] == r;
      assert Ahead(one[0], one[i + 1]) && one[i + 1] in other;
      assert other == [other[0]] + other[1..];
    }
  }

  method ComputeAttribution(account: AccountId, rows: seq<Row>, segs: seq<LeaseEvent>, names: map<DeviceId, string>,
                            now: int) returns (out: AccountAttribution)
    ensures out.account == account && out.sampleCount == |rows|
    ensures out.sampleStart == if rows == [] then 0 else rows[0].ts
    ensures Lists(out.devices, Computed(rows, segs, now).devices, names)
    ensures out.unattributed == Computed(rows, segs, now).unattributed
  {
    var start := 0;
    if |rows| > 0 {
      start := rows[0].ts;
    }
    out := AccountAttribution(account, [], NOTHING.unattributed, |rows|, start);
    if |rows| < 2 {
      return;
    }
    var five := new Tally(map[]);
    five.AttributeWindow(rows, FiveHour, segs, now);
    var seven := new Tally(five.lastUsed);
    seven.AttributeWindow(rows, SevenDay, segs, now);
    var scoped := new Tally(seven.lastUsed);
    scoped.AttributeWindow(rows, Scoped, segs, now);
    var report := Union(five.Contents(), seven.Contents(), scoped.Contents());
    var listed := ListDevices(report.devices, names);
    out := out.(devices := listed, unattributed := report.unattributed);
  }

  function Columns(devices: map<DeviceId, DeviceShare>, w: Window): map<DeviceId, real> {
    map d | d in devices :: Column(devices[d], w)
  }

  ghost function ColumnSum(r: Report, w: Window): real { Sum(Columns(r.devices, w)) }

  lemma UnionKeepsSums(five: Ledger, seven: Ledger, scoped: Ledger, w: Window)
    ensures ColumnSum(Union(five, seven, scoped), w) ==
            Sum((match w case FiveHour => five case SevenDay => seven case Scoped => scoped).accum)
  {
    var r := Union(five, seven, scoped);
    var m := (match w case FiveHour => five case SevenDay => seven case Scoped => scoped).accum;
    SumPadded(m, r.devices.Keys);
    assert Columns(r.devices, w) == map d | d in r.devices.Keys :: Get(m, d);
  }

  /** The report conserves usage in all three windows at once: device columns plus
      the unattributed share add up to what the account's own levels show. */
  lemma ReportConserves(rows: seq<Row>, segs: seq<LeaseEvent>, now: int, w: Window)
    requires StrictlyLater(rows) && NonNegative(rows, w)
    ensures var r := Computed(rows, segs, now);
            ColumnSum(r, w) + Column(r.unattributed, w) == ObservedUse(rows, w)
  {
    if |rows| < 2 {
      assert Columns(map[], w) == map[];
    } else {
      var five := Replay(rows, FiveHour, segs, now, map[]);
      var seven := Replay(rows, SevenDay, segs, now, five.lastUsed);
      var scoped := Replay(rows, Scoped, segs, now, seven.lastUsed);
      UnionKeepsSums(five, seven, scoped, w);
      match w {
        case FiveHour => ReplayConserves(rows, w, segs, now, map[]);
        case SevenDay => ReplayConserves(rows, w, segs, now, five.lastUsed);
        case Scoped => ReplayConserves(rows, w, segs, now, seven.lastUsed);
      }
    }
  }

  /** The points of one window over the listed rows. */
  function Listed(list: seq<DeviceRow>, w: Window): real {
    if list == [] then 0.0 else Listed(list[..|list| - 1], w) + Column(list[|list| - 1].share, w)
  }

  lemma {:induction false} ListedIsColumnSum(list: seq<DeviceRow>, devices: map<DeviceId, DeviceShare>,
                                             names: map<DeviceId, string>, w: Window)
    requires Lists(list, devices, names)
    ensures Listed(list, w) == Sum(Columns(devices, w))
  {
    hide Lists, Column;
    if list == [] {
      NothingListed(devices, names, w);
    } else {
      var last, fewer := list[|list| - 1], devices - {list[|list| - 1].device};
      LastRowOff(list, devices, names);
      ListedIsColumnSum(list[..|list| - 1], fewer, names, w);
      ColumnWithout(devices, last.device, w);
    }
  }

  lemma ColumnWithout(devices: map<DeviceId, DeviceShare>, d: DeviceId, w: Window)
    requires d in devices
    ensures Sum(Columns(devices, w)) == Column(devices[d], w) + Sum(Columns(devices - {d}, w))
  {
    hide Sum, Column;
    SumWithout(Columns(devices, w), d);
    assert Columns(devices, w) - {d} == Columns(devices - {d}, w);
  }

  lemma NothingListed(devices: map<DeviceId, DeviceShare>, names: map<DeviceId, string>, w: Window)
    requires Lists([], devices, names)
    ensures Sum(Columns(devices, w)) == 0.0
  {
    forall d
      ensures d !in devices
    {
      if d in devices {
        DeviceIsListed([], devices, names, d);
      }
    }
    assert Columns(devices, w) == map[];
  }

  lemma DeviceIsListed(list: seq<DeviceRow>, devices: map<DeviceId, DeviceShare>, names: map<DeviceId, string>,
                       d: DeviceId)
    requires Lists(list, devices, names) && d in devices
    ensures list != []
  {
    assert RowFor(devices, names, d) in list;
  }

  lemma OrderedLastOff(list: seq<DeviceRow>, r: DeviceRow)
    requires Ordered(list) && list != [] && r in list[..|list| - 1]
    ensures Ordered(list[..|list| - 1]) && r != list[|list| - 1]
  {
  }

  lemma LastRowOff(list: seq<DeviceRow>, devices: map<DeviceId, DeviceShare>, names: map<DeviceId, string>)
    requires Lists(list, devices, names) && list != []
    ensures var last := list[|list| - 1];
            last.device in devices && devices[last.device] == last.share &&
            Lists(list[..|list| - 1], devices - {last.device}, names)
  {
    hide Ahead, Points, NameOf;
    var init, last := list[..|list| - 1], list[|list| - 1];
    var fewer := devices - {last.device};
    assert list == init + [last] && last in list && Ordered(init);
    forall r | r in init
      ensures r.device in fewer && r == RowFor(fewer, names, r.device)
    {
      OrderedLastOff(list, r);
      assert r in list;
    }
    forall d | d in fewer
      ensures RowFor(fewer, names, d) in init
    {
      assert RowFor(devices, names, d) in list;
    }
  }

  /** The listed rows and the unattributed share add up to the observed use as well. */
  lemma ListConserves(list: seq<DeviceRow>, names: map<DeviceId, string>, rows: seq<Row>, segs: seq<LeaseEvent>,
                      now: int, w: Window)
    requires StrictlyLater(rows) && NonNegative(rows, w)
    requires Lists(list, Computed(rows, segs, now).devices, names)
    ensures Listed(list, w) + Column(Computed(rows, segs, now).unattributed, w) == ObservedUse(rows, w)
  {
    hide Lists, Computed;
    ListedIsColumnSum(list, Computed(rows, segs, now).devices, names, w);
    ReportConserves(rows, segs, now, w);
  }

  /** Every device in the report was last used inside one of its own segments. */
  lemma ReportIsGrounded(rows: seq<Row>, segs: seq<LeaseEvent>, now: int, device: DeviceId)
    requires forall i :: 0 <= i < |rows| ==> rows[i].ts >= 0
    requires device in Computed(rows, segs, now).devices
    ensures Grounded(segs, now, device, Computed(rows, segs, now).devices[device].lastUsedAt)
  {
    var five := Replay(rows, FiveHour, segs, now, map[]);
    LastUsedIsGroundedAndMonotone(rows, FiveHour, segs, now, map[], 0);
    var seven := Replay(rows, SevenDay, segs, now, five.lastUsed);
    LastUsedIsGroundedAndMonotone(rows, SevenDay, segs, now, five.lastUsed, 0);
    LastUsedIsGroundedAndMonotone(rows, Scoped, segs, now, seven.lastUsed, 0);
  }

  ghost function LedgerOf(rows: seq<Row>, segs: seq<LeaseEvent>, now: int, w: Window): Ledger {
    var five := Replay(rows, FiveHour, segs, now, map[]);
    var seven := Replay(rows, SevenDay, segs, now, five.lastUsed);
    match w case FiveHour => five case SevenDay => seven case Scoped => Replay(rows, Scoped, segs, now, seven.lastUsed)
  }

  /** Each of the report's columns is, device by device, the shares of the intervals since
      that window's last drop; a device that is not listed has none. */
  lemma ReportIsSharesSinceDrop(rows: seq<Row>, segs: seq<LeaseEvent>, now: int, w: Window, device: DeviceId)
    ensures Get(Columns(Computed(rows, segs, now).devices, w), device) == SharesSinceDrop(rows, w, segs, now, device)
  {
    if |rows| >= 2 {
      var five := Replay(rows, FiveHour, segs, now, map[]);
      var seven := Replay(rows, SevenDay, segs, now, five.lastUsed);
      ReplayIsSharesSinceDrop(rows, FiveHour, segs, now, map[], device);
      ReplayIsSharesSinceDrop(rows, SevenDay, segs, now, five.lastUsed, device);
      ReplayIsSharesSinceDrop(rows, Scoped, segs, now, seven.lastUsed, device);
    }
  }

  /** A listed device's last use is the latest end of its holds during intervals in which
      any of the three windows rose: at or after every one of them, and one of them. */
  lemma ReportLastUseIsLatestDrive(rows: seq<Row>, segs: seq<LeaseEvent>, now: int, device: DeviceId)
    requires forall i :: 0 <= i < |rows| ==> rows[i].ts >= 0
    requires device in Computed(rows, segs, now).devices
    ensures var at := Computed(rows, segs, now).devices[device].lastUsedAt;
            (forall w, n: nat, k: nat :: Drives(rows, w, segs, now, n, k) && segs[k].device == device ==>
               at >= DriveEnd(rows, segs, now, n, k)) &&
            exists w :: IsADrive(rows, w, segs, now, device, at)
  {
    hide ReachesEveryDrive, OnlyDrives, IsADrive, Replay, Consumption, OverlapOf;
    var five := Replay(rows, FiveHour, segs, now, map[]);
    var seven := Replay(rows, SevenDay, segs, now, five.lastUsed);
    var scoped := Replay(rows, Scoped, segs, now, seven.lastUsed);
    ListedIsUsed(rows, segs, now, device);
    LastUseIsLatestDrive(rows, FiveHour, segs, now, map[]);
    LastUseIsLatestDrive(rows, SevenDay, segs, now, five.lastUsed);
    LastUseIsLatestDrive(rows, Scoped, segs, now, seven.lastUsed);
    Outlives(rows, FiveHour, segs, now, five.lastUsed, seven.lastUsed, device);
    NoEarlierTransitive(five.lastUsed, seven.lastUsed, scoped.lastUsed);
    Outlives(rows, FiveHour, segs, now, five.lastUsed, scoped.lastUsed, device);
    Outlives(rows, SevenDay, segs, now, seven.lastUsed, scoped.lastUsed, device);
    Outlives(rows, Scoped, segs, now, scoped.lastUsed, scoped.lastUsed, device);
    forall w, n: nat, k: nat | Drives(rows, w, segs, now, n, k) && segs[k].device == device
      ensures scoped.lastUsed[device] >= DriveEnd(rows, segs, now, n, k)
    {
      assert w == FiveHour || w == SevenDay || w == Scoped;
    }
    if !IsADrive(rows, Scoped, segs, now, device, scoped.lastUsed[device]) {
      ComesFrom(rows, Scoped, segs, now, seven.lastUsed, scoped.lastUsed, device);
      if !IsADrive(rows, SevenDay, segs, now, device, seven.lastUsed[device]) {
        ComesFrom(rows, SevenDay, segs, now, five.lastUsed, seven.lastUsed, device);
        ComesFrom(rows, FiveHour, segs, now, map[], five.lastUsed, device);
      }
    }
  }

  lemma Outlives(rows: seq<Row>, w: Window, segs: seq<LeaseEvent>, now: int, m: map<DeviceId, int>,
                 later: map<DeviceId, int>, device: DeviceId)
    requires ReachesEveryDrive(rows, w, segs, now, m) && NoEarlier(m, later)
    ensures forall n: nat, k: nat :: Drives(rows, w, segs, now, n, k) && segs[k].device == device ==>
              device in later && later[device] >= DriveEnd(rows, segs, now, n, k)
  {
  }

  lemma ComesFrom(rows: seq<Row>, w: Window, segs: seq<LeaseEvent>, now: int, earlier: map<DeviceId, int>,
                  m: map<DeviceId, int>, device: DeviceId)
    requires OnlyDrives(rows, w, segs, now, earlier, m) && device in m
    ensures IsADrive(rows, w, segs, now, device, m[device]) || (device in earlier && m[device] == earlier[device])
  {
  }

  lemma ListedIsUsed(rows: seq<Row>, segs: seq<LeaseEvent>, now: int, device: DeviceId)
    requires forall i :: 0 <= i < |rows| ==> rows[i].ts >= 0
    requires device in Computed(rows, segs, now).devices
    ensures device in LedgerOf(rows, segs, now, Scoped).lastUsed
  {
    var five := Replay(rows, FiveHour, segs, now, map[]);
    LastUsedIsGroundedAndMonotone(rows, FiveHour, segs, now, map[], 0);
    var seven := Replay(rows, SevenDay, segs, now, five.lastUsed);
    LastUsedIsGroundedAndMonotone(rows, SevenDay, segs, now, five.lastUsed, 0);
    LastUsedIsGroundedAndMonotone(rows, Scoped, segs, now, seven.lastUsed, 0);
  }

  // ------------------------------------------------ histories of the lease table

  /** The account's segments that are open or ended at or after `since`. */
  function HistoryOf(events: seq<LeaseEvent>, account: AccountId, since: int): seq<LeaseEvent> {
    if events == [] then []
    else
      var e := events[|events| - 1];
      HistoryOf(events[..|events| - 1], account, since) +
      if e.account == account && (e.endedAt == 0 || e.endedAt >= since) then [e] else []
  }

  lemma {:induction false} HistoryMembers(events: seq<LeaseEvent>, account: AccountId, since: int, e: LeaseEvent)
    ensures e in HistoryOf(events, account, since) <==>
            e in events && e.account == account && (e.endedAt == 0 || e.endedAt >= since)
  {
    if events == [] {
    } else {
      var init, last := events[..|events| - 1], events[|events| - 1];
      HistoryMembers(init, account, since, e);
      assert events == init + [last];
    }
  }

  /** Insertion order is the query's ORDER BY started_at, and segments never overlap. */
  lemma {:induction false} HistoryIsInOrder(events: seq<LeaseEvent>, account: AccountId, since: int, now: int)
    requires SegmentsDisjoint(events) && forall k :: 0 <= k < |events| ==> EventInOrder(events[k], now)
    ensures InOrder(HistoryOf(events, account, since), now)
  {
    if events == [] {
    } else {
      var n := |events| - 1;
      var init, last := events[..n], events[n];
      HistoryIsInOrder(init, account, since, now);
      var earlier := HistoryOf(init, account, since);
      if last.account == account {
        forall i | 0 <= i < |earlier|
          ensures EndOf(earlier[i], now) <= last.startedAt
        {
          HistoryMembers(init, account, since, earlier[i]);
          var k :| 0 <= k < n && init[k] == earlier[i];
          assert events[k] == earlier[i];
        }
      }
    }
  }

  /** On the history of any run of the lease table: the overlaps with an observed
      interval never exceed it, and the interval's points go unattributed exactly
      when no device held the account at any instant of it. */
  lemma RealHistoriesFit(run: seq<Step>, account: AccountId, since: int, from: int, to: int, now: int)
    requires IsRun(run) && Clock(run) <= now && since <= from < to
    ensures var segs := HistoryOf(After(run).events, account, since);
            InOrder(segs, now) && Total(Overlaps(segs, from, to, now)) <= to - from
    ensures var segs := HistoryOf(After(run).events, account, since);
            Total(Overlaps(segs, from, to, now)) == 0 <==>
            forall e, t :: e in After(run).events && e.account == account && from <= t < to ==> !HeldAt(e, t, now)
  {
    ReachableTablesKeepRules(run);
    LaterClockKeepsInv(After(run), Clock(run), now);
    var events := After(run).events;
    var segs := HistoryOf(events, account, since);
    HistoryIsInOrder(events, account, since, now);
    OverlapsFitTheInterval(segs, from, to, now);
    UnattributedExactlyWhenUnheld(segs, from, to, now);
    if e, t :| e in events && e.account == account && from <= t < to && HeldAt(e, t, now) {
      HistoryMembers(events, account, since, e);
      var k :| 0 <= k < |segs| && segs[k] == e;
      assert HeldAt(segs[k], t, now);
    } else {
      forall k, t | 0 <= k < |segs| && from <= t < to
        ensures !HeldAt(segs[k], t, now)
      {
        HistoryMembers(events, account, since, segs[k]);
      }
    }
  }
}
