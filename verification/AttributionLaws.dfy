/** What the replay credits: a device's share of every interval since the last drop, in
    proportion to the time it held the account, and its last use, the latest end of a hold
    during which usage rose. */
module AttributionLaws {
  import opened LeaseTables
  import opened MapSums
  import opened Attribution

  // -------------------------------------------------------------------- held time

  predicate Within(t: int, lo: int, hi: int) { lo <= t < hi }

  function Span(lo: int, hi: int): set<int> { set t: int | lo <= t < hi && Within(t, lo, hi) }

  lemma {:induction false} SpanCounts(lo: int, hi: int)
    requires lo <= hi
    ensures |Span(lo, hi)| == hi - lo
    decreases hi - lo
  {
    if lo == hi {
      assert Span(lo, hi) == {};
    } else {
      SpanCounts(lo, hi - 1);
      assert Span(lo, hi) == Span(lo, hi - 1) + {hi - 1};
    }
  }

  function Instants(s: LeaseEvent, from: int, to: int, now: int): set<int> {
    set t: int | from <= t < to && HeldAt(s, t, now)
  }

  /** An overlap lasts exactly as many instants of the interval as the segment was held at,
      and ends right after the last of them. */
  lemma OverlapCountsInstants(s: LeaseEvent, from: int, to: int, now: int)
    requires from <= to
    ensures |Instants(s, from, to, now)| == Max(0, OverlapOf(s, from, to, now).dur)
    ensures forall t :: t in Instants(s, from, to, now) ==> t < OverlapOf(s, from, to, now).endTs
    ensures OverlapOf(s, from, to, now).dur > 0 ==>
              OverlapOf(s, from, to, now).endTs - 1 in Instants(s, from, to, now)
  {
    var lo, hi := Max(from, s.startedAt), Min(to, EndOf(s, now));
    var held := Instants(s, from, to, now);
    if lo < hi {
      SpanCounts(lo, hi);
      assert held == Span(lo, hi);
    } else {
      assert held == {};
    }
  }

  /** The instants of the interval at which `device` held the account. */
  ghost function HeldTime(segs: seq<LeaseEvent>, from: int, to: int, now: int, device: DeviceId): nat {
    if segs == [] then 0
    else
      var n := |segs| - 1;
      HeldTime(segs[..n], from, to, now, device) +
      if segs[n].device == device then |Instants(segs[n], from, to, now)| else 0
  }

  lemma TimeGrows(ovs: seq<Overlap>, o: Overlap, device: DeviceId)
    ensures TimeOf(ovs + [o], device) == TimeOf(ovs, device) + if o.device == device then o.dur else 0
  {
    assert (ovs + [o])[..|ovs|] == ovs;
  }

  lemma {:induction false} TimeIsHeldTime(segs: seq<LeaseEvent>, from: int, to: int, now: int, device: DeviceId)
    requires from <= to
    ensures TimeOf(Overlaps(segs, from, to, now), device) == HeldTime(segs, from, to, now, device)
  {
    if segs == [] {
    } else {
      var n := |segs| - 1;
      TimeIsHeldTime(segs[..n], from, to, now, device);
      OverlapCountsInstants(segs[n], from, to, now);
      var earlier := Overlaps(segs[..n], from, to, now);
      TimeGrows(earlier, OverlapOf(segs[n], from, to, now), device);
      assert earlier + [] == earlier;
    }
  }

  // ---------------------------------------------------------------------- shares

  /** Snapshot `n` ends an interval in which usage rose. */
  predicate Rises(rows: seq<Row>, w: Window, n: nat) {
    0 < n < |rows| && rows[n - 1].ts < rows[n].ts && Consumption(Util(w, rows[n - 1]), Util(w, rows[n])) > 0.0
  }

  /** A device's share of the interval that snapshot `n` ends. */
  ghost function ShareOf(rows: seq<Row>, w: Window, segs: seq<LeaseEvent>, now: int, device: DeviceId, n: nat): real
    requires 0 < n < |rows|
  {
    var from, to := rows[n - 1].ts, rows[n].ts;
    var total := Total(Overlaps(segs, from, to, now));
    if Rises(rows, w, n) && total > 0
    then Share(Consumption(Util(w, rows[n - 1]), Util(w, rows[n])), HeldTime(segs, from, to, now, device), total)
    else 0.0
  }

  predicate Drops(rows: seq<Row>, w: Window, n: nat) { 0 < n < |rows| && Util(w, rows[n]) < Util(w, rows[n - 1]) }

  /** The shares of every interval from the one with the last drop on. */
  ghost function SharesSinceDrop(rows: seq<Row>, w: Window, segs: seq<LeaseEvent>, now: int, device: DeviceId): real {
    if |rows| <= 1 then 0.0
    else
      var n := |rows| - 1;
      ShareOf(rows, w, segs, now, device, n) +
      if Drops(rows, w, n) then 0.0 else SharesSinceDrop(rows[..n], w, segs, now, device)
  }

  lemma ObserveShares(l: Ledger, rows: seq<Row>, w: Window, segs: seq<LeaseEvent>, now: int, device: DeviceId)
    requires |rows| > 1
    ensures var n := |rows| - 1;
            Get(Observe(l, Util(w, rows[n - 1]), Util(w, rows[n]), rows[n - 1].ts, rows[n].ts, segs, now).accum, device)
            == ShareOf(rows, w, segs, now, device, n) + if Drops(rows, w, n) then 0.0 else Get(l.accum, device)
  {
    hide Overlaps, TimeOf, HeldTime, Spread, Share;
    var n := |rows| - 1;
    var u, v, from, to := Util(w, rows[n - 1]), Util(w, rows[n]), rows[n - 1].ts, rows[n].ts;
    var base := if v < u then l.(accum := map[], unattr := 0.0) else l;
    var ovs := Overlaps(segs, from, to, now);
    PositiveOverlaps(segs, from, to, now);
    if Rises(rows, w, n) && Total(ovs) > 0 {
      SpreadIsProportional(base, Consumption(u, v), Total(ovs), ovs, device);
      TimeIsHeldTime(segs, from, to, now, device);
    }
  }

  /** The replay in closed form: each device is credited with its shares of the intervals
      since the last drop, each in proportion to the instants it held the account. */
  lemma {:induction false} ReplayIsSharesSinceDrop(rows: seq<Row>, w: Window, segs: seq<LeaseEvent>, now: int,
                                                   lastUsed: map<DeviceId, int>, device: DeviceId)
    ensures Get(Replay(rows, w, segs, now, lastUsed).accum, device) == SharesSinceDrop(rows, w, segs, now, device)
  {
    if |rows| <= 1 {
    } else {
      hide Observe, ShareOf;
      var n := |rows| - 1;
      ReplayIsSharesSinceDrop(rows[..n], w, segs, now, lastUsed, device);
      ObserveShares(Replay(rows[..n], w, segs, now, lastUsed), rows, w, segs, now, device);
    }
  }

  // ---------------------------------------------------------------------- last use

  lemma {:induction false} OverlapIsIn(segs: seq<LeaseEvent>, from: int, to: int, now: int, k: nat)
    requires k < |segs| && OverlapOf(segs[k], from, to, now).dur > 0
    ensures OverlapOf(segs[k], from, to, now) in Overlaps(segs, from, to, now)
  {
    hide OverlapOf;
    if k < |segs| - 1 {
      OverlapIsIn(segs[..|segs| - 1], from, to, now, k);
    }
  }

  lemma {:induction false} OverlapIsOf(segs: seq<LeaseEvent>, from: int, to: int, now: int, o: Overlap) returns (k: nat)
    requires o in Overlaps(segs, from, to, now)
    ensures k < |segs| && o.dur > 0 && o == OverlapOf(segs[k], from, to, now)
  {
    hide OverlapOf;
    var n := |segs| - 1;
    if o in Overlaps(segs[..n], from, to, now) {
      k := OverlapIsOf(segs[..n], from, to, now, o);
    } else {
      k := n;
    }
  }

  /** `later` is `earlier` moved on to the latest of the ends: it reaches every one, and
      holds nothing else but them and what was there. */
  ghost predicate MovedOn(earlier: map<DeviceId, int>, later: map<DeviceId, int>, ovs: seq<Overlap>) {
    && NoEarlier(earlier, later)
    && (forall o :: o in ovs ==> o.device in later && later[o.device] >= o.endTs)
    && (forall d :: d in later ==>
          (d in earlier && later[d] == earlier[d]) || exists o :: o in ovs && o.device == d && o.endTs == later[d])
  }

  lemma {:induction false} SpreadMovesOn(l: Ledger, amount: real, total: int, ovs: seq<Overlap>)
    requires total > 0 && forall o :: o in ovs ==> o.endTs > 0
    ensures MovedOn(l.lastUsed, Spread(l, amount, total, ovs).lastUsed, ovs)
  {
    if ovs == [] {
    } else {
      var init, last := ovs[..|ovs| - 1], ovs[|ovs| - 1];
      assert ovs == init + [last] && last in ovs;
      SpreadMovesOn(l, amount, total, init);
      var s, t := Spread(l, amount, total, init).lastUsed, Spread(l, amount, total, ovs).lastUsed;
      forall d | d in t
        ensures (d in l.lastUsed && t[d] == l.lastUsed[d]) ||
                exists o :: o in ovs && o.device == d && o.endTs == t[d]
      {
        if d in s && t[d] == s[d] && !(d in l.lastUsed && s[d] == l.lastUsed[d]) {
          var o :| o in init && o.device == d && o.endTs == s[d];
          assert o in ovs;
        }
      }
    }
  }

  /** Snapshot `n` ends an interval in which usage rose while segment `k` was held. */
  predicate Drives(rows: seq<Row>, w: Window, segs: seq<LeaseEvent>, now: int, n: nat, k: nat) {
    Rises(rows, w, n) && k < |segs| && OverlapOf(segs[k], rows[n - 1].ts, rows[n].ts, now).dur > 0
  }

  /** The end of that hold within the interval. */
  function DriveEnd(rows: seq<Row>, segs: seq<LeaseEvent>, now: int, n: nat, k: nat): int
    requires 0 < n < |rows| && k < |segs|
  {
    OverlapOf(segs[k], rows[n - 1].ts, rows[n].ts, now).endTs
  }

  ghost predicate ReachesEveryDrive(rows: seq<Row>, w: Window, segs: seq<LeaseEvent>, now: int, m: map<DeviceId, int>) {
    forall n: nat, k: nat :: Drives(rows, w, segs, now, n, k) ==>
      segs[k].device in m && m[segs[k].device] >= DriveEnd(rows, segs, now, n, k)
  }

  ghost predicate IsADrive(rows: seq<Row>, w: Window, segs: seq<LeaseEvent>, now: int, device: DeviceId, at: int) {
    exists n: nat, k: nat :: Drives(rows, w, segs, now, n, k) && segs[k].device == device &&
                             at == DriveEnd(rows, segs, now, n, k)
  }

  ghost predicate OnlyDrives(rows: seq<Row>, w: Window, segs: seq<LeaseEvent>, now: int, earlier: map<DeviceId, int>,
                             m: map<DeviceId, int>) {
    forall d :: d in m ==> (d in earlier && m[d] == earlier[d]) || IsADrive(rows, w, segs, now, d, m[d])
  }

  lemma ObserveMovesOn(l: Ledger, rows: seq<Row>, w: Window, segs: seq<LeaseEvent>, now: int)
    requires |rows| > 1 && rows[|rows| - 2].ts >= 0
    ensures var n := |rows| - 1;
            var from, to := rows[n - 1].ts, rows[n].ts;
            var m := Observe(l, Util(w, rows[n - 1]), Util(w, rows[n]), from, to, segs, now).lastUsed;
            if Rises(rows, w, n) then MovedOn(l.lastUsed, m, Overlaps(segs, from, to, now)) else m == l.lastUsed
  {
    hide Overlaps, Spread, OverlapOf;
    var n := |rows| - 1;
    var u, v, from, to := Util(w, rows[n - 1]), Util(w, rows[n]), rows[n - 1].ts, rows[n].ts;
    var base := if v < u then l.(accum := map[], unattr := 0.0) else l;
    var ovs := Overlaps(segs, from, to, now);
    PositiveOverlaps(segs, from, to, now);
    if Rises(rows, w, n) && Total(ovs) > 0 {
      forall o | o in ovs
        ensures o.endTs > 0
      {
        EndsAfterStart(segs, from, to, now, o);
      }
      SpreadMovesOn(base, Consumption(u, v), Total(ovs), ovs);
    }
  }

  lemma EndsAfterStart(segs: seq<LeaseEvent>, from: int, to: int, now: int, o: Overlap)
    requires o in Overlaps(segs, from, to, now)
    ensures o.endTs > from
  {
    var k := OverlapIsOf(segs, from, to, now, o);
  }

  lemma DrivesBefore(rows: seq<Row>, w: Window, segs: seq<LeaseEvent>, now: int, n: nat, k: nat)
    requires |rows| > 1 && n < |rows| - 1
    ensures var init := rows[..|rows| - 1];
            (Drives(init, w, segs, now, n, k) <==> Drives(rows, w, segs, now, n, k)) &&
            (0 < n && k < |segs| ==> DriveEnd(init, segs, now, n, k) == DriveEnd(rows, segs, now, n, k))
  {
  }

  lemma StepReaches(rows: seq<Row>, w: Window, segs: seq<LeaseEvent>, now: int, m: map<DeviceId, int>,
                    t: map<DeviceId, int>)
    requires |rows| > 1 && ReachesEveryDrive(rows[..|rows| - 1], w, segs, now, m)
    requires var n := |rows| - 1;
             if Rises(rows, w, n) then MovedOn(m, t, Overlaps(segs, rows[n - 1].ts, rows[n].ts, now)) else t == m
    ensures ReachesEveryDrive(rows, w, segs, now, t)
  {
    hide Overlaps, OverlapOf, Consumption;
    var z := |rows| - 1;
    forall n: nat, k: nat | Drives(rows, w, segs, now, n, k)
      ensures segs[k].device in t && t[segs[k].device] >= DriveEnd(rows, segs, now, n, k)
    {
      if n < z {
        DrivesBefore(rows, w, segs, now, n, k);
      } else {
        OverlapIsIn(segs, rows[z - 1].ts, rows[z].ts, now, k);
        OverlapDevice(segs[k], rows[z - 1].ts, rows[z].ts, now);
      }
    }
  }

  lemma OverlapDevice(s: LeaseEvent, from: int, to: int, now: int)
    ensures OverlapOf(s, from, to, now).device == s.device
  {
  }

  lemma StepDrives(rows: seq<Row>, w: Window, segs: seq<LeaseEvent>, now: int, earlier: map<DeviceId, int>,
                   m: map<DeviceId, int>, t: map<DeviceId, int>)
    requires |rows| > 1 && OnlyDrives(rows[..|rows| - 1], w, segs, now, earlier, m)
    requires var n := |rows| - 1;
             if Rises(rows, w, n) then MovedOn(m, t, Overlaps(segs, rows[n - 1].ts, rows[n].ts, now)) else t == m
    ensures OnlyDrives(rows, w, segs, now, earlier, t)
  {
    hide Overlaps, OverlapOf, Consumption;
    var z := |rows| - 1;
    forall d | d in t
      ensures (d in earlier && t[d] == earlier[d]) || IsADrive(rows, w, segs, now, d, t[d])
    {
      if d in m && t[d] == m[d] {
        if n: nat, k: nat :| Drives(rows[..z], w, segs, now, n, k) && segs[k].device == d &&
                             m[d] == DriveEnd(rows[..z], segs, now, n, k) {
          DrivesBefore(rows, w, segs, now, n, k);
        }
      } else {
        var o :| o in Overlaps(segs, rows[z - 1].ts, rows[z].ts, now) && o.device == d && o.endTs == t[d];
        var k := OverlapIsOf(segs, rows[z - 1].ts, rows[z].ts, now, o);
        OverlapDevice(segs[k], rows[z - 1].ts, rows[z].ts, now);
        assert Drives(rows, w, segs, now, z, k);
      }
    }
  }

  /** A device's last use after the replay is the latest of all the ends of its holds during
      intervals in which usage rose, and of what it was before: it reaches every one of them
      and is one of them. */
  lemma {:induction false} LastUseIsLatestDrive(rows: seq<Row>, w: Window, segs: seq<LeaseEvent>, now: int,
                                                lastUsed: map<DeviceId, int>)
    requires forall i :: 0 <= i < |rows| ==> rows[i].ts >= 0
    ensures var m := Replay(rows, w, segs, now, lastUsed).lastUsed;
            ReachesEveryDrive(rows, w, segs, now, m) && OnlyDrives(rows, w, segs, now, lastUsed, m) &&
            NoEarlier(lastUsed, m)
  {
    if |rows| <= 1 {
    } else {
      hide ReachesEveryDrive, OnlyDrives, Rises, Observe, Overlaps;
      var n := |rows| - 1;
      var before, after := Replay(rows[..n], w, segs, now, lastUsed), Replay(rows, w, segs, now, lastUsed);
      LastUseIsLatestDrive(rows[..n], w, segs, now, lastUsed);
      ObserveMovesOn(before, rows, w, segs, now);
      StepReaches(rows, w, segs, now, before.lastUsed, after.lastUsed);
      StepDrives(rows, w, segs, now, lastUsed, before.lastUsed, after.lastUsed);
    }
  }
}
