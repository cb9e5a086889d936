/** Per-device attribution: utilization deltas replayed against lease segments. */
module Attribution {
  import opened LeaseTables
  import opened MapSums

  datatype Row = Row(ts: int, fiveHour: real, sevenDay: real, scoped: real)
  datatype Window = FiveHour | SevenDay | Scoped

  function Util(w: Window, r: Row): real {
    match w case FiveHour => r.fiveHour case SevenDay => r.sevenDay case Scoped => r.scoped
  }

  /** One device's time on the account inside an interval, and when it ended. */
  datatype Overlap = Overlap(device: DeviceId, dur: int, endTs: int)

  datatype Ledger = Ledger(accum: map<DeviceId, real>, unattr: real, lastUsed: map<DeviceId, int>)

  function EndOf(s: LeaseEvent, now: int): int { if s.endedAt == 0 then now else s.endedAt }
  function Max(a: int, b: int): int { if a >= b then a else b }
  function Min(a: int, b: int): int { if a <= b then a else b }

  function OverlapOf(s: LeaseEvent, from: int, to: int, now: int): Overlap {
    var lo, hi := Max(from, s.startedAt), Min(to, EndOf(s, now));
    Overlap(s.device, hi - lo, hi)
  }

  function Overlaps(segs: seq<LeaseEvent>, from: int, to: int, now: int): seq<Overlap> {
    if segs == [] then []
    else
      var n := |segs| - 1;
      var o := OverlapOf(segs[n], from, to, now);
      Overlaps(segs[..n], from, to, now) + if o.dur > 0 then [o] else []
  }

  function Total(ovs: seq<Overlap>): int {
    if ovs == [] then 0 else Total(ovs[..|ovs| - 1]) + ovs[|ovs| - 1].dur
  }

  /** How long `device` held the account according to the overlaps. */
  function TimeOf(ovs: seq<Overlap>, device: DeviceId): int {
    if ovs == [] then 0
    else
      var o := ovs[|ovs| - 1];
      TimeOf(ovs[..|ovs| - 1], device) + if o.device == device then o.dur else 0
  }

  function LastUsed(m: map<DeviceId, int>, device: DeviceId): int { if device in m then m[device] else 0 }

  /** The part of `amount` that `dur` out of `total` earns. */
  function Share(amount: real, dur: int, total: int): real
    requires total > 0
  {
    amount * dur as real / total as real
  }

  function Credit(l: Ledger, amount: real, total: int, o: Overlap): Ledger
    requires total > 0
  {
    l.(accum := l.accum[o.device := Get(l.accum, o.device) + Share(amount, o.dur, total)],
       lastUsed := if o.endTs > LastUsed(l.lastUsed, o.device) then l.lastUsed[o.device := o.endTs] else l.lastUsed)
  }

  function Spread(l: Ledger, amount: real, total: int, ovs: seq<Overlap>): Ledger
    requires total > 0
  {
    if ovs == [] then l
    else Credit(Spread(l, amount, total, ovs[..|ovs| - 1]), amount, total, ovs[|ovs| - 1])
  }

  /** One interval's consumption shared out by held time. */
  function Distributed(l: Ledger, amount: real, from: int, to: int, segs: seq<LeaseEvent>, now: int): Ledger {
    if to <= from then l
    else
      var ovs := Overlaps(segs, from, to, now);
      PositiveOverlaps(segs, from, to, now);
      if Total(ovs) == 0 then l.(unattr := l.unattr + amount) else Spread(l, amount, Total(ovs), ovs)
  }

  /** The interval's consumption; after a drop the new level is all fresh. */
  function Consumption(u: real, v: real): real { if v < u then v else v - u }

  function Replay(rows: seq<Row>, w: Window, segs: seq<LeaseEvent>, now: int, lastUsed: map<DeviceId, int>): Ledger {
    if |rows| <= 1 then Ledger(map[], 0.0, lastUsed)
    else
      var n := |rows| - 1;
      var prev, cur := rows[n - 1], rows[n];
      Observe(Replay(rows[..n], w, segs, now, lastUsed), Util(w, prev), Util(w, cur), prev.ts, cur.ts, segs, now)
  }

  /** One pair of snapshots; a drop starts the window's tally afresh. */
  function Observe(l: Ledger, u: real, v: real, from: int, to: int, segs: seq<LeaseEvent>, now: int): Ledger {
    var base := if v < u then l.(accum := map[], unattr := 0.0) else l;
    var amount := Consumption(u, v);
    if amount <= 0.0 then base else Distributed(base, amount, from, to, segs, now)
  }

  // ------------------------------------------------------------ conservation

  lemma OverlapsStep(segs: seq<LeaseEvent>, from: int, to: int, now: int)
    requires segs != []
    ensures var n := |segs| - 1;
            Total(Overlaps(segs, from, to, now)) ==
            Total(Overlaps(segs[..n], from, to, now)) + Max(0, OverlapOf(segs[n], from, to, now).dur)
  {
    var n := |segs| - 1;
    var ovs := Overlaps(segs, from, to, now);
    if OverlapOf(segs[n], from, to, now).dur > 0 {
      assert ovs[..|ovs| - 1] == Overlaps(segs[..n], from, to, now);
    } else {
      assert ovs == Overlaps(segs[..n], from, to, now);
    }
  }

  lemma {:induction false} PositiveOverlaps(segs: seq<LeaseEvent>, from: int, to: int, now: int)
    ensures Total(Overlaps(segs, from, to, now)) >= 0
    ensures Total(Overlaps(segs, from, to, now)) == 0 <==> Overlaps(segs, from, to, now) == []
  {
    if segs != [] {
      PositiveOverlaps(segs[..|segs| - 1], from, to, now);
      OverlapsStep(segs, from, to, now);
    }
  }

  lemma SharesAdd(amount: real, a: int, b: int, total: int)
    requires total > 0
    ensures Share(amount, a + b, total) == Share(amount, a, total) + Share(amount, b, total)
    ensures Share(amount, 0, total) == 0.0 && Share(amount, total, total) == amount
  {
    assert (a + b) as real == a as real + b as real;
    assert amount * (a as real + b as real) == amount * a as real + amount * b as real;
  }

  lemma {:induction false} SpreadConserves(l: Ledger, amount: real, total: int, ovs: seq<Overlap>)
    requires total > 0
    ensures Sum(Spread(l, amount, total, ovs).accum) == Sum(l.accum) + Share(amount, Total(ovs), total)
    ensures Spread(l, amount, total, ovs).unattr == l.unattr
  {
    if ovs == [] {
      SharesAdd(amount, 0, 0, total);
    } else {
      var init, o := ovs[..|ovs| - 1], ovs[|ovs| - 1];
      SpreadConserves(l, amount, total, init);
      var s := Spread(l, amount, total, init);
      var share := Share(amount, o.dur, total);
      SumUpdated(s.accum, o.device, Get(s.accum, o.device) + share);
      SharesAdd(amount, Total(init), o.dur, total);
    }
  }

  /** Each device is credited in proportion to its own held time, others not at all. */
  lemma {:induction false} SpreadIsProportional(l: Ledger, amount: real, total: int, ovs: seq<Overlap>,
                                                device: DeviceId)
    requires total > 0
    ensures Get(Spread(l, amount, total, ovs).accum, device) ==
            Get(l.accum, device) + Share(amount, TimeOf(ovs, device), total)
  {
    if ovs == [] {
      SharesAdd(amount, 0, 0, total);
    } else {
      var init, o := ovs[..|ovs| - 1], ovs[|ovs| - 1];
      SpreadIsProportional(l, amount, total, init, device);
      SharesAdd(amount, TimeOf(init, device), o.dur, total);
    }
  }

  lemma DistributedConserves(l: Ledger, amount: real, from: int, to: int, segs: seq<LeaseEvent>, now: int)
    requires from < to
    ensures var d := Distributed(l, amount, from, to, segs, now);
            Sum(d.accum) + d.unattr == Sum(l.accum) + l.unattr + amount
  {
    PositiveOverlaps(segs, from, to, now);
    var ovs := Overlaps(segs, from, to, now);
    if Total(ovs) != 0 {
      SpreadConserves(l, amount, Total(ovs), ovs);
      SharesAdd(amount, 0, 0, Total(ovs));
    }
  }

  ghost predicate StrictlyLater(rows: seq<Row>) {
    forall i :: 0 < i < |rows| ==> rows[i - 1].ts < rows[i].ts
  }

  ghost predicate NonNegative(rows: seq<Row>, w: Window) {
    forall i :: 0 <= i < |rows| ==> Util(w, rows[i]) >= 0.0
  }

  ghost predicate NeverDrops(rows: seq<Row>, w: Window) {
    forall i :: 0 < i < |rows| ==> Util(w, rows[i - 1]) <= Util(w, rows[i])
  }

  /** What the account's utilization itself says the window consumed. */
  ghost function ObservedUse(rows: seq<Row>, w: Window): real {
    if rows == [] then 0.0
    else if NeverDrops(rows, w) then Util(w, rows[|rows| - 1]) - Util(w, rows[0])
    else Util(w, rows[|rows| - 1])
  }

  lemma ObserveConserves(l: Ledger, u: real, v: real, from: int, to: int, segs: seq<LeaseEvent>, now: int)
    requires from < to && v >= 0.0
    ensures var o := Observe(l, u, v, from, to, segs, now);
            Sum(o.accum) + o.unattr == if v < u then v else Sum(l.accum) + l.unattr + (v - u)
  {
    var base := if v < u then l.(accum := map[], unattr := 0.0) else l;
    DistributedConserves(base, Consumption(u, v), from, to, segs, now);
  }

  lemma ObservedUseStep(rows: seq<Row>, w: Window)
    requires |rows| > 1
    ensures var n := |rows| - 1;
            var u, v := Util(w, rows[n - 1]), Util(w, rows[n]);
            ObservedUse(rows, w) == if v < u then v else ObservedUse(rows[..n], w) + (v - u)
  {
    var n := |rows| - 1;
    assert forall i :: 0 <= i < n ==> rows[..n][i] == rows[i];
    assert NeverDrops(rows, w) <==> NeverDrops(rows[..n], w) && Util(w, rows[n - 1]) <= Util(w, rows[n]);
  }

  lemma ReplayStep(rows: seq<Row>, w: Window, segs: seq<LeaseEvent>, now: int, lastUsed: map<DeviceId, int>)
    requires |rows| > 1
    ensures var n := |rows| - 1;
            Replay(rows, w, segs, now, lastUsed) ==
            Observe(Replay(rows[..n], w, segs, now, lastUsed), Util(w, rows[n - 1]), Util(w, rows[n]),
                    rows[n - 1].ts, rows[n].ts, segs, now)
  {
  }

  /** Conservation: whatever the segments are, device credits and the
      unattributed rest add up to the last level minus the first when the level
      never drops, and to exactly the last level once any drop has occurred. */
  lemma {:induction false} ReplayConserves(rows: seq<Row>, w: Window, segs: seq<LeaseEvent>, now: int,
                                           lastUsed: map<DeviceId, int>)
    requires StrictlyLater(rows) && NonNegative(rows, w)
    ensures var l := Replay(rows, w, segs, now, lastUsed);
            Sum(l.accum) + l.unattr == ObservedUse(rows, w)
  {
    if |rows| <= 1 {
    } else {
      var n := |rows| - 1;
      var prev, cur := rows[n - 1], rows[n];
      assert forall i :: 0 <= i < n ==> rows[..n][i] == rows[i];
      ReplayConserves(rows[..n], w, segs, now, lastUsed);
      ObserveConserves(Replay(rows[..n], w, segs, now, lastUsed), Util(w, prev), Util(w, cur),
                       prev.ts, cur.ts, segs, now);
      ObservedUseStep(rows, w);
      ReplayStep(rows, w, segs, now, lastUsed);
    }
  }

  // -------------------------------------------------------------- last usage

  /** A last-used instant inside one of the device's own segments. */
  ghost predicate Grounded(segs: seq<LeaseEvent>, now: int, device: DeviceId, at: int) {
    exists k :: 0 <= k < |segs| && segs[k].device == device && segs[k].startedAt < at <= EndOf(segs[k], now)
  }

  ghost predicate AllGrounded(segs: seq<LeaseEvent>, now: int, lastUsed: map<DeviceId, int>) {
    forall d :: d in lastUsed ==> Grounded(segs, now, d, lastUsed[d])
  }

  /** `later` remembers every device of `earlier`, at an instant no earlier. */
  ghost predicate NoEarlier(earlier: map<DeviceId, int>, later: map<DeviceId, int>) {
    forall d :: d in earlier ==> d in later && earlier[d] <= later[d]
  }

  lemma {:induction false} OverlapsAreGrounded(segs: seq<LeaseEvent>, from: int, to: int, now: int, k: nat)
    requires k < |Overlaps(segs, from, to, now)|
    ensures var o := Overlaps(segs, from, to, now)[k];
            Grounded(segs, now, o.device, o.endTs) && o.endTs > from
  {
    var n := |segs| - 1;
    var o := Overlaps(segs, from, to, now)[k];
    if k < |Overlaps(segs[..n], from, to, now)| {
      OverlapsAreGrounded(segs[..n], from, to, now, k);
      var j :| 0 <= j < n && segs[..n][j].device == o.device &&
               segs[..n][j].startedAt < o.endTs <= EndOf(segs[..n][j], now);
      assert segs[j] == segs[..n][j];
    } else {
      assert o == OverlapOf(segs[n], from, to, now);
      assert segs[n].startedAt < o.endTs <= EndOf(segs[n], now);
    }
  }

  lemma {:induction false} SpreadRemembers(l: Ledger, amount: real, total: int, ovs: seq<Overlap>,
                                           segs: seq<LeaseEvent>, now: int)
    requires total > 0
    requires forall k :: 0 <= k < |ovs| ==> ovs[k].endTs > 0 && Grounded(segs, now, ovs[k].device, ovs[k].endTs)
    ensures var s := Spread(l, amount, total, ovs);
            NoEarlier(l.lastUsed, s.lastUsed) &&
            (AllGrounded(segs, now, l.lastUsed) ==> AllGrounded(segs, now, s.lastUsed)) &&
            (forall d :: d in s.accum ==> d in l.accum || d in s.lastUsed)
  {
    if ovs == [] {
    } else {
      SpreadRemembers(l, amount, total, ovs[..|ovs| - 1], segs, now);
    }
  }

  lemma DistributedRemembers(l: Ledger, amount: real, from: int, to: int, segs: seq<LeaseEvent>, now: int)
    requires from >= 0
    ensures var d := Distributed(l, amount, from, to, segs, now);
            NoEarlier(l.lastUsed, d.lastUsed) &&
            (AllGrounded(segs, now, l.lastUsed) ==> AllGrounded(segs, now, d.lastUsed)) &&
            (forall k :: k in d.accum ==> k in l.accum || k in d.lastUsed)
  {
    PositiveOverlaps(segs, from, to, now);
    var ovs := Overlaps(segs, from, to, now);
    if from < to && Total(ovs) != 0 {
      forall k | 0 <= k < |ovs|
        ensures ovs[k].endTs > 0 && Grounded(segs, now, ovs[k].device, ovs[k].endTs)
      {
        OverlapsAreGrounded(segs, from, to, now, k);
      }
      SpreadRemembers(l, amount, Total(ovs), ovs, segs, now);
    }
  }

  lemma NoEarlierTransitive(a: map<DeviceId, int>, b: map<DeviceId, int>, c: map<DeviceId, int>)
    requires NoEarlier(a, b) && NoEarlier(b, c)
    ensures NoEarlier(a, c)
  {
  }

  ghost predicate Remembered(l: Ledger, segs: seq<LeaseEvent>, now: int) {
    AllGrounded(segs, now, l.lastUsed) && forall d :: d in l.accum ==> d in l.lastUsed
  }

  lemma ObserveRemembers(l: Ledger, u: real, v: real, from: int, to: int, segs: seq<LeaseEvent>, now: int)
    requires from >= 0 && Remembered(l, segs, now)
    ensures Remembered(Observe(l, u, v, from, to, segs, now), segs, now)
    ensures NoEarlier(l.lastUsed, Observe(l, u, v, from, to, segs, now).lastUsed)
  {
    var base := if v < u then l.(accum := map[], unattr := 0.0) else l;
    DistributedRemembers(base, Consumption(u, v), from, to, segs, now);
  }

  /** Every credited device has a last-used instant, inside one of its own
      segments, and from any earlier point of the replay (rollovers included)
      last-used instants never go back or get lost. */
  lemma {:induction false} LastUsedIsGroundedAndMonotone(rows: seq<Row>, w: Window, segs: seq<LeaseEvent>, now: int,
                                                         lastUsed: map<DeviceId, int>, moment: nat)
    requires moment <= |rows| && AllGrounded(segs, now, lastUsed)
    requires forall i :: 0 <= i < |rows| ==> rows[i].ts >= 0
    ensures Remembered(Replay(rows, w, segs, now, lastUsed), segs, now)
    ensures NoEarlier(Replay(rows[..moment], w, segs, now, lastUsed).lastUsed,
                      Replay(rows, w, segs, now, lastUsed).lastUsed)
    ensures NoEarlier(lastUsed, Replay(rows, w, segs, now, lastUsed).lastUsed)
    decreases |rows|
  {
    if |rows| <= 1 {
    } else {
      var n := |rows| - 1;
      var prev, cur := rows[n - 1], rows[n];
      var early := Min(moment, n);
      LastUsedIsGroundedAndMonotone(rows[..n], w, segs, now, lastUsed, early);
      assert rows[..n][..early] == rows[..early] && rows[..|rows|] == rows;
      var before := Replay(rows[..n], w, segs, now, lastUsed);
      ObserveRemembers(before, Util(w, prev), Util(w, cur), prev.ts, cur.ts, segs, now);
      ReplayStep(rows, w, segs, now, lastUsed);
      var l := Replay(rows, w, segs, now, lastUsed);
      NoEarlierTransitive(Replay(rows[..early], w, segs, now, lastUsed).lastUsed, before.lastUsed, l.lastUsed);
      NoEarlierTransitive(lastUsed, before.lastUsed, l.lastUsed);
    }
  }

  // ------------------------------------------------- segments of real histories

  predicate HeldAt(s: LeaseEvent, t: int, now: int) { s.startedAt <= t < EndOf(s, now) }

  /** An interval's points go unattributed exactly when nobody held the account at
      any instant of it. */
  lemma {:induction false} UnattributedExactlyWhenUnheld(segs: seq<LeaseEvent>, from: int, to: int, now: int)
    requires from < to
    ensures Total(Overlaps(segs, from, to, now)) == 0 <==>
            forall k, t :: 0 <= k < |segs| && from <= t < to ==> !HeldAt(segs[k], t, now)
  {
    if segs != [] {
      var n := |segs| - 1;
      UnattributedExactlyWhenUnheld(segs[..n], from, to, now);
      PositiveOverlaps(segs[..n], from, to, now);
      OverlapsStep(segs, from, to, now);
      HeldExactlyWhenOverlapping(segs[n], from, to, now);
      assert forall k :: 0 <= k < n ==> segs[..n][k] == segs[k];
      if Total(Overlaps(segs[..n], from, to, now)) != 0 {
        var k, t :| 0 <= k < n && from <= t < to && HeldAt(segs[..n][k], t, now);
        assert HeldAt(segs[k], t, now);
      }
    }
  }

  lemma HeldExactlyWhenOverlapping(s: LeaseEvent, from: int, to: int, now: int)
    requires from < to
    ensures OverlapOf(s, from, to, now).dur > 0 <==> exists t :: from <= t < to && HeldAt(s, t, now)
  {
    if OverlapOf(s, from, to, now).dur > 0 {
      assert HeldAt(s, Max(from, s.startedAt), now);
    }
  }

  /** Segments of one account, in the order the table recorded them. */
  ghost predicate InOrder(segs: seq<LeaseEvent>, now: int) {
    && (forall k :: 0 <= k < |segs| ==> segs[k].startedAt <= EndOf(segs[k], now))
    && (forall i, j :: 0 <= i < j < |segs| ==> EndOf(segs[i], now) <= segs[j].startedAt)
  }

  /** Disjoint segments cannot be held for longer than the interval lasts. */
  lemma {:induction false} OverlapsFitTheInterval(segs: seq<LeaseEvent>, from: int, to: int, now: int)
    requires InOrder(segs, now) && from <= to
    ensures Total(Overlaps(segs, from, to, now)) <= to - from
    ensures segs != [] ==> Total(Overlaps(segs, from, to, now)) <= Max(0, Min(to, EndOf(segs[|segs| - 1], now)) - from)
  {
    if segs == [] {
    } else {
      var n := |segs| - 1;
      OverlapsFitTheInterval(segs[..n], from, to, now);
      OverlapsStep(segs, from, to, now);
    }
  }
}
