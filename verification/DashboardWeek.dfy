/** The 7-day chart as it is computed: one pass over the rows with advancing
    indices, and levels updated hour by hour. */
module DashboardWeek {
  import opened Options
  import opened WeekChart
  import opened WeekForecast

  datatype Point = Point(ts: int, forecast: bool, actualPct: real, sameWeekPct: real, idlePct: real)
  datatype Week = Week(capacity: real, nowTs: int, points: seq<Point>)

  method PoolPct(pool: seq<Member>, capacity: real, level: Levels) returns (pct: real)
    requires capacity == Capacity(pool)
    ensures pct == Pct(pool, level)
  {
    if capacity == 0.0 {
      return 0.0;
    }
    var used := 0.0;
    for i := 0 to |pool|
      invariant used == UsedBy(pool[..i], level)
    {
      assert pool[..i + 1][..i] == pool[..i];
      var u := At(level, pool[i].id);
      if u >= pool[i].th {
        u := 100.0;
      }
      used := used + ProEquivalents(u, pool[i].w);
    }
    assert pool[..|pool|] == pool;
    pct := used / capacity * 100.0;
  }

  lemma CapacityGrows(pool: seq<Member>, m: Member)
    ensures Capacity(pool + [m]) == Capacity(pool) + m.w
  {
    assert (pool + [m])[..|pool|] == pool;
  }

  lemma PoolGrows(accs: seq<Account>, now: int, i: nat)
    requires i < |accs|
    ensures Pool(accs[..i + 1], now) ==
            Pool(accs[..i], now) + if accs[i].weight == 0.0 then [] else [Joined(accs[i], now)]
    ensures accs[i].weight != 0.0 ==>
              Capacity(Pool(accs[..i + 1], now)) == Capacity(Pool(accs[..i], now)) + accs[i].weight
  {
    hide Joined, Capacity;
    assert accs[..i + 1][..i] == accs[..i];
    if accs[i].weight != 0.0 {
      JoinedWeight(accs[i], now);
      CapacityGrows(Pool(accs[..i], now), Joined(accs[i], now));
    }
  }

  lemma JoinedWeight(a: Account, now: int)
    ensures Joined(a, now).w == a.weight && Joined(a, now).id == a.id
  {
  }

  method BuildPool(accs: seq<Account>, now: int) returns (pool: seq<Member>, capacity: real)
    ensures pool == Pool(accs, now) && capacity == Capacity(pool)
  {
    pool, capacity := [], 0.0;
    for i := 0 to |accs|
      invariant pool == Pool(accs[..i], now) && capacity == Capacity(pool)
    {
      PoolGrows(accs, now, i);
      var a := accs[i];
      if a.weight != 0.0 {
        var th, resetsAt, level := a.threshold, 0, a.util;
        if th <= 0.0 {
          th := 100.0;
        }
        if a.resetsAt.Some? {
          if a.resetsAt.value > now {
            resetsAt := a.resetsAt.value;
          } else {
            level := 0.0;
          }
        }
        pool, capacity := pool + [Member(a.id, a.weight, th, a.active, resetsAt, level)], capacity + a.weight;
      }
    }
    assert accs[..|accs|] == accs;
  }

  // -------------------------------------------------------------------- history

  /** The scan's table agrees with `Scanned` for every pool member. */
  ghost predicate TableAfter(pool: seq<Member>, rows: seq<Row>, n: nat, latest: Levels)
    requires n <= |rows|
  {
    forall i :: 0 <= i < |pool| ==> At(latest, pool[i].id) == Scanned(rows, n, pool[i])
  }

  method SeedLatest(pool: seq<Member>, rows: seq<Row>) returns (latest: Levels)
    requires DistinctIds(pool)
    ensures TableAfter(pool, rows, 0, latest)
  {
    latest := map[];
    for i := 0 to |pool|
      invariant forall j :: 0 <= j < i ==> At(latest, pool[j].id) == pool[j].level
    {
      latest := latest[pool[i].id := pool[i].level];
    }
    var seen: set<AccountId> := {};
    for n := 0 to |rows|
      invariant forall id :: id in seen <==> FirstSample(rows[..n], id).Some?
      invariant forall i :: 0 <= i < |pool| ==>
        At(latest, pool[i].id) == match FirstSample(rows[..n], pool[i].id) case Some(u) => u case None => pool[i].level
    {
      assert rows[..n + 1][..n] == rows[..n];
      if rows[n].account !in seen {
        seen := seen + {rows[n].account};
        latest := latest[rows[n].account := rows[n].util];
      }
    }
    assert rows[..|rows|] == rows;
  }

  lemma ScanStep(pool: seq<Member>, rows: seq<Row>, n: nat, latest: Levels)
    requires n < |rows| && TableAfter(pool, rows, n, latest)
    ensures TableAfter(pool, rows, n + 1, latest[rows[n].account := rows[n].util])
  {
    assert rows[..n + 1][..n] == rows[..n];
  }

  lemma TableIsValue(pool: seq<Member>, rows: seq<Row>, n: nat, latest: Levels, at: int)
    requires n <= |rows| && TableAfter(pool, rows, n, latest) && DistinctIds(pool)
    requires forall j :: 0 <= j < n ==> rows[j].ts <= at
    requires forall j :: n <= j < |rows| ==> rows[j].ts > at
    ensures Pct(pool, latest) == Pct(pool, LevelsAt(pool, rows, at))
  {
    forall i | 0 <= i < |pool|
      ensures At(latest, pool[i].id) == At(LevelsAt(pool, rows, at), pool[i].id)
    {
      ScanIsValueAt(rows, n, pool[i], at);
      LevelsAtIsValueAt(pool, rows, at, i);
    }
    SameLevelsSamePct(pool, latest, LevelsAt(pool, rows, at));
  }

  /** History point `i` of 168: the pool at its instant by the simple definition. */
  ghost predicate IsHistory(pool: seq<Member>, rows: seq<Row>, now: int, i: nat, p: Point) {
    p == Point(now - (HOURS - i) * HOUR, false, Pct(pool, LevelsAt(pool, rows, now - (HOURS - i) * HOUR)), 0.0, 0.0)
  }

  method HistoryPoints(pool: seq<Member>, capacity: real, rows: seq<Row>, now: int) returns (points: seq<Point>)
    requires DistinctIds(pool) && Ascending(rows) && capacity == Capacity(pool)
    ensures |points| == HOURS + 1 && forall i :: 0 <= i <= HOURS ==> IsHistory(pool, rows, now, i, points[i])
  {
    var latest := SeedLatest(pool, rows);
    points := [];
    var rowIdx := 0;
    var i := HOURS;
    while i >= 0
      invariant -1 <= i <= HOURS && |points| == HOURS - i && rowIdx <= |rows|
      invariant forall j :: 0 <= j < |points| ==> IsHistory(pool, rows, now, j, points[j])
      invariant TableAfter(pool, rows, rowIdx, latest)
      invariant forall j :: 0 <= j < rowIdx ==> rows[j].ts <= now - i * HOUR
    {
      var at := now - i * HOUR;
      while rowIdx < |rows| && rows[rowIdx].ts <= at
        invariant rowIdx <= |rows| && TableAfter(pool, rows, rowIdx, latest)
        invariant forall j :: 0 <= j < rowIdx ==> rows[j].ts <= at
      {
        ScanStep(pool, rows, rowIdx, latest);
        latest := latest[rows[rowIdx].account := rows[rowIdx].util];
        rowIdx := rowIdx + 1;
      }
      TableIsValue(pool, rows, rowIdx, latest, at);
      var pct := PoolPct(pool, capacity, latest);
      points := points + [Point(at, false, pct, 0.0, 0.0)];
      i := i - 1;
    }
  }

  // --------------------------------------------------------------- recorded use

  /** The running table of previous samples, for the pool's accounts. */
  ghost predicate PreviousOf(pool: seq<Member>, rows: seq<Row>, prev: Levels) {
    forall id :: MemberOf(pool, id).Some? ==> LastSample(rows, id) == if id in prev then Some(prev[id]) else None
  }

  lemma UsesGrow(pool: seq<Member>, rows: seq<Row>, n: nat, prev: Levels)
    requires n < |rows| && PreviousOf(pool, rows[..n], prev)
    ensures UsesOf(pool, rows[..n + 1]) ==
            UsesOf(pool, rows[..n]) +
            UseFrom(MemberOf(pool, rows[n].account), LastSample(rows[..n], rows[n].account), rows[n])
    ensures PreviousOf(pool, rows[..n + 1], prev[rows[n].account := rows[n].util])
    ensures MemberOf(pool, rows[n].account).None? ==> PreviousOf(pool, rows[..n + 1], prev)
  {
    assert rows[..n + 1][..n] == rows[..n];
  }

  method ExtractUses(pool: seq<Member>, rows: seq<Row>) returns (uses: seq<Use>)
    ensures uses == UsesOf(pool, rows)
  {
    uses := [];
    var prev: Levels := map[];
    for n := 0 to |rows|
      invariant uses == UsesOf(pool, rows[..n])
      invariant PreviousOf(pool, rows[..n], prev)
    {
      UsesGrow(pool, rows, n, prev);
      var r := rows[n];
      var member := MemberOf(pool, r.account);
      ghost var before, added := uses, UseFrom(member, LastSample(rows[..n], r.account), r);
      if member.Some? {
        if r.account in prev {
          var d := r.util - prev[r.account];
          if d < 0.0 {
            d := r.util;
          }
          if d > 0.0 {
            uses := uses + [Use(r.ts, ProEquivalents(d, member.value.w))];
          }
        }
        prev := prev[r.account := r.util];
      }
      assert uses == before + added;
    }
    assert rows[..|rows|] == rows;
  }

  lemma {:induction false} NoEarlierDemand(uses: seq<Use>, n: nat, lo: int, hi: int)
    requires n <= |uses| && forall j :: 0 <= j < n ==> uses[j].ts <= lo
    ensures Demand(uses[..n], lo, hi) == 0.0
  {
    if n == 0 {
    } else {
      assert uses[..n][..n - 1] == uses[..n - 1];
      NoEarlierDemand(uses, n - 1, lo, hi);
    }
  }

  lemma {:induction false} NoLaterDemand(uses: seq<Use>, n: nat, m: nat, lo: int, hi: int)
    requires n <= m <= |uses| && forall j :: n <= j < m ==> uses[j].ts > hi
    ensures Demand(uses[..m], lo, hi) == Demand(uses[..n], lo, hi)
  {
    if n == m {
    } else {
      assert uses[..m][..m - 1] == uses[..m - 1];
      NoLaterDemand(uses, n, m - 1, lo, hi);
    }
  }

  /** The advancing index finds exactly the hour's demand. */
  method TakeHour(uses: seq<Use>, from: nat, lo: int, hi: int) returns (pe: real, useIdx: nat)
    requires UsesAscending(uses) && from <= |uses| && lo <= hi
    requires forall j :: 0 <= j < from ==> uses[j].ts <= lo
    ensures from <= useIdx <= |uses| && pe == Demand(uses, lo, hi)
    ensures forall j :: 0 <= j < useIdx ==> uses[j].ts <= hi
  {
    pe, useIdx := 0.0, from;
    NoEarlierDemand(uses, from, lo, hi);
    while useIdx < |uses| && uses[useIdx].ts <= hi
      invariant from <= useIdx <= |uses| && pe == Demand(uses[..useIdx], lo, hi)
      invariant forall j :: 0 <= j < useIdx ==> uses[j].ts <= hi
    {
      assert uses[..useIdx + 1][..useIdx] == uses[..useIdx];
      if uses[useIdx].ts > lo {
        pe := pe + uses[useIdx].pe;
      }
      useIdx := useIdx + 1;
    }
    NoLaterDemand(uses, useIdx, |uses|, lo, hi);
    assert uses[..|uses|] == uses;
  }

  // ------------------------------------------------------------------- forecast

  method CollectOpen(pool: seq<Member>, level: Levels) returns (open: seq<Member>)
    ensures open == OpenMembers(pool, level)
  {
    open := [];
    for i := 0 to |pool|
      invariant open == OpenMembers(pool[..i], level)
    {
      assert pool[..i + 1][..i] == pool[..i];
      if pool[i].active && At(level, pool[i].id) < pool[i].th {
        open := open + [pool[i]];
      }
    }
    assert pool[..|pool|] == pool;
  }

  lemma {:induction false} SpentPourStays(level: Levels, order: seq<Member>, pe: real, n: nat, m: nat)
    requires n <= m <= |order| && Pour(level, order[..n], pe).left <= 0.0
    ensures Pour(level, order[..m], pe) == Pour(level, order[..n], pe)
  {
    if n == m {
    } else {
      assert order[..m][..m - 1] == order[..m - 1];
      SpentPourStays(level, order, pe, n, m - 1);
    }
  }

  lemma PourGrows(level: Levels, order: seq<Member>, pe: real, i: nat)
    requires i < |order|
    ensures Pour(level, order[..i + 1], pe) == PourOne(Pour(level, order[..i], pe), order[i])
  {
    assert order[..i + 1][..i] == order[..i];
  }

  method PourInOrder(before: Levels, order: seq<Member>, demand: real) returns (level: Levels)
    ensures level == Pour(before, order, demand).level
  {
    level := before;
    var pe, i := demand, 0;
    while i < |order| && pe > 0.0
      invariant 0 <= i <= |order| && Poured(level, pe) == Pour(before, order[..i], demand)
    {
      PourGrows(before, order, demand, i);
      var ac := order[i];
      var room := Room(ac, At(level, ac.id));
      if pe >= room {
        level, pe := level[ac.id := ac.th], pe - room;
      } else {
        level, pe := level[ac.id := At(level, ac.id) + pe / ac.w * 100.0], 0.0;
      }
      i := i + 1;
    }
    if i < |order| {
      SpentPourStays(before, order, demand, i, |order|);
    }
    assert order[..|order|] == order;
  }

  method ResetDueMembers(s: Hourly, pool: seq<Member>, at: int) returns (t: Hourly)
    ensures t == ResetDue(s, pool, at)
  {
    t := s;
    for i := 0 to |pool|
      invariant t == ResetDue(s, pool[..i], at)
    {
      assert pool[..i + 1][..i] == pool[..i];
      var ac := pool[i].id;
      var resetsAt := ResetAt(t.resetsAt, ac);
      if resetsAt != 0 && resetsAt <= at {
        t := Hourly(t.level[ac := 0.0], t.idle[ac := 0.0], t.resetsAt[ac := 0]);
      }
    }
    assert pool[..|pool|] == pool;
  }

  /** Forecast point of hour `k`: both projections of the hour-by-hour state. */
  ghost predicate IsForecast(pool: seq<Member>, uses: seq<Use>, now: int, k: nat, p: Point) {
    var s := Forecast(pool, uses, now, k);
    p == Point(now + k * HOUR, true, 0.0, Pct(pool, s.level), Pct(pool, s.idle))
  }

  /** One forecast hour: the resets due, then the pour of the replayed demand. */
  method RunHour(pool: seq<Member>, uses: seq<Use>, from: Hourly, start: nat, now: int, k: nat)
    returns (s: Hourly, useIdx: nat)
    requires UsesAscending(uses) && start <= |uses|
    requires forall j :: 0 <= j < start ==> uses[j].ts <= now - WEEK + (k - 1) * HOUR
    ensures s == HourStep(from, pool, uses, now, k) && useIdx <= |uses|
    ensures forall j :: 0 <= j < useIdx ==> uses[j].ts <= now - WEEK + k * HOUR
  {
    hide Pour, ResetDue, SortedByLevel, OpenMembers, Demand, UsesAscending;
    s := ResetDueMembers(from, pool, now + k * HOUR);
    var pe;
    pe, useIdx := TakeHour(uses, start, now - WEEK + (k - 1) * HOUR, now - WEEK + k * HOUR);
    if pe > 0.0 {
      var open := CollectOpen(pool, s.level);
      var level := PourInOrder(s.level, SortedByLevel(s.level, open), pe);
      s := s.(level := level);
    }
  }

  method ForecastPoints(pool: seq<Member>, capacity: real, uses: seq<Use>, start: Hourly, now: int)
    returns (points: seq<Point>)
    requires UsesAscending(uses) && capacity == Capacity(pool) && start == Start(pool)
    ensures |points| == HOURS && forall i :: 0 <= i < HOURS ==> IsForecast(pool, uses, now, i + 1, points[i])
  {
    hide HourStep, Start, Pct, UsesAscending;
    points := [];
    var s, k := start, 1;
    var useIdx: nat := 0;
    while k <= HOURS
      invariant 1 <= k <= HOURS + 1 && |points| == k - 1 && useIdx <= |uses|
      invariant s == Forecast(pool, uses, now, k - 1)
      invariant forall j :: 0 <= j < useIdx ==> uses[j].ts <= now - WEEK + (k - 1) * HOUR
      invariant forall i :: 0 <= i < |points| ==> IsForecast(pool, uses, now, i + 1, points[i])
    {
      s, useIdx := RunHour(pool, uses, s, useIdx, now, k);
      var same := PoolPct(pool, capacity, s.level);
      var idle := PoolPct(pool, capacity, s.idle);
      points := points + [Point(now + k * HOUR, true, 0.0, same, idle)];
      k := k + 1;
    }
  }

  // ------------------------------------------------------------------ the chart

  /** Which point stands at index `i`: 168 hours of history by the simple
      definition, today's levels, then 168 hours of forecast. */
  ghost predicate IsCharted(pool: seq<Member>, rows: seq<Row>, now: int, i: nat, p: Point) {
    if i < HOURS then IsHistory(pool, rows, now, i, p)
    else if i == HOURS then
      var today := Pct(pool, Start(pool).level);
      p == Point(now, false, today, today, today)
    else IsForecast(pool, UsesOf(pool, rows), now, i - HOURS, p)
  }

  method SevenDayWeek(accs: seq<Account>, rows: seq<Row>, now: int) returns (week: Week)
    requires Ascending(rows) && DistinctIds(Pool(accs, now))
    ensures week.capacity == Capacity(Pool(accs, now)) && week.nowTs == now && |week.points| == 2 * HOURS + 1
    ensures forall i :: 0 <= i <= 2 * HOURS ==> IsCharted(Pool(accs, now), rows, now, i, week.points[i])
  {
    var pool, capacity := BuildPool(accs, now);
    var history := HistoryPoints(pool, capacity, rows, now);
    var uses := ExtractUses(pool, rows);
    UsesAreAscending(pool, rows);
    var start := Start(pool);
    var today := PoolPct(pool, capacity, start.level);
    history := history[HOURS := Point(now, false, today, today, today)];
    var forecast := ForecastPoints(pool, capacity, uses, start, now);
    week := Week(capacity, now, history + forecast);
    forall i | 0 <= i <= 2 * HOURS
      ensures IsCharted(pool, rows, now, i, week.points[i])
    {
      if i > HOURS {
        assert week.points[i] == forecast[i - HOURS - 1];
      }
    }
  }

  /** The chart's points are an hour apart, the 169th is now, and those after it are the
      forecast; now stands at the members' own levels, whatever the history says. */
  lemma PointsAreHourly(pool: seq<Member>, rows: seq<Row>, now: int, i: nat, p: Point)
    requires IsCharted(pool, rows, now, i, p)
    ensures p.ts == now + (i - HOURS) * HOUR && (p.forecast <==> i > HOURS)
  {
  }

  lemma NowStandsAtLevels(pool: seq<Member>, rows: seq<Row>, now: int, p: Point, m: Levels)
    requires DistinctIds(pool) && IsCharted(pool, rows, now, HOURS, p)
    requires forall i :: 0 <= i < |pool| ==> At(m, pool[i].id) == pool[i].level
    ensures p.actualPct == p.sameWeekPct == p.idlePct == Pct(pool, m)
  {
    forall i | 0 <= i < |pool|
      ensures At(Start(pool).level, pool[i].id) == At(m, pool[i].id)
    {
      StartHolds(pool, i);
    }
    SameLevelsSamePct(pool, Start(pool).level, m);
  }

  /** What the store holds: utilizations and thresholds are percentages. */
  ghost predicate Stored(accs: seq<Account>, rows: seq<Row>) {
    && (forall i :: 0 <= i < |accs| ==>
          accs[i].weight >= 0.0 && accs[i].threshold <= 100.0 && 0.0 <= accs[i].util <= 100.0)
    && (forall i, j :: 0 <= i < j < |accs| ==> accs[i].id != accs[j].id)
    && (forall i :: 0 <= i < |rows| ==> 0.0 <= rows[i].util <= 100.0)
  }

  lemma {:induction false} PoolIsProper(accs: seq<Account>, now: int)
    requires Stored(accs, [])
    ensures Proper(Pool(accs, now))
    ensures forall m :: m in Pool(accs, now) ==> exists i :: 0 <= i < |accs| && accs[i].id == m.id
  {
    if accs == [] {
    } else {
      var n := |accs| - 1;
      assert forall i :: 0 <= i < n ==> accs[..n][i] == accs[i];
      PoolIsProper(accs[..n], now);
      var pool, init := Pool(accs, now), Pool(accs[..n], now);
      forall m | m in init
        ensures m.id != accs[n].id && exists i :: 0 <= i < |accs| && accs[i].id == m.id
      {
        var i :| 0 <= i < n && accs[..n][i].id == m.id;
        assert accs[i].id == m.id;
      }
      assert forall i :: 0 <= i < |init| ==> pool[i] == init[i] && init[i] in init;
      assert Joined(accs[n], now).id == accs[n].id;
    }
  }

  lemma PastIsInRange(pool: seq<Member>, rows: seq<Row>, at: int)
    requires Proper(pool) && Stored([], rows)
    ensures InRange(pool, LevelsAt(pool, rows, at))
  {
    forall i | 0 <= i < |pool|
      ensures 0.0 <= At(LevelsAt(pool, rows, at), pool[i].id) <= 100.0
    {
      LevelsAtIsValueAt(pool, rows, at, i);
      assert ProperMember(pool[i]);
    }
  }

  /** Whatever the store holds, every charted percentage is one, and the idle
      projection never exceeds the same-week projection. */
  lemma ChartIsBounded(accs: seq<Account>, rows: seq<Row>, now: int, i: nat, p: Point)
    requires Stored(accs, rows) && IsCharted(Pool(accs, now), rows, now, i, p)
    ensures 0.0 <= p.actualPct <= 100.0 && 0.0 <= p.idlePct <= p.sameWeekPct <= 100.0
  {
    var pool := Pool(accs, now);
    PoolIsProper(accs, now);
    if i < HOURS {
      var at := now - (HOURS - i) * HOUR;
      PastIsInRange(pool, rows, at);
      PctIsMonotone(pool, LevelsAt(pool, rows, at), LevelsAt(pool, rows, at));
    } else {
      ProjectionsAreOrdered(pool, UsesOf(pool, rows), now, i - HOURS);
    }
  }
}
