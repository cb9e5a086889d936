/** The 7-day chart: what its history and forecast points mean. */
module WeekChart {
  import opened Options

  type AccountId = int

  /** An account as read from the store; weight 0 means outside the pool. */
  datatype Account = Account(id: AccountId, weight: real, threshold: real, active: bool,
                             util: real, resetsAt: Option<int>)

  /** A pool member; resetsAt == 0 means no reset within the horizon. */
  datatype Member = Member(id: AccountId, w: real, th: real, active: bool, resetsAt: int, level: real)

  datatype Row = Row(account: AccountId, ts: int, util: real)
  datatype Use = Use(ts: int, pe: real)

  const HOUR := 3600000
  const HOURS := 168
  const WEEK := HOURS * HOUR

  function Joined(a: Account, now: int): Member {
    var th := if a.threshold <= 0.0 then 100.0 else a.threshold;
    match a.resetsAt
    case Some(ms) => if ms > now then Member(a.id, a.weight, th, a.active, ms, a.util)
                     else Member(a.id, a.weight, th, a.active, 0, 0.0)
    case None => Member(a.id, a.weight, th, a.active, 0, a.util)
  }

  function Pool(accs: seq<Account>, now: int): seq<Member> {
    if accs == [] then []
    else
      var a := accs[|accs| - 1];
      Pool(accs[..|accs| - 1], now) + if a.weight == 0.0 then [] else [Joined(a, now)]
  }

  // ---------------------------------------------------------------- percentages

  type Levels = map<AccountId, real>

  function At(m: Levels, id: AccountId): real { if id in m then m[id] else 0.0 }

  /** A percentage of one account, in Pro-equivalents. */
  function ProEquivalents(percent: real, w: real): real { percent / 100.0 * w }

  /** An account at or above its threshold counts as full. */
  function Used(a: Member, u: real): real { ProEquivalents(if u >= a.th then 100.0 else u, a.w) }

  function Capacity(pool: seq<Member>): real {
    if pool == [] then 0.0 else Capacity(pool[..|pool| - 1]) + pool[|pool| - 1].w
  }

  function UsedBy(pool: seq<Member>, m: Levels): real {
    if pool == [] then 0.0
    else UsedBy(pool[..|pool| - 1], m) + Used(pool[|pool| - 1], At(m, pool[|pool| - 1].id))
  }

  function Pct(pool: seq<Member>, m: Levels): real {
    if Capacity(pool) == 0.0 then 0.0 else UsedBy(pool, m) / Capacity(pool) * 100.0
  }

  /** Positive weights, thresholds in (0, 100], levels in [0, 100], distinct ids. */
  ghost predicate ProperMember(a: Member) {
    a.w > 0.0 && 0.0 < a.th <= 100.0 && 0.0 <= a.level <= 100.0
  }

  ghost predicate Proper(pool: seq<Member>) {
    && (forall i :: 0 <= i < |pool| ==> ProperMember(pool[i]))
    && (forall i, j :: 0 <= i < j < |pool| ==> pool[i].id != pool[j].id)
  }

  ghost predicate Below(pool: seq<Member>, m: Levels, n: Levels) {
    forall i :: 0 <= i < |pool| ==> At(m, pool[i].id) <= At(n, pool[i].id)
  }

  ghost predicate InRange(pool: seq<Member>, m: Levels) {
    forall i :: 0 <= i < |pool| ==> 0.0 <= At(m, pool[i].id) <= 100.0
  }

  lemma ProEquivalentsInOrder(x: real, y: real, w: real)
    requires 0.0 <= x <= y <= 100.0 && w >= 0.0
    ensures 0.0 <= ProEquivalents(x, w) <= ProEquivalents(y, w) <= w
  {
    var p, q := x / 100.0, y / 100.0;
    assert 0.0 <= p <= q <= 1.0;
    ScaledInOrder(p, q, w);
  }

  lemma ScaledInOrder(p: real, q: real, w: real)
    requires 0.0 <= p <= q <= 1.0 && w >= 0.0
    ensures 0.0 <= p * w <= q * w <= w
  {
    assert (q - p) * w >= 0.0 && p * w >= 0.0 && (1.0 - q) * w >= 0.0;
    assert (q - p) * w == q * w - p * w && (1.0 - q) * w == w - q * w;
  }

  lemma UsedIsMonotone(a: Member, u: real, v: real)
    requires a.w >= 0.0 && 0.0 <= u <= v <= 100.0
    ensures 0.0 <= Used(a, u) <= Used(a, v) <= a.w
  {
    hide ProEquivalents;
    ProEquivalentsInOrder(if u >= a.th then 100.0 else u, if v >= a.th then 100.0 else v, a.w);
  }

  lemma {:induction false} UsedByIsMonotone(pool: seq<Member>, m: Levels, n: Levels)
    requires Proper(pool) && Below(pool, m, n) && InRange(pool, m) && InRange(pool, n)
    ensures 0.0 <= UsedBy(pool, m) <= UsedBy(pool, n) <= Capacity(pool)
    ensures pool != [] ==> Capacity(pool) > 0.0
  {
    if pool == [] {
    } else {
      var init, a := pool[..|pool| - 1], pool[|pool| - 1];
      assert forall i :: 0 <= i < |init| ==> init[i] == pool[i];
      UsedByIsMonotone(init, m, n);
      UsedIsMonotone(a, At(m, a.id), At(n, a.id));
    }
  }

  lemma RatioInOrder(x: real, y: real, c: real)
    requires 0.0 <= x <= y <= c && c > 0.0
    ensures 0.0 <= x / c * 100.0 <= y / c * 100.0 <= 100.0
  {
    assert 0.0 <= x / c && x / c <= y / c && y / c <= 1.0;
  }

  /** Higher levels never chart lower, and every percentage lies in [0, 100]. */
  lemma PctIsMonotone(pool: seq<Member>, m: Levels, n: Levels)
    requires Proper(pool) && Below(pool, m, n) && InRange(pool, m) && InRange(pool, n)
    ensures 0.0 <= Pct(pool, m) <= Pct(pool, n) <= 100.0
  {
    UsedByIsMonotone(pool, m, n);
    if pool != [] {
      RatioInOrder(UsedBy(pool, m), UsedBy(pool, n), Capacity(pool));
    }
  }

  /** A percentage depends only on the levels of pool members. */
  lemma {:induction false} SameLevelsSamePct(pool: seq<Member>, m: Levels, n: Levels)
    requires forall i :: 0 <= i < |pool| ==> At(m, pool[i].id) == At(n, pool[i].id)
    ensures UsedBy(pool, m) == UsedBy(pool, n) && Pct(pool, m) == Pct(pool, n)
  {
    if pool == [] {
    } else {
      var init := pool[..|pool| - 1];
      assert forall i :: 0 <= i < |init| ==> init[i] == pool[i];
      SameLevelsSamePct(init, m, n);
    }
  }

  // -------------------------------------------------------------------- history

  ghost predicate Ascending(rows: seq<Row>) {
    forall i, j :: 0 <= i < j < |rows| ==> rows[i].ts <= rows[j].ts
  }

  function LastSample(rows: seq<Row>, id: AccountId): Option<real> {
    if rows == [] then None
    else if rows[|rows| - 1].account == id then Some(rows[|rows| - 1].util)
    else LastSample(rows[..|rows| - 1], id)
  }

  function FirstSample(rows: seq<Row>, id: AccountId): Option<real> {
    if rows == [] then None
    else
      var earlier := FirstSample(rows[..|rows| - 1], id);
      if earlier.Some? then earlier
      else if rows[|rows| - 1].account == id then Some(rows[|rows| - 1].util) else None
  }

  predicate IsLastAt(rows: seq<Row>, id: AccountId, at: int, k: int) {
    0 <= k < |rows| && rows[k].account == id && rows[k].ts <= at &&
    forall j :: k < j < |rows| && rows[j].account == id ==> rows[j].ts > at
  }

  predicate IsFirst(rows: seq<Row>, id: AccountId, k: int) {
    0 <= k < |rows| && rows[k].account == id && forall j :: 0 <= j < k ==> rows[j].account != id
  }

  /** The simple definition of an account's value at an instant: its last sample at
      or before it, else its earliest sample, else its current level. */
  ghost function ValueAt(rows: seq<Row>, a: Member, at: int): real {
    if k :| IsLastAt(rows, a.id, at, k) then rows[k].util
    else if k :| IsFirst(rows, a.id, k) then rows[k].util
    else a.level
  }

  ghost function LevelsAt(pool: seq<Member>, rows: seq<Row>, at: int): Levels {
    if pool == [] then map[]
    else
      var a := pool[|pool| - 1];
      LevelsAt(pool[..|pool| - 1], rows, at)[a.id := ValueAt(rows, a, at)]
  }

  /** What the scan keeps per account after its first `n` rows. */
  function Scanned(rows: seq<Row>, n: nat, a: Member): real
    requires n <= |rows|
  {
    match LastSample(rows[..n], a.id)
    case Some(u) => u
    case None => match FirstSample(rows, a.id) case Some(u) => u case None => a.level
  }

  predicate IsLastBefore(rows: seq<Row>, n: nat, id: AccountId, k: int)
    requires n <= |rows|
  {
    0 <= k < n && rows[k].account == id && forall j :: k < j < n ==> rows[j].account != id
  }

  lemma {:induction false} LastSampleIndex(rows: seq<Row>, n: nat, id: AccountId)
    requires n <= |rows|
    ensures LastSample(rows[..n], id).Some? ==>
              exists k :: IsLastBefore(rows, n, id, k) && LastSample(rows[..n], id) == Some(rows[k].util)
    ensures LastSample(rows[..n], id).None? ==> forall j :: 0 <= j < n ==> rows[j].account != id
  {
    if n == 0 {
    } else {
      assert rows[..n][..n - 1] == rows[..n - 1];
      LastSampleIndex(rows, n - 1, id);
      if rows[n - 1].account == id {
        assert IsLastBefore(rows, n, id, n - 1);
      } else if k :| IsLastBefore(rows, n - 1, id, k) && LastSample(rows[..n - 1], id) == Some(rows[k].util) {
        assert IsLastBefore(rows, n, id, k);
      }
    }
  }

  lemma {:induction false} FirstSampleIndex(rows: seq<Row>, id: AccountId)
    ensures FirstSample(rows, id).Some? ==>
              exists k :: IsFirst(rows, id, k) && FirstSample(rows, id) == Some(rows[k].util)
    ensures FirstSample(rows, id).None? ==> forall j :: 0 <= j < |rows| ==> rows[j].account != id
  {
    if rows == [] {
    } else {
      var n := |rows| - 1;
      FirstSampleIndex(rows[..n], id);
      if FirstSample(rows[..n], id).Some? {
        var k :| IsFirst(rows[..n], id, k) && FirstSample(rows[..n], id) == Some(rows[..n][k].util);
        assert IsFirst(rows, id, k);
      } else if rows[n].account == id {
        assert IsFirst(rows, id, n) by {
          assert forall j :: 0 <= j < n ==> rows[..n][j] == rows[j];
        }
      } else {
        assert forall j :: 0 <= j < n ==> rows[..n][j] == rows[j];
      }
    }
  }

  /** The incremental scan refines the simple definition: once it has passed exactly
      the rows at or before an instant, it holds every account's value there. */
  lemma ScanIsValueAt(rows: seq<Row>, n: nat, a: Member, at: int)
    requires n <= |rows|
    requires forall j :: 0 <= j < n ==> rows[j].ts <= at
    requires forall j :: n <= j < |rows| ==> rows[j].ts > at
    ensures Scanned(rows, n, a) == ValueAt(rows, a, at)
  {
    LastSampleIndex(rows, n, a.id);
    FirstSampleIndex(rows, a.id);
    if LastSample(rows[..n], a.id).Some? {
      var k :| IsLastBefore(rows, n, a.id, k) && LastSample(rows[..n], a.id) == Some(rows[k].util);
      assert IsLastAt(rows, a.id, at, k);
      forall j | IsLastAt(rows, a.id, at, j)
        ensures j == k
      {
      }
    } else {
      forall j
        ensures !IsLastAt(rows, a.id, at, j)
      {
      }
      forall i, j | IsFirst(rows, a.id, i) && IsFirst(rows, a.id, j)
        ensures i == j
      {
      }
    }
  }

  lemma {:induction false} LevelsAtIsValueAt(pool: seq<Member>, rows: seq<Row>, at: int, i: nat)
    requires i < |pool| && forall x, y :: 0 <= x < y < |pool| ==> pool[x].id != pool[y].id
    ensures At(LevelsAt(pool, rows, at), pool[i].id) == ValueAt(rows, pool[i], at)
  {
    if i == |pool| - 1 {
    } else {
      var init := pool[..|pool| - 1];
      assert forall x :: 0 <= x < |init| ==> init[x] == pool[x];
      LevelsAtIsValueAt(init, rows, at, i);
    }
  }

  // ------------------------------------------------------------------ recorded use

  function MemberOf(pool: seq<Member>, id: AccountId): Option<Member> {
    if pool == [] then None
    else if pool[|pool| - 1].id == id then Some(pool[|pool| - 1])
    else MemberOf(pool[..|pool| - 1], id)
  }

  /** What a sample adds to the account's previous one; a drop is a reset. */
  function Fresh(previous: real, util: real): real { if util < previous then util else util - previous }

  /** What one sample adds to the record, given the account's previous sample. */
  function UseFrom(member: Option<Member>, previous: Option<real>, r: Row): seq<Use> {
    if member.Some? && previous.Some? && Fresh(previous.value, r.util) > 0.0
    then [Use(r.ts, ProEquivalents(Fresh(previous.value, r.util), member.value.w))] else []
  }

  function UsesOf(pool: seq<Member>, rows: seq<Row>): seq<Use> {
    if rows == [] then []
    else
      var n := |rows| - 1;
      UsesOf(pool, rows[..n]) +
      UseFrom(MemberOf(pool, rows[n].account), LastSample(rows[..n], rows[n].account), rows[n])
  }

  ghost predicate UsesAscending(uses: seq<Use>) {
    forall i, j :: 0 <= i < j < |uses| ==> uses[i].ts <= uses[j].ts
  }

  lemma {:induction false} UsesAreAscending(pool: seq<Member>, rows: seq<Row>)
    requires Ascending(rows)
    ensures UsesAscending(UsesOf(pool, rows))
    ensures rows != [] ==> forall i :: 0 <= i < |UsesOf(pool, rows)| ==> UsesOf(pool, rows)[i].ts <= rows[|rows| - 1].ts
  {
    if rows == [] {
    } else {
      var n := |rows| - 1;
      UsesAreAscending(pool, rows[..n]);
      if n > 0 {
        assert rows[..n][n - 1] == rows[n - 1];
      }
    }
  }

  /** Consumption recorded after `lo`, up to and including `hi`. */
  function Demand(uses: seq<Use>, lo: int, hi: int): real {
    if uses == [] then 0.0
    else
      var u := uses[|uses| - 1];
      Demand(uses[..|uses| - 1], lo, hi) + if lo < u.ts <= hi then u.pe else 0.0
  }

  /** Last week's consumption in the hour that forecast hour `k` replays. */
  function HourDemand(uses: seq<Use>, now: int, k: int): real {
    Demand(uses, now - WEEK + (k - 1) * HOUR, now - WEEK + k * HOUR)
  }

  function DemandOfHours(uses: seq<Use>, now: int, k: nat): real {
    if k == 0 then 0.0 else DemandOfHours(uses, now, k - 1) + HourDemand(uses, now, k)
  }

  lemma {:induction false} DemandSplits(uses: seq<Use>, lo: int, mid: int, hi: int)
    requires lo <= mid <= hi
    ensures Demand(uses, lo, hi) == Demand(uses, lo, mid) + Demand(uses, mid, hi)
  {
    if uses != [] {
      DemandSplits(uses[..|uses| - 1], lo, mid, hi);
    }
  }

  lemma {:induction false} NoDemandInEmptySpan(uses: seq<Use>, at: int)
    ensures Demand(uses, at, at) == 0.0
  {
    if uses != [] {
      NoDemandInEmptySpan(uses[..|uses| - 1], at);
    }
  }

  lemma {:induction false} HoursAddUp(uses: seq<Use>, now: int, k: nat)
    ensures DemandOfHours(uses, now, k) == Demand(uses, now - WEEK, now - WEEK + k * HOUR)
  {
    if k == 0 {
      NoDemandInEmptySpan(uses, now - WEEK);
    } else {
      HoursAddUp(uses, now, k - 1);
      DemandSplits(uses, now - WEEK, now - WEEK + (k - 1) * HOUR, now - WEEK + k * HOUR);
    }
  }

  /** The 168 hourly demands together are exactly last week's recorded consumption. */
  lemma WeekIsReplayedOnce(uses: seq<Use>, now: int)
    ensures DemandOfHours(uses, now, HOURS) == Demand(uses, now - WEEK, now)
  {
    HoursAddUp(uses, now, HOURS);
  }

  predicate InHour(ts: int, now: int, k: int) {
    now - WEEK + (k - 1) * HOUR < ts <= now - WEEK + k * HOUR
  }

  /** A use is replayed in exactly one of the 168 hours when it was recorded within
      the last week, and in none otherwise. */
  lemma UseFallsInOneHour(ts: int, now: int)
    ensures now - WEEK < ts <= now <==> exists k :: 1 <= k <= HOURS && InHour(ts, now, k)
    ensures forall j, k :: InHour(ts, now, j) && InHour(ts, now, k) ==> j == k
  {
    if now - WEEK < ts <= now {
      var k := (ts - (now - WEEK) + HOUR - 1) / HOUR;
      assert InHour(ts, now, k);
    }
    forall j, k | InHour(ts, now, j) && InHour(ts, now, k)
      ensures j == k
    {
    }
  }
}
