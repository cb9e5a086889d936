/** What the chart's ingredients mean: the percentage of a pool, who is in the pool, and how
    much use the record holds. */
module WeekLaws {
  import opened Options
  import opened WeekChart
  import opened WeekForecast

  // ---------------------------------------------------------------- percentages

  /** What an account's level counts as: full from its threshold on. */
  function Counted(a: Member, u: real): real { if u >= a.th then 100.0 else u }

  ghost predicate AllFull(pool: seq<Member>, m: Levels) {
    forall i :: 0 <= i < |pool| ==> At(m, pool[i].id) >= pool[i].th
  }

  ghost predicate AllEmpty(pool: seq<Member>, m: Levels) {
    forall i :: 0 <= i < |pool| ==> At(m, pool[i].id) == 0.0
  }

  lemma PartBounds(part: real, w: real)
    requires 0.0 <= part <= 1.0 && w > 0.0
    ensures 0.0 <= part * w <= w
    ensures part * w == w <==> part == 1.0
    ensures part * w == 0.0 <==> part == 0.0
  {
    ScaledInOrder(0.0, part, w);
    if part < 1.0 {
      assert (1.0 - part) * w > 0.0;
      assert (1.0 - part) * w == w - part * w;
    }
    if part > 0.0 {
      assert part * w > 0.0;
    }
  }

  lemma UsedIs(a: Member, u: real)
    ensures Used(a, u) == Counted(a, u) / 100.0 * a.w
  {
  }

  lemma UsedBounds(a: Member, u: real)
    requires ProperMember(a) && 0.0 <= u <= 100.0
    ensures 0.0 <= Used(a, u) <= a.w
    ensures Used(a, u) == a.w <==> u >= a.th
    ensures Used(a, u) == 0.0 <==> u == 0.0
  {
    hide Used, Counted;
    UsedIs(a, u);
    PartIs(a, u);
    PartBounds(Counted(a, u) / 100.0, a.w);
  }

  lemma PartIs(a: Member, u: real)
    requires a.th <= 100.0 && 0.0 < a.th && 0.0 <= u <= 100.0
    ensures 0.0 <= Counted(a, u) / 100.0 <= 1.0
    ensures Counted(a, u) / 100.0 == 1.0 <==> u >= a.th
    ensures Counted(a, u) / 100.0 == 0.0 <==> u == 0.0
  {
  }

  lemma {:induction false} UsedByBounds(pool: seq<Member>, m: Levels)
    requires Proper(pool) && InRange(pool, m)
    ensures 0.0 <= UsedBy(pool, m) <= Capacity(pool) && (pool != [] ==> Capacity(pool) > 0.0)
    ensures UsedBy(pool, m) == Capacity(pool) <==> AllFull(pool, m)
    ensures UsedBy(pool, m) == 0.0 <==> AllEmpty(pool, m)
  {
    hide Used;
    if pool == [] {
    } else {
      var n := |pool| - 1;
      var init := pool[..n];
      assert forall i :: 0 <= i < n ==> init[i] == pool[i];
      UsedByBounds(init, m);
      UsedBounds(pool[n], At(m, pool[n].id));
      assert AllFull(pool, m) <==> AllFull(init, m) && At(m, pool[n].id) >= pool[n].th;
      assert AllEmpty(pool, m) <==> AllEmpty(init, m) && At(m, pool[n].id) == 0.0;
    }
  }

  /** A pool reads 100 exactly when every account is at its threshold, and 0 exactly when
      every account is empty. */
  lemma PctIsFullExactlyWhen(pool: seq<Member>, m: Levels)
    requires Proper(pool) && InRange(pool, m) && pool != []
    ensures Pct(pool, m) == 100.0 <==> AllFull(pool, m)
    ensures Pct(pool, m) == 0.0 <==> AllEmpty(pool, m)
  {
    UsedByBounds(pool, m);
    RatioIs(UsedBy(pool, m), Capacity(pool));
  }

  lemma RatioIs(x: real, c: real)
    requires c > 0.0
    ensures x / c * 100.0 == 100.0 <==> x == c
    ensures x / c * 100.0 == 0.0 <==> x == 0.0
    ensures (x / c * 100.0) * c == x * 100.0
  {
    var r := x / c;
    assert r * c == x;
  }

  lemma {:induction false} UsedByDiffers(pool: seq<Member>, m: Levels, n: Levels, i: nat)
    requires Proper(pool) && InRange(pool, m) && InRange(pool, n) && i < |pool|
    requires forall j :: 0 <= j < |pool| && j != i ==> At(m, pool[j].id) == At(n, pool[j].id)
    ensures UsedBy(pool, n) - UsedBy(pool, m) == Used(pool[i], At(n, pool[i].id)) - Used(pool[i], At(m, pool[i].id))
  {
    hide Used;
    var z := |pool| - 1;
    var init := pool[..z];
    assert forall j :: 0 <= j < z ==> init[j] == pool[j];
    if i == z {
      SameLevelsSamePct(init, m, n);
    } else {
      UsedByDiffers(init, m, n, i);
    }
  }

  /** Moving one account moves the pool by that account's share of the capacity. */
  lemma OneAccountMovesPct(pool: seq<Member>, m: Levels, n: Levels, i: nat)
    requires Proper(pool) && InRange(pool, m) && InRange(pool, n) && i < |pool|
    requires forall j :: 0 <= j < |pool| && j != i ==> At(m, pool[j].id) == At(n, pool[j].id)
    ensures (Pct(pool, n) - Pct(pool, m)) * Capacity(pool) ==
            (Counted(pool[i], At(n, pool[i].id)) - Counted(pool[i], At(m, pool[i].id))) * pool[i].w
  {
    hide Used, UsedBy, Counted, Pct, Capacity;
    UsedByDiffers(pool, m, n, i);
    UsedByBounds(pool, m);
    UsedIs(pool[i], At(m, pool[i].id));
    UsedIs(pool[i], At(n, pool[i].id));
    PctIs(pool, m);
    PctIs(pool, n);
    ScaledDifference(UsedBy(pool, m), UsedBy(pool, n), Capacity(pool), Counted(pool[i], At(m, pool[i].id)),
                     Counted(pool[i], At(n, pool[i].id)), pool[i].w);
  }

  lemma PctIs(pool: seq<Member>, m: Levels)
    requires Capacity(pool) > 0.0
    ensures Pct(pool, m) == UsedBy(pool, m) / Capacity(pool) * 100.0
  {
  }

  lemma ScaledDifference(x: real, y: real, c: real, u: real, v: real, w: real)
    requires c > 0.0 && y - x == v / 100.0 * w - u / 100.0 * w
    ensures (y / c * 100.0 - x / c * 100.0) * c == (v - u) * w
  {
    RatioIs(x, c);
    RatioIs(y, c);
    Distributes(y / c * 100.0, x / c * 100.0, c);
    Percents(u, w);
    Percents(v, w);
    Distributes(v, u, w);
  }

  lemma Distributes(p: real, q: real, c: real)
    ensures (p - q) * c == p * c - q * c
  {
  }

  lemma Percents(u: real, w: real)
    ensures (u / 100.0 * w) * 100.0 == u * w
  {
    var r := u / 100.0;
    assert r * 100.0 == u;
    assert (r * w) * 100.0 == (r * 100.0) * w;
  }

  // ------------------------------------------------------------------- the pool

  /** `m` stands for `a`: in the pool for its weight, at its threshold, or 100 where none is
      set; empty, with no reset ahead, once its reset has passed. */
  predicate StandsFor(m: Member, a: Account, now: int) {
    && m.id == a.id && m.w == a.weight && m.active == a.active
    && m.th == (if a.threshold > 0.0 then a.threshold else 100.0)
    && (a.resetsAt.Some? && a.resetsAt.value <= now ==> m.level == 0.0 && m.resetsAt == 0)
    && (a.resetsAt.Some? && a.resetsAt.value > now ==> m.level == a.util && m.resetsAt == a.resetsAt.value)
    && (a.resetsAt.None? ==> m.level == a.util && m.resetsAt == 0)
  }

  ghost predicate IsFromOneOf(m: Member, accs: seq<Account>, now: int) {
    exists i :: 0 <= i < |accs| && accs[i].weight != 0.0 && StandsFor(m, accs[i], now)
  }

  ghost predicate HasMemberFor(pool: seq<Member>, a: Account, now: int) {
    exists m :: m in pool && StandsFor(m, a, now)
  }

  lemma FromMore(m: Member, accs: seq<Account>, a: Account, now: int)
    ensures IsFromOneOf(m, accs, now) ==> IsFromOneOf(m, accs + [a], now)
    ensures a.weight != 0.0 && StandsFor(m, a, now) ==> IsFromOneOf(m, accs + [a], now)
  {
    hide StandsFor;
    var more := accs + [a];
    assert more[|accs|] == a;
    if i :| 0 <= i < |accs| && accs[i].weight != 0.0 && StandsFor(m, accs[i], now) {
      assert more[i] == accs[i];
    }
  }

  lemma MemberForMore(pool: seq<Member>, m: Member, a: Account, now: int)
    ensures HasMemberFor(pool, a, now) ==> HasMemberFor(pool + [m], a, now)
    ensures StandsFor(m, a, now) ==> HasMemberFor(pool + [m], a, now)
  {
    hide StandsFor;
    assert m in pool + [m];
    if x :| x in pool && StandsFor(x, a, now) {
      assert x in pool + [m];
    }
  }

  /** The pool is the weighted accounts, each once. */
  lemma {:induction false} PoolStandsForWeighted(accs: seq<Account>, now: int)
    ensures forall m :: m in Pool(accs, now) ==> IsFromOneOf(m, accs, now)
    ensures forall a :: a in accs && a.weight != 0.0 ==> HasMemberFor(Pool(accs, now), a, now)
    ensures |Pool(accs, now)| == Weighted(accs)
  {
    hide StandsFor, Joined, IsFromOneOf, HasMemberFor;
    if accs == [] {
    } else {
      var n := |accs| - 1;
      var init, a := accs[..n], accs[n];
      var pool, m := Pool(init, now), Joined(a, now);
      PoolStandsForWeighted(init, now);
      assert accs == init + [a] && pool + [] == pool;
      JoinedStandsFor(a, now);
      forall x | x in pool || x == m
        ensures IsFromOneOf(x, init, now) ==> IsFromOneOf(x, accs, now)
        ensures a.weight != 0.0 && x == m ==> IsFromOneOf(x, accs, now)
      {
        FromMore(x, init, a, now);
      }
      forall b | b in accs && b.weight != 0.0
        ensures HasMemberFor(Pool(accs, now), b, now)
      {
        MemberForMore(pool, m, b, now);
      }
    }
  }

  lemma JoinedStandsFor(a: Account, now: int)
    ensures StandsFor(Joined(a, now), a, now)
  {
  }

  function Weighted(accs: seq<Account>): nat {
    if accs == [] then 0 else Weighted(accs[..|accs| - 1]) + if accs[|accs| - 1].weight == 0.0 then 0 else 1
  }

  // ----------------------------------------------------------------- history values

  /** The value a history point shows of an account: its last sample by then, ... */
  lemma ValueIsLastSample(rows: seq<Row>, a: Member, at: int, k: nat)
    requires IsLastAt(rows, a.id, at, k)
    ensures ValueAt(rows, a, at) == rows[k].util
  {
    forall j | IsLastAt(rows, a.id, at, j)
      ensures j == k
    {
    }
  }

  /** ... before its first sample that one, and without any sample its current level. */
  lemma ValueBeforeSamples(rows: seq<Row>, a: Member, at: int)
    requires forall j :: 0 <= j < |rows| && rows[j].account == a.id ==> rows[j].ts > at
    ensures forall k :: IsFirst(rows, a.id, k) ==> ValueAt(rows, a, at) == rows[k].util
    ensures (forall j :: 0 <= j < |rows| ==> rows[j].account != a.id) ==> ValueAt(rows, a, at) == a.level
  {
    forall j
      ensures !IsLastAt(rows, a.id, at, j)
    {
    }
    forall i, j | IsFirst(rows, a.id, i) && IsFirst(rows, a.id, j)
      ensures i == j
    {
    }
  }

  // -------------------------------------------------------------- recorded use

  function Recorded(uses: seq<Use>): real {
    if uses == [] then 0.0 else Recorded(uses[..|uses| - 1]) + uses[|uses| - 1].pe
  }

  lemma RecordGrows(uses: seq<Use>, u: Use)
    ensures Recorded(uses + [u]) == Recorded(uses) + u.pe
  {
    assert (uses + [u])[..|uses|] == uses;
  }

  /** What an account's samples fell by in all, at its resets. */
  function Fallen(rows: seq<Row>, id: AccountId): real {
    if rows == [] then 0.0
    else
      var n := |rows| - 1;
      var before := LastSample(rows[..n], id);
      Fallen(rows[..n], id) +
      if rows[n].account == id && before.Some? && rows[n].util < before.value then before.value else 0.0
  }

  /** What they show was used: the last less the first, and what was given back by resets. */
  function Shown(rows: seq<Row>, id: AccountId): real {
    match (FirstSample(rows, id), LastSample(rows, id))
    case (Some(first), Some(last)) => last - first + Fallen(rows, id)
    case _ => 0.0
  }

  lemma {:induction false} FirstAndLast(rows: seq<Row>, id: AccountId)
    ensures FirstSample(rows, id).Some? <==> LastSample(rows, id).Some?
    ensures LastSample(rows, id).None? ==> Fallen(rows, id) == 0.0
  {
    if rows == [] {
    } else {
      FirstAndLast(rows[..|rows| - 1], id);
    }
  }

  lemma ShownGrows(rows: seq<Row>, r: Row, id: AccountId)
    ensures var before := LastSample(rows, id);
            Shown(rows + [r], id) ==
            Shown(rows, id) + if r.account == id && before.Some? then Fresh(before.value, r.util) else 0.0
  {
    FirstAndLast(rows, id);
    assert (rows + [r])[..|rows|] == rows;
  }

  /** The pool's record of one account. */
  lemma {:induction false} RecordIsShown(rows: seq<Row>, a: Member)
    requires forall i :: 0 <= i < |rows| ==> rows[i].util >= 0.0
    ensures Recorded(UsesOf([a], rows)) == ProEquivalents(Shown(rows, a.id), a.w)
  {
    hide ProEquivalents, Shown, Fresh;
    if rows == [] {
      NothingShown(a.id);
      NothingUsed(a.w);
    } else {
      var n := |rows| - 1;
      var init, r := rows[..n], rows[n];
      assert rows == init + [r];
      RecordIsShown(init, a);
      ShownGrows(init, r, a.id);
      MemberIs([], a, r.account);
      var previous := LastSample(init, r.account);
      OneMoreUse(UsesOf([a], init), MemberOf([a], r.account), previous, r);
      if r.account == a.id && previous.Some? {
        AddsUp(Shown(init, a.id), Fresh(previous.value, r.util), a.w);
        AmountIs(a, previous.value, r);
      } else {
        NothingUsed(a.w);
        assert UseAmount(MemberOf([a], r.account), previous, r) == 0.0;
      }
    }
  }

  lemma NothingShown(id: AccountId)
    ensures Shown([], id) == 0.0
  {
  }

  lemma AmountIs(a: Member, previous: real, r: Row)
    requires r.util >= 0.0
    ensures UseAmount(Some(a), Some(previous), r) == ProEquivalents(Fresh(previous, r.util), a.w)
  {
    NothingUsed(a.w);
    var more := UseFrom(Some(a), Some(previous), r);
    if more != [] {
      assert more == [] + [more[0]];
      RecordGrows([], more[0]);
    }
  }

  lemma NothingUsed(w: real)
    ensures ProEquivalents(0.0, w) == 0.0
  {
  }

  lemma AddsUp(x: real, y: real, w: real)
    ensures ProEquivalents(x + y, w) == ProEquivalents(x, w) + ProEquivalents(y, w)
  {
  }

  function ShownByAll(pool: seq<Member>, rows: seq<Row>): real {
    if pool == [] then 0.0
    else
      var a := pool[|pool| - 1];
      ShownByAll(pool[..|pool| - 1], rows) + ProEquivalents(Shown(rows, a.id), a.w)
  }

  lemma {:induction false} MemberAppended(pool: seq<Member>, a: Member, rows: seq<Row>)
    requires forall i :: 0 <= i < |pool| ==> pool[i].id != a.id
    ensures Recorded(UsesOf(pool + [a], rows)) == Recorded(UsesOf(pool, rows)) + Recorded(UsesOf([a], rows))
  {
    hide ProEquivalents, Fresh;
    if rows == [] {
    } else {
      var n := |rows| - 1;
      var r := rows[n];
      MemberAppended(pool, a, rows[..n]);
      var previous := LastSample(rows[..n], r.account);
      MemberIs(pool, a, r.account);
      OneMoreUse(UsesOf(pool + [a], rows[..n]), MemberOf(pool + [a], r.account), previous, r);
      OneMoreUse(UsesOf(pool, rows[..n]), MemberOf(pool, r.account), previous, r);
      OneMoreUse(UsesOf([a], rows[..n]), MemberOf([a], r.account), previous, r);
    }
  }

  function UseAmount(member: Option<Member>, previous: Option<real>, r: Row): real {
    Recorded(UseFrom(member, previous, r))
  }

  lemma OneMoreUse(uses: seq<Use>, member: Option<Member>, previous: Option<real>, r: Row)
    ensures Recorded(uses + UseFrom(member, previous, r)) == Recorded(uses) + UseAmount(member, previous, r)
    ensures member.None? ==> UseAmount(member, previous, r) == 0.0
  {
    var more := UseFrom(member, previous, r);
    if more == [] {
      assert uses + more == uses;
    } else {
      RecordGrows(uses, more[0]);
      RecordGrows([], more[0]);
      assert more == [more[0]] && [] + [more[0]] == [more[0]];
    }
  }

  lemma {:induction false} MemberIs(pool: seq<Member>, a: Member, id: AccountId)
    requires forall i :: 0 <= i < |pool| ==> pool[i].id != a.id
    ensures MemberOf(pool + [a], id) == if a.id == id then Some(a) else MemberOf(pool, id)
    ensures MemberOf([a], id) == if a.id == id then Some(a) else None
    ensures a.id == id ==> MemberOf(pool, id).None?
  {
    assert (pool + [a])[..|pool|] == pool && [a][..0] == [];
    if a.id == id {
      NoMember(pool, id);
    }
  }

  lemma {:induction false} NoMember(pool: seq<Member>, id: AccountId)
    requires forall i :: 0 <= i < |pool| ==> pool[i].id != id
    ensures MemberOf(pool, id).None?
  {
    if pool != [] {
      NoMember(pool[..|pool| - 1], id);
    }
  }

  /** The record conserves: over the whole pool it holds exactly what the accounts' samples
      show, weighted, with what each gave back at its resets counted as fresh use. */
  lemma {:induction false} RecordConserves(pool: seq<Member>, rows: seq<Row>)
    requires DistinctIds(pool) && forall i :: 0 <= i < |rows| ==> rows[i].util >= 0.0
    ensures Recorded(UsesOf(pool, rows)) == ShownByAll(pool, rows)
  {
    if pool == [] {
      NobodyUses(rows);
    } else {
      hide ProEquivalents;
      var n := |pool| - 1;
      assert pool == pool[..n] + [pool[n]];
      assert forall i :: 0 <= i < n ==> pool[..n][i] == pool[i];
      RecordConserves(pool[..n], rows);
      MemberAppended(pool[..n], pool[n], rows);
      RecordIsShown(rows, pool[n]);
    }
  }

  lemma {:induction false} NobodyUses(rows: seq<Row>)
    ensures UsesOf([], rows) == []
  {
    if rows != [] {
      NobodyUses(rows[..|rows| - 1]);
    }
  }

  lemma UseIsTimed(member: Option<Member>, previous: Option<real>, r: Row)
    ensures var more := UseFrom(member, previous, r);
            more == [] || (more == [more[0]] && more[0].ts == r.ts)
  {
  }

  lemma DemandGrowsByOne(uses: seq<Use>, u: Use, lo: int, hi: int)
    ensures Demand(uses + [u], lo, hi) == Demand(uses, lo, hi) + if lo < u.ts <= hi then u.pe else 0.0
  {
    assert (uses + [u])[..|uses|] == uses;
  }

  lemma DemandGrows(uses: seq<Use>, member: Option<Member>, previous: Option<real>, r: Row, lo: int, hi: int)
    ensures Demand(uses + UseFrom(member, previous, r), lo, hi) ==
            Demand(uses, lo, hi) + if lo < r.ts <= hi then UseAmount(member, previous, r) else 0.0
  {
    hide UseFrom, Demand;
    var more := UseFrom(member, previous, r);
    UseIsTimed(member, previous, r);
    if more == [] {
      assert uses + more == uses;
    } else {
      DemandGrowsByOne(uses, more[0], lo, hi);
      assert [] + [more[0]] == more;
      RecordGrows([], more[0]);
    }
  }

  /** The demand of a span is what the record grew by while it lasted: the record up to the
      last sample in it, less the record up to its start. */
  lemma {:induction false} DemandIsRecordGrowth(pool: seq<Member>, rows: seq<Row>, m: nat, n: nat, lo: int, hi: int)
    requires m <= n <= |rows|
    requires forall i :: 0 <= i < m ==> rows[i].ts <= lo
    requires forall i :: m <= i < n ==> lo < rows[i].ts <= hi
    requires forall i :: n <= i < |rows| ==> rows[i].ts > hi
    ensures Demand(UsesOf(pool, rows), lo, hi) ==
            Recorded(UsesOf(pool, rows[..n])) - Recorded(UsesOf(pool, rows[..m]))
  {
    hide UseFrom;
    if rows == [] {
    } else {
      var z := |rows| - 1;
      var init, r := rows[..z], rows[z];
      var member, previous := MemberOf(pool, r.account), LastSample(init, r.account);
      DemandGrows(UsesOf(pool, init), member, previous, r, lo, hi);
      OneMoreUse(UsesOf(pool, init), member, previous, r);
      assert rows[..|rows|] == rows;
      if n <= z {
        assert init[..n] == rows[..n] && init[..m] == rows[..m];
        DemandIsRecordGrowth(pool, init, m, n, lo, hi);
      } else if m <= z {
        assert init[..z] == init && init[..m] == rows[..m];
        DemandIsRecordGrowth(pool, init, m, z, lo, hi);
      } else {
        assert init[..z] == init;
        DemandIsRecordGrowth(pool, init, z, z, lo, hi);
      }
    }
  }

  lemma {:induction false} UsesArePositive(pool: seq<Member>, rows: seq<Row>)
    requires forall i :: 0 <= i < |pool| ==> pool[i].w > 0.0
    ensures forall i :: 0 <= i < |UsesOf(pool, rows)| ==> UsesOf(pool, rows)[i].pe > 0.0
  {
    if rows == [] {
    } else {
      var n := |rows| - 1;
      UsesArePositive(pool, rows[..n]);
      var member := MemberOf(pool, rows[n].account);
      if member.Some? {
        MemberWeighs(pool, rows[n].account);
        var previous := LastSample(rows[..n], rows[n].account);
        if previous.Some? && Fresh(previous.value, rows[n].util) > 0.0 {
          PositivePart(Fresh(previous.value, rows[n].util), member.value.w);
        }
      }
    }
  }

  lemma {:induction false} MemberWeighs(pool: seq<Member>, id: AccountId)
    requires (forall i :: 0 <= i < |pool| ==> pool[i].w > 0.0) && MemberOf(pool, id).Some?
    ensures MemberOf(pool, id).value.w > 0.0
  {
    if pool[|pool| - 1].id != id {
      MemberWeighs(pool[..|pool| - 1], id);
    }
  }

  lemma PositivePart(x: real, w: real)
    requires x > 0.0 && w > 0.0
    ensures ProEquivalents(x, w) > 0.0
  {
    var part := x / 100.0;
    assert part > 0.0 && part * w > 0.0;
  }

  lemma {:induction false} DemandIsNotNegative(uses: seq<Use>, lo: int, hi: int)
    requires forall i :: 0 <= i < |uses| ==> uses[i].pe > 0.0
    ensures Demand(uses, lo, hi) >= 0.0
  {
    if uses != [] {
      DemandIsNotNegative(uses[..|uses| - 1], lo, hi);
    }
  }

  /** So every hour of the chart's forecast pours its share of the recorded week. */
  lemma ChartPoursItsRecord(pool: seq<Member>, rows: seq<Row>, now: int, k: nat)
    requires Proper(pool) && k > 0
    ensures var uses := UsesOf(pool, rows);
            var t := ResetDue(Forecast(pool, uses, now, k - 1), pool, now + k * HOUR);
            PouredGreedily(pool, t.level, Forecast(pool, uses, now, k).level, HourDemand(uses, now, k)) &&
            Forecast(pool, uses, now, k).idle == t.idle
  {
    hide Forecast, PouredGreedily, ResetDue, UsesOf;
    UsesArePositive(pool, rows);
    DemandIsNotNegative(UsesOf(pool, rows), now - WEEK + (k - 1) * HOUR, now - WEEK + k * HOUR);
    EveryHourPoursItsDemand(pool, UsesOf(pool, rows), now, k);
  }
}
