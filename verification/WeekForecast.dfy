/** The forecast half of the chart: resets, then a capped greedy pour, hour by hour. */
module WeekForecast {
  import opened WeekChart

  /** Room below the threshold, in weighted units. */
  function Room(a: Member, level: real): real { (a.th - level) / 100.0 * a.w }

  datatype Poured = Poured(level: Levels, left: real)

  function PourOne(p: Poured, a: Member): Poured {
    if p.left <= 0.0 then p
    else
      var room := Room(a, At(p.level, a.id));
      if p.left >= room then Poured(p.level[a.id := a.th], p.left - room)
      else Poured(p.level[a.id := At(p.level, a.id) + p.left / a.w * 100.0], 0.0)
  }

  function Pour(level: Levels, order: seq<Member>, pe: real): Poured {
    if order == [] then Poured(level, pe)
    else PourOne(Pour(level, order[..|order| - 1], pe), order[|order| - 1])
  }

  function TotalRoom(order: seq<Member>, level: Levels): real {
    if order == [] then 0.0
    else TotalRoom(order[..|order| - 1], level) + Room(order[|order| - 1], At(level, order[|order| - 1].id))
  }

  /** Weighted units that a level change amounts to. */
  function Rise(a: Member, before: real, after: real): real { (after - before) / 100.0 * a.w }

  /** Weighted units by which the ordered accounts rose. */
  function Moved(order: seq<Member>, before: Levels, after: Levels): real {
    if order == [] then 0.0
    else
      var a := order[|order| - 1];
      Moved(order[..|order| - 1], before, after) + Rise(a, At(before, a.id), At(after, a.id))
  }

  /** Distinct open accounts: weight positive, level below threshold. */
  ghost predicate Open(order: seq<Member>, level: Levels) {
    && (forall i :: 0 <= i < |order| ==> order[i].w > 0.0 && At(level, order[i].id) < order[i].th)
    && (forall i, j :: 0 <= i < j < |order| ==> order[i].id != order[j].id)
  }

  lemma RoomIsPositive(a: Member, level: real)
    requires a.w > 0.0 && level < a.th
    ensures Room(a, level) > 0.0
  {
    assert (a.th - level) / 100.0 > 0.0;
  }

  /** A partial pour raises the level by its units and stays below the threshold. */
  lemma PartialPour(a: Member, level: real, pe: real)
    requires a.w > 0.0 && level < a.th && 0.0 < pe < Room(a, level)
    ensures var raised := level + pe / a.w * 100.0;
            level < raised < a.th && Rise(a, level, raised) == pe
  {
    var rise := pe / a.w * 100.0;
    assert rise / 100.0 * a.w == pe by {
      assert rise / 100.0 == pe / a.w;
    }
    var gap := (a.th - level) / 100.0;
    assert (gap - pe / a.w) * a.w == gap * a.w - pe;
    assert pe / a.w > 0.0;
  }

  lemma PourOneIsExact(p: Poured, a: Member)
    requires a.w > 0.0 && At(p.level, a.id) < a.th && p.left >= 0.0
    ensures var q := PourOne(p, a);
            q.left >= 0.0 && At(p.level, a.id) <= At(q.level, a.id) <= a.th &&
            Rise(a, At(p.level, a.id), At(q.level, a.id)) == p.left - q.left &&
            (q.left > 0.0 ==> At(q.level, a.id) == a.th) &&
            q.left == (if p.left <= Room(a, At(p.level, a.id)) then 0.0 else p.left - Room(a, At(p.level, a.id))) &&
            (At(q.level, a.id) > At(p.level, a.id) ==> p.left > 0.0) &&
            (forall id :: id != a.id ==> At(q.level, id) == At(p.level, id))
  {
    var level := At(p.level, a.id);
    RoomIsPositive(a, level);
    if 0.0 < p.left < Room(a, level) {
      PartialPour(a, level, p.left);
    }
  }

  /** Membership in the order, by id. */
  predicate InOrder(order: seq<Member>, id: AccountId) {
    exists i :: 0 <= i < |order| && order[i].id == id
  }

  lemma {:induction false} PourTouchesOnlyTheOrder(level: Levels, order: seq<Member>, pe: real, id: AccountId)
    requires !InOrder(order, id)
    ensures At(Pour(level, order, pe).level, id) == At(level, id)
  {
    if order == [] {
    } else {
      var n := |order| - 1;
      assert order[n].id != id;
      forall i | 0 <= i < n
        ensures order[..n][i].id != id
      {
        assert order[i].id != id;
      }
      PourTouchesOnlyTheOrder(level, order[..n], pe, id);
    }
  }

  lemma LastIsNotEarlier(order: seq<Member>, level: Levels)
    requires order != [] && Open(order, level)
    ensures Open(order[..|order| - 1], level) && !InOrder(order[..|order| - 1], order[|order| - 1].id)
  {
    var init := order[..|order| - 1];
    assert forall i :: 0 <= i < |init| ==> init[i] == order[i];
  }

  lemma {:induction false} MovedAgrees(order: seq<Member>, before: Levels, after: Levels, other: Levels)
    requires forall i :: 0 <= i < |order| ==> At(after, order[i].id) == At(other, order[i].id)
    ensures Moved(order, before, after) == Moved(order, before, other)
  {
    if order == [] {
    } else {
      var init := order[..|order| - 1];
      assert forall i :: 0 <= i < |init| ==> init[i] == order[i];
      MovedAgrees(init, before, after, other);
    }
  }

  lemma {:induction false} RoomIsNotNegative(order: seq<Member>, level: Levels)
    requires Open(order, level)
    ensures TotalRoom(order, level) >= 0.0
  {
    if order == [] {
    } else {
      var a := order[|order| - 1];
      LastIsNotEarlier(order, level);
      RoomIsNotNegative(order[..|order| - 1], level);
      RoomIsPositive(a, At(level, a.id));
    }
  }

  function MinReal(x: real, y: real): real { if x <= y then x else y }

  /** Nothing is lost: what left the demand is what the accounts gained. */
  lemma {:induction false} PourConserves(level: Levels, order: seq<Member>, pe: real)
    requires Open(order, level) && pe >= 0.0
    ensures Pour(level, order, pe).left >= 0.0
    ensures Moved(order, level, Pour(level, order, pe).level) == pe - Pour(level, order, pe).left
  {
    if order == [] {
    } else {
      var n := |order| - 1;
      var init, a := order[..n], order[n];
      LastIsNotEarlier(order, level);
      PourConserves(level, init, pe);
      PourTouchesOnlyTheOrder(level, init, pe, a.id);
      var before, after := Pour(level, init, pe), Pour(level, order, pe);
      PourOneIsExact(before, a);
      forall i | 0 <= i < n
        ensures At(before.level, init[i].id) == At(after.level, init[i].id)
      {
        assert init[i].id != a.id;
      }
      MovedAgrees(init, level, before.level, after.level);
      assert Moved(order, level, after.level) ==
             Moved(init, level, after.level) + Rise(a, At(level, a.id), At(after.level, a.id));
    }
  }

  lemma {:induction false} PourLeavesTheExcess(level: Levels, order: seq<Member>, pe: real)
    requires Open(order, level) && pe >= 0.0
    ensures Pour(level, order, pe).left == if pe <= TotalRoom(order, level) then 0.0 else pe - TotalRoom(order, level)
  {
    if order == [] {
    } else {
      var n := |order| - 1;
      var init, a := order[..n], order[n];
      LastIsNotEarlier(order, level);
      PourLeavesTheExcess(level, init, pe);
      PourTouchesOnlyTheOrder(level, init, pe, a.id);
      RoomIsNotNegative(init, level);
      RoomIsPositive(a, At(level, a.id));
      PourOneIsExact(Pour(level, init, pe), a);
    }
  }

  /** The pour moves exactly the smaller of the demand and the total room. */
  lemma PourMovesExactly(level: Levels, order: seq<Member>, pe: real)
    requires Open(order, level) && pe >= 0.0
    ensures Moved(order, level, Pour(level, order, pe).level) == MinReal(pe, TotalRoom(order, level))
  {
    PourConserves(level, order, pe);
    PourLeavesTheExcess(level, order, pe);
  }

  /** No account is lowered, lifted above its threshold, or touched out of turn:
      one gains only after every earlier account of the order is full. */
  lemma {:induction false} PourIsGreedyAndCapped(level: Levels, order: seq<Member>, pe: real)
    requires Open(order, level) && pe >= 0.0
    ensures var p := Pour(level, order, pe);
            (forall i :: 0 <= i < |order| ==> At(level, order[i].id) <= At(p.level, order[i].id) <= order[i].th) &&
            (forall i, j :: 0 <= i < j < |order| && At(p.level, order[j].id) > At(level, order[j].id) ==>
               At(p.level, order[i].id) == order[i].th) &&
            (p.left > 0.0 ==> forall i :: 0 <= i < |order| ==> At(p.level, order[i].id) == order[i].th) &&
            p.left >= 0.0
  {
    if order == [] {
    } else {
      hide PourOne, Room, Rise;
      var n := |order| - 1;
      var init, a := order[..n], order[n];
      LastIsNotEarlier(order, level);
      PourIsGreedyAndCapped(level, init, pe);
      PourTouchesOnlyTheOrder(level, init, pe, a.id);
      var before, after := Pour(level, init, pe), Pour(level, order, pe);
      PourOneIsExact(before, a);
      forall i | 0 <= i < n
        ensures init[i] == order[i] && At(after.level, order[i].id) == At(before.level, order[i].id)
      {
        assert order[i].id != a.id;
      }
    }
  }

  // ------------------------------------------------------------------- ordering

  /** Lowest level first, ties by id. */
  predicate Sooner(level: Levels, a: Member, b: Member) {
    At(level, a.id) < At(level, b.id) || (At(level, a.id) == At(level, b.id) && a.id < b.id)
  }

  ghost predicate Ranked(level: Levels, order: seq<Member>) {
    forall i, j :: 0 <= i < j < |order| ==> !Sooner(level, order[j], order[i])
  }

  function Place(level: Levels, order: seq<Member>, a: Member): (r: seq<Member>)
    ensures multiset(r) == multiset(order) + multiset{a}
  {
    if order == [] then [a]
    else
      var n := |order| - 1;
      assert order == order[..n] + [order[n]];
      if Sooner(level, a, order[n]) then Place(level, order[..n], a) + [order[n]] else order + [a]
  }

  function SortedByLevel(level: Levels, open: seq<Member>): (r: seq<Member>)
    ensures multiset(r) == multiset(open)
  {
    if open == [] then []
    else
      var n := |open| - 1;
      assert open == open[..n] + [open[n]];
      Place(level, SortedByLevel(level, open[..n]), open[n])
  }

  lemma SoonerIsAnOrder(level: Levels, a: Member, b: Member, c: Member)
    ensures Sooner(level, a, b) ==> !Sooner(level, b, a)
    ensures !Sooner(level, a, b) && (b == c || !Sooner(level, b, c)) ==> !Sooner(level, a, c)
  {
  }

  lemma NoneSoonerAhead(level: Levels, order: seq<Member>, a: Member)
    requires order != [] && Ranked(level, order) && !Sooner(level, a, order[|order| - 1])
    ensures forall i :: 0 <= i < |order| ==> !Sooner(level, a, order[i])
  {
    hide Sooner;
    forall i | 0 <= i < |order|
      ensures !Sooner(level, a, order[i])
    {
      SoonerIsAnOrder(level, a, order[|order| - 1], order[i]);
    }
  }

  lemma RankedWithLast(level: Levels, order: seq<Member>, last: Member)
    requires Ranked(level, order) && forall i :: 0 <= i < |order| ==> !Sooner(level, last, order[i])
    ensures Ranked(level, order + [last])
  {
    hide Sooner;
  }

  lemma PlacedMembers(level: Levels, order: seq<Member>, a: Member, i: nat)
    requires i < |Place(level, order, a)|
    ensures Place(level, order, a)[i] == a || Place(level, order, a)[i] in order
  {
    assert Place(level, order, a)[i] in multiset(Place(level, order, a));
  }

  lemma {:induction false} PlaceKeepsRank(level: Levels, order: seq<Member>, a: Member)
    requires Ranked(level, order)
    ensures Ranked(level, Place(level, order, a))
  {
    if order == [] {
    } else {
      var n := |order| - 1;
      if Sooner(level, a, order[n]) {
        PlaceKeepsRank(level, order[..n], a);
        forall i | 0 <= i < |Place(level, order[..n], a)|
          ensures !Sooner(level, order[n], Place(level, order[..n], a)[i])
        {
          PlacedMembers(level, order[..n], a, i);
          SoonerIsAnOrder(level, a, order[n], a);
        }
        RankedWithLast(level, Place(level, order[..n], a), order[n]);
      } else {
        NoneSoonerAhead(level, order, a);
        RankedWithLast(level, order, a);
      }
    }
  }

  /** Distinct ids leave one ranked arrangement: whatever the sort, it is this order. */
  lemma {:induction false} RankedOrderIsUnique(level: Levels, order: seq<Member>, other: seq<Member>)
    requires Ranked(level, order) && Ranked(level, other) && DistinctIds(order) && multiset(order) == multiset(other)
    ensures order == other
  {
    hide Ranked, DistinctIds;
    assert |multiset(order)| == |order| && |multiset(other)| == |other|;
    if order == [] {
    } else {
      var n := |order| - 1;
      LastIsTheSame(level, order, other);
      LastOff(level, order);
      LastOff(level, other);
      RankedOrderIsUnique(level, order[..n], other[..n]);
    }
  }

  lemma LastOff(level: Levels, s: seq<Member>)
    requires s != []
    ensures var n := |s| - 1;
            s == s[..n] + [s[n]] && multiset(s[..n]) == multiset(s) - multiset{s[n]} &&
            (Ranked(level, s) ==> Ranked(level, s[..n])) && (DistinctIds(s) ==> DistinctIds(s[..n]))
  {
    hide Sooner;
    var n := |s| - 1;
    assert s == s[..n] + [s[n]];
  }

  lemma LastIsTheSame(level: Levels, order: seq<Member>, other: seq<Member>)
    requires Ranked(level, order) && Ranked(level, other) && DistinctIds(order) && multiset(order) == multiset(other)
    requires order != [] && other != []
    ensures order[|order| - 1] == other[|other| - 1]
  {
    var x, y := order[|order| - 1], other[|other| - 1];
    assert x in multiset(other) && y in multiset(order);
    var i :| 0 <= i < |order| && order[i] == y;
    var j :| 0 <= j < |other| && other[j] == x;
    NeitherSooner(level, x, y);
  }

  lemma NeitherSooner(level: Levels, a: Member, b: Member)
    ensures a.id != b.id ==> Sooner(level, a, b) || Sooner(level, b, a)
  {
  }

  lemma {:induction false} SortedIsRanked(level: Levels, open: seq<Member>)
    ensures Ranked(level, SortedByLevel(level, open))
  {
    if open == [] {
    } else {
      var n := |open| - 1;
      SortedIsRanked(level, open[..n]);
      PlaceKeepsRank(level, SortedByLevel(level, open[..n]), open[n]);
    }
  }

  /** Active members below their threshold. */
  function OpenMembers(pool: seq<Member>, level: Levels): seq<Member> {
    if pool == [] then []
    else
      var a := pool[|pool| - 1];
      OpenMembers(pool[..|pool| - 1], level) + if a.active && At(level, a.id) < a.th then [a] else []
  }

  lemma {:induction false} OpenMembersAre(pool: seq<Member>, level: Levels, a: Member)
    ensures a in OpenMembers(pool, level) <==> a in pool && a.active && At(level, a.id) < a.th
  {
    if pool == [] {
    } else {
      var n := |pool| - 1;
      OpenMembersAre(pool[..n], level, a);
      assert pool == pool[..n] + [pool[n]];
    }
  }

  ghost predicate DistinctIds(order: seq<Member>) {
    forall i, j :: 0 <= i < j < |order| ==> order[i].id != order[j].id
  }

  lemma {:induction false} OpenMembersDistinct(pool: seq<Member>, level: Levels)
    requires DistinctIds(pool)
    ensures DistinctIds(OpenMembers(pool, level))
  {
    if pool == [] {
    } else {
      var n := |pool| - 1;
      assert forall i :: 0 <= i < n ==> pool[..n][i] == pool[i];
      OpenMembersDistinct(pool[..n], level);
      forall b | b in OpenMembers(pool[..n], level)
        ensures b.id != pool[n].id
      {
        OpenMembersAre(pool[..n], level, b);
      }
    }
  }

  lemma DistinctWithLast(order: seq<Member>, last: Member)
    requires DistinctIds(order) && forall i :: 0 <= i < |order| ==> order[i].id != last.id
    ensures DistinctIds(order + [last])
  {
  }

  lemma {:induction false} PlaceKeepsDistinct(level: Levels, order: seq<Member>, a: Member)
    requires DistinctIds(order) && forall i :: 0 <= i < |order| ==> order[i].id != a.id
    ensures DistinctIds(Place(level, order, a))
  {
    hide Sooner;
    if order == [] {
    } else {
      var n := |order| - 1;
      if Sooner(level, a, order[n]) {
        PlaceKeepsDistinct(level, order[..n], a);
        forall i | 0 <= i < |Place(level, order[..n], a)|
          ensures Place(level, order[..n], a)[i].id != order[n].id
        {
          PlacedMembers(level, order[..n], a, i);
        }
        DistinctWithLast(Place(level, order[..n], a), order[n]);
      } else {
        DistinctWithLast(order, a);
      }
    }
  }

  lemma {:induction false} SortedStaysDistinct(level: Levels, open: seq<Member>)
    requires DistinctIds(open)
    ensures DistinctIds(SortedByLevel(level, open))
  {
    if open == [] {
    } else {
      var n := |open| - 1;
      SortedStaysDistinct(level, open[..n]);
      var sorted := SortedByLevel(level, open[..n]);
      forall i | 0 <= i < |sorted|
        ensures sorted[i].id != open[n].id
      {
        assert sorted[i] in multiset(sorted);
        assert sorted[i] in open[..n];
      }
      PlaceKeepsDistinct(level, sorted, open[n]);
    }
  }

  /** The accounts an hour pours into, in the order it pours. */
  function Order(pool: seq<Member>, level: Levels): seq<Member> {
    SortedByLevel(level, OpenMembers(pool, level))
  }

  lemma OrderMembersAre(pool: seq<Member>, level: Levels, a: Member)
    ensures a in Order(pool, level) <==> a in pool && a.active && At(level, a.id) < a.th
  {
    OpenMembersAre(pool, level, a);
    assert a in Order(pool, level) <==> a in multiset(Order(pool, level));
    assert a in OpenMembers(pool, level) <==> a in multiset(OpenMembers(pool, level));
  }

  /** The order holds exactly the active members below threshold, lowest first. */
  lemma OrderIsOpenAndRanked(pool: seq<Member>, level: Levels)
    requires Proper(pool)
    ensures Open(Order(pool, level), level) && Ranked(level, Order(pool, level))
    ensures forall a :: a in Order(pool, level) <==> a in pool && a.active && At(level, a.id) < a.th
  {
    var open := OpenMembers(pool, level);
    OpenMembersDistinct(pool, level);
    SortedStaysDistinct(level, open);
    SortedIsRanked(level, open);
    forall a
      ensures a in Order(pool, level) <==> a in pool && a.active && At(level, a.id) < a.th
    {
      OrderMembersAre(pool, level, a);
    }
  }

  /** One hour's pour, over the whole pool: exactly the demand or all the room is
      used, only active members below threshold change, none passes its threshold,
      and a member gains only after every open member ahead of it is full. */
  lemma HourPourIsGreedy(pool: seq<Member>, level: Levels, pe: real)
    requires Proper(pool) && pe >= 0.0
    ensures var order := Order(pool, level);
            var after := Pour(level, order, pe).level;
            Moved(order, level, after) == MinReal(pe, TotalRoom(order, level)) &&
            (forall a :: a in pool ==> At(level, a.id) <= At(after, a.id)) &&
            (forall a :: a in pool && At(after, a.id) > At(level, a.id) ==> a.active && At(after, a.id) <= a.th) &&
            (forall a, b :: a in order && b in order && Sooner(level, a, b) && At(after, b.id) > At(level, b.id) ==>
               At(after, a.id) == a.th)
  {
    var order := Order(pool, level);
    OrderIsOpenAndRanked(pool, level);
    PourMovesExactly(level, order, pe);
    PourIsGreedyAndCapped(level, order, pe);
    var after := Pour(level, order, pe).level;
    forall a | a in pool
      ensures At(level, a.id) <= At(after, a.id)
      ensures At(after, a.id) > At(level, a.id) ==> a.active && At(after, a.id) <= a.th
    {
      MemberIsOrderedOrUntouched(pool, level, pe, a);
    }
    forall a, b | a in order && b in order && Sooner(level, a, b) && At(after, b.id) > At(level, b.id)
      ensures At(after, a.id) == a.th
    {
      var i :| 0 <= i < |order| && order[i] == a;
      var j :| 0 <= j < |order| && order[j] == b;
      assert i < j;
    }
  }

  lemma MemberIsOrderedOrUntouched(pool: seq<Member>, level: Levels, pe: real, a: Member)
    requires Proper(pool) && a in pool
    ensures a in Order(pool, level) || At(Pour(level, Order(pool, level), pe).level, a.id) == At(level, a.id)
  {
    var order := Order(pool, level);
    OrderIsOpenAndRanked(pool, level);
    if InOrder(order, a.id) {
      var i :| 0 <= i < |order| && order[i].id == a.id;
      assert order[i] in pool;
      var x :| 0 <= x < |pool| && pool[x] == order[i];
      var y :| 0 <= y < |pool| && pool[y] == a;
      assert x == y;
    } else {
      PourTouchesOnlyTheOrder(level, order, pe, a.id);
    }
  }

  // --------------------------------------------------------------- hour by hour

  datatype Hourly = Hourly(level: Levels, idle: Levels, resetsAt: map<AccountId, int>)

  function ResetAt(m: map<AccountId, int>, id: AccountId): int { if id in m then m[id] else 0 }

  function Start(pool: seq<Member>): Hourly {
    if pool == [] then Hourly(map[], map[], map[])
    else
      var s, a := Start(pool[..|pool| - 1]), pool[|pool| - 1];
      Hourly(s.level[a.id := a.level], s.idle[a.id := a.level], s.resetsAt[a.id := a.resetsAt])
  }

  function ResetOne(s: Hourly, a: Member, at: int): Hourly {
    if ResetAt(s.resetsAt, a.id) != 0 && ResetAt(s.resetsAt, a.id) <= at
    then Hourly(s.level[a.id := 0.0], s.idle[a.id := 0.0], s.resetsAt[a.id := 0])
    else s
  }

  function ResetDue(s: Hourly, pool: seq<Member>, at: int): Hourly {
    if pool == [] then s
    else ResetOne(ResetDue(s, pool[..|pool| - 1], at), pool[|pool| - 1], at)
  }

  function HourStep(s: Hourly, pool: seq<Member>, uses: seq<Use>, now: int, k: int): Hourly {
    var t := ResetDue(s, pool, now + k * HOUR);
    var pe := HourDemand(uses, now, k);
    if pe > 0.0 then t.(level := Pour(t.level, Order(pool, t.level), pe).level) else t
  }

  function Forecast(pool: seq<Member>, uses: seq<Use>, now: int, k: nat): Hourly {
    if k == 0 then Start(pool) else HourStep(Forecast(pool, uses, now, k - 1), pool, uses, now, k)
  }

  /** Levels dominate idle levels, and both stay within [0, 100]. */
  ghost predicate Dominates(pool: seq<Member>, s: Hourly) {
    forall i :: 0 <= i < |pool| ==> 0.0 <= At(s.idle, pool[i].id) <= At(s.level, pool[i].id) <= 100.0
  }

  lemma {:induction false} StartHolds(pool: seq<Member>, i: nat)
    requires DistinctIds(pool) && i < |pool|
    ensures var s := Start(pool);
            At(s.level, pool[i].id) == pool[i].level && At(s.idle, pool[i].id) == pool[i].level &&
            ResetAt(s.resetsAt, pool[i].id) == pool[i].resetsAt
  {
    if i < |pool| - 1 {
      var init := pool[..|pool| - 1];
      assert forall x :: 0 <= x < |init| ==> init[x] == pool[x];
      StartHolds(init, i);
    }
  }

  /** What one hour's resets do to one account. */
  lemma {:induction false} ResetDueAt(s: Hourly, pool: seq<Member>, at: int, id: AccountId)
    ensures var t := ResetDue(s, pool, at);
            var due := InOrder(pool, id) && ResetAt(s.resetsAt, id) != 0 && ResetAt(s.resetsAt, id) <= at;
            At(t.level, id) == (if due then 0.0 else At(s.level, id)) &&
            At(t.idle, id) == (if due then 0.0 else At(s.idle, id)) &&
            ResetAt(t.resetsAt, id) == (if due then 0 else ResetAt(s.resetsAt, id))
  {
    if pool == [] {
    } else {
      var n := |pool| - 1;
      ResetDueAt(s, pool[..n], at, id);
      assert InOrder(pool[..n], id) ==> InOrder(pool, id) by {
        if i :| 0 <= i < n && pool[..n][i].id == id {
          assert pool[i].id == id;
        }
      }
      if InOrder(pool, id) && pool[n].id != id {
        var i :| 0 <= i < |pool| && pool[i].id == id;
        assert pool[..n][i].id == id;
      }
    }
  }

  lemma PourKeepsDominance(pool: seq<Member>, t: Hourly, pe: real)
    requires Proper(pool) && Dominates(pool, t) && pe >= 0.0
    ensures Dominates(pool, t.(level := Pour(t.level, Order(pool, t.level), pe).level))
  {
    HourPourIsGreedy(pool, t.level, pe);
    var after := Pour(t.level, Order(pool, t.level), pe).level;
    forall i | 0 <= i < |pool|
      ensures 0.0 <= At(t.idle, pool[i].id) <= At(after, pool[i].id) <= 100.0
    {
      assert pool[i] in pool && ProperMember(pool[i]);
    }
  }

  lemma ResetKeepsDominance(pool: seq<Member>, s: Hourly, at: int)
    requires Dominates(pool, s)
    ensures Dominates(pool, ResetDue(s, pool, at)) && Below(pool, ResetDue(s, pool, at).idle, s.idle)
  {
    forall i | 0 <= i < |pool|
      ensures 0.0 <= At(ResetDue(s, pool, at).idle, pool[i].id) <= At(ResetDue(s, pool, at).level, pool[i].id) <= 100.0
      ensures At(ResetDue(s, pool, at).idle, pool[i].id) <= At(s.idle, pool[i].id)
    {
      ResetDueAt(s, pool, at, pool[i].id);
    }
  }

  lemma {:induction false} ForecastDominates(pool: seq<Member>, uses: seq<Use>, now: int, k: nat)
    requires Proper(pool)
    ensures Dominates(pool, Forecast(pool, uses, now, k))
  {
    if k == 0 {
      forall i | 0 <= i < |pool|
        ensures 0.0 <= At(Start(pool).idle, pool[i].id) <= At(Start(pool).level, pool[i].id) <= 100.0
      {
        StartHolds(pool, i);
        assert ProperMember(pool[i]);
      }
    } else {
      ForecastDominates(pool, uses, now, k - 1);
      var s := Forecast(pool, uses, now, k - 1);
      ResetKeepsDominance(pool, s, now + k * HOUR);
      if HourDemand(uses, now, k) > 0.0 {
        PourKeepsDominance(pool, ResetDue(s, pool, now + k * HOUR), HourDemand(uses, now, k));
      }
    }
  }

  lemma HourLeavesIdle(s: Hourly, pool: seq<Member>, uses: seq<Use>, now: int, k: int)
    ensures HourStep(s, pool, uses, now, k).idle == ResetDue(s, pool, now + k * HOUR).idle
    ensures HourStep(s, pool, uses, now, k).resetsAt == ResetDue(s, pool, now + k * HOUR).resetsAt
  {
  }

  lemma DominanceGivesOrder(pool: seq<Member>, s: Hourly)
    requires Dominates(pool, s)
    ensures Below(pool, s.idle, s.level) && InRange(pool, s.idle) && InRange(pool, s.level)
  {
  }

  lemma IdleNeverRises(pool: seq<Member>, uses: seq<Use>, now: int, k: nat)
    requires Proper(pool) && k > 0
    ensures Below(pool, Forecast(pool, uses, now, k).idle, Forecast(pool, uses, now, k - 1).idle)
  {
    hide Below, Dominates, ResetDue, HourStep;
    var s := Forecast(pool, uses, now, k - 1);
    ForecastDominates(pool, uses, now, k - 1);
    ResetKeepsDominance(pool, s, now + k * HOUR);
    HourLeavesIdle(s, pool, uses, now, k);
  }

  /** At every forecast hour the same-week projection is at or above the idle one,
      the idle one never rises, and both lie in [0, 100]. */
  lemma ProjectionsAreOrdered(pool: seq<Member>, uses: seq<Use>, now: int, k: nat)
    requires Proper(pool)
    ensures var s := Forecast(pool, uses, now, k);
            0.0 <= Pct(pool, s.idle) <= Pct(pool, s.level) <= 100.0 &&
            (k > 0 ==> Pct(pool, s.idle) <= Pct(pool, Forecast(pool, uses, now, k - 1).idle))
  {
    hide Proper, Below, InRange, Dominates, Pct, Forecast;
    var s := Forecast(pool, uses, now, k);
    ForecastDominates(pool, uses, now, k);
    DominanceGivesOrder(pool, s);
    PctIsMonotone(pool, s.idle, s.level);
    if k > 0 {
      var before := Forecast(pool, uses, now, k - 1);
      ForecastDominates(pool, uses, now, k - 1);
      DominanceGivesOrder(pool, before);
      IdleNeverRises(pool, uses, now, k);
      PctIsMonotone(pool, s.idle, before.idle);
    }
  }

  /** The idle line in closed form: an account keeps today's level until its own
      reset has passed, and is empty from then on. */
  lemma {:induction false} IdleLine(pool: seq<Member>, uses: seq<Use>, now: int, k: nat, i: nat)
    requires DistinctIds(pool) && i < |pool| && (pool[i].resetsAt == 0 || pool[i].resetsAt > now)
    ensures var s, a := Forecast(pool, uses, now, k), pool[i];
            var passed := a.resetsAt != 0 && a.resetsAt <= now + k * HOUR;
            At(s.idle, a.id) == (if passed then 0.0 else a.level) &&
            ResetAt(s.resetsAt, a.id) == (if passed then 0 else a.resetsAt)
  {
    hide ResetDue, HourStep, Start, InOrder;
    if k == 0 {
      StartHolds(pool, i);
    } else {
      IdleLine(pool, uses, now, k - 1, i);
      var s := Forecast(pool, uses, now, k - 1);
      HourLeavesIdle(s, pool, uses, now, k);
      MemberIsInOrder(pool, i);
      ResetDueAt(s, pool, now + k * HOUR, pool[i].id);
    }
  }

  lemma MemberIsInOrder(pool: seq<Member>, i: nat)
    requires i < |pool|
    ensures InOrder(pool, pool[i].id)
  {
  }

  lemma {:induction false} NothingMoved(order: seq<Member>, level: Levels)
    ensures Moved(order, level, level) == 0.0
  {
    if order == [] {
    } else {
      NothingMoved(order[..|order| - 1], level);
    }
  }

  /** How one hour takes the levels `before` it, resets done, to those `after` it: exactly
      the demand or all the room is poured, no account is lowered, only active ones below
      their threshold gain, up to it, and each only after all the lower ones are full. */
  ghost predicate PouredGreedily(pool: seq<Member>, before: Levels, after: Levels, pe: real) {
    var order := Order(pool, before);
    && Moved(order, before, after) == MinReal(pe, TotalRoom(order, before))
    && (forall a :: a in pool ==> At(before, a.id) <= At(after, a.id))
    && (forall a :: a in pool && At(after, a.id) > At(before, a.id) ==> a.active && At(after, a.id) <= a.th)
    && (forall a, b :: a in order && b in order && At(after, b.id) > At(before, b.id) ==>
          (At(before, a.id) < At(before, b.id) || (At(before, a.id) == At(before, b.id) && a.id < b.id) ==>
             At(after, a.id) == a.th))
  }

  /** Every forecast hour pours its demand: from the state an hour before, the accounts whose
      reset has come start again from zero and no others, and then the hour's share of last
      week's use is poured greedily, into the levels and never the idle ones. */
  lemma EveryHourPoursItsDemand(pool: seq<Member>, uses: seq<Use>, now: int, k: nat)
    requires Proper(pool) && k > 0 && HourDemand(uses, now, k) >= 0.0
    ensures var t := ResetDue(Forecast(pool, uses, now, k - 1), pool, now + k * HOUR);
            var s := Forecast(pool, uses, now, k);
            PouredGreedily(pool, t.level, s.level, HourDemand(uses, now, k)) &&
            s.idle == t.idle && s.resetsAt == t.resetsAt
  {
    hide Order, Pour, ResetDue, Moved, TotalRoom, HourDemand;
    var t := ResetDue(Forecast(pool, uses, now, k - 1), pool, now + k * HOUR);
    HourPourIsGreedy(pool, t.level, HourDemand(uses, now, k));
    OrderIsOpenAndRanked(pool, t.level);
    NothingMoved(Order(pool, t.level), t.level);
    RoomIsNotNegative(Order(pool, t.level), t.level);
  }
}
