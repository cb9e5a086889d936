/** Picking the next account of a provider's pool. */
module Selector {
  import opened Options

  type AccountId = int
  type DeviceId = int
  const NO_DEVICE: DeviceId := 0

  /** One usage window; unmeasured while the service has not reported it. */
  datatype Window = Window(util: real, threshold: real, measured: bool)

  datatype Account = Account(id: AccountId, active: bool, expiresAt: int, fiveHour: Window, sevenDay: Window,
                             scoped: Window, pinnedDevice: DeviceId, lastUsedAt: int)

  predicate TokenExpired(a: Account, now: int) { a.expiresAt > 0 && a.expiresAt <= now }

  predicate Reached(w: Window) { w.measured && w.util >= w.threshold }

  predicate HardThreshold(a: Account) { Reached(a.fiveHour) || Reached(a.sevenDay) }

  predicate ScopedThreshold(a: Account) { Reached(a.scoped) }

  predicate IsEligible(a: Account, now: int) { a.active && !TokenExpired(a, now) && !HardThreshold(a) }

  predicate PinnedFor(a: Account, device: DeviceId) { device != NO_DEVICE && a.pinnedDevice == device }

  /** Time takes eligibility away only at the token's known expiry, and never gives it. */
  lemma EligibleUntilExpiry(a: Account, now: int, later: int)
    requires now <= later
    ensures IsEligible(a, later) <==> IsEligible(a, now) && !(0 < a.expiresAt <= later)
    ensures IsEligible(a, now) ==> a.active
  {
  }

  /** Of two accounts alike but for usage, the one with less in both measured windows is
      eligible if the other is; a window not measured never counts, nor does the scoped one. */
  lemma LessUseIsEligible(a: Account, b: Account, now: int)
    requires a == b.(fiveHour := a.fiveHour, sevenDay := a.sevenDay, scoped := a.scoped)
    requires a.fiveHour == b.fiveHour.(util := a.fiveHour.util) || !a.fiveHour.measured
    requires a.sevenDay == b.sevenDay.(util := a.sevenDay.util) || !a.sevenDay.measured
    ensures IsEligible(b, now) && a.fiveHour.util <= b.fiveHour.util && a.sevenDay.util <= b.sevenDay.util ==>
              IsEligible(a, now)
    ensures IsEligible(a, now) && a.fiveHour.measured ==> a.fiveHour.util < a.fiveHour.threshold
    ensures IsEligible(a, now) && a.sevenDay.measured ==> a.sevenDay.util < a.sevenDay.threshold
    ensures b.active && !TokenExpired(b, now) && !a.fiveHour.measured && !a.sevenDay.measured ==> IsEligible(a, now)
  {
  }

  // -------------------------------------------------------------------- the ranking

  /** Pinned here, then within the scoped cap, then most weekly headroom, then least
      recently used, then by id. */
  predicate RanksBefore(a: Account, b: Account, device: DeviceId) {
    if PinnedFor(a, device) != PinnedFor(b, device) then PinnedFor(a, device)
    else if ScopedThreshold(a) != ScopedThreshold(b) then !ScopedThreshold(a)
    else if a.sevenDay.util != b.sevenDay.util then a.sevenDay.util < b.sevenDay.util
    else if a.lastUsedAt != b.lastUsedAt then a.lastUsedAt < b.lastUsedAt
    else a.id < b.id
  }

  /** The ranking is a strict total order on accounts with distinct ids. */
  lemma RankingIsStrictTotalOrder(a: Account, b: Account, c: Account, device: DeviceId)
    ensures !RanksBefore(a, a, device)
    ensures RanksBefore(a, b, device) ==> !RanksBefore(b, a, device)
    ensures RanksBefore(a, b, device) && RanksBefore(b, c, device) ==> RanksBefore(a, c, device)
    ensures a.id != b.id ==> RanksBefore(a, b, device) || RanksBefore(b, a, device)
  {
  }

  ghost predicate DistinctIds(accs: seq<Account>) {
    forall i, j :: 0 <= i < j < |accs| ==> accs[i].id != accs[j].id
  }

  ghost predicate Ranked(accs: seq<Account>, device: DeviceId) {
    forall i, j :: 0 <= i < j < |accs| ==> !RanksBefore(accs[j], accs[i], device)
  }

  /** Better than every other of them. */
  ghost predicate IsBest(a: Account, accs: seq<Account>, device: DeviceId) {
    a in accs && forall b :: b in accs && b != a ==> RanksBefore(a, b, device)
  }

  // ------------------------------------------------------------------ the candidates

  predicate IsCandidate(a: Account, now: int, skip: Account -> bool) { IsEligible(a, now) && !skip(a) }

  function Candidates(accs: seq<Account>, now: int, skip: Account -> bool): seq<Account> {
    if accs == [] then []
    else
      var a := accs[|accs| - 1];
      Candidates(accs[..|accs| - 1], now, skip) + if IsCandidate(a, now, skip) then [a] else []
  }

  lemma {:induction false} CandidatesAre(accs: seq<Account>, now: int, skip: Account -> bool)
    ensures forall a :: a in Candidates(accs, now, skip) <==> a in accs && IsCandidate(a, now, skip)
    ensures DistinctIds(accs) ==> DistinctIds(Candidates(accs, now, skip))
    ensures |Candidates(accs, now, skip)| <= |accs|
  {
    if accs == [] {
    } else {
      var n := |accs| - 1;
      CandidatesAre(accs[..n], now, skip);
      assert accs == accs[..n] + [accs[n]];
      if DistinctIds(accs) {
        assert DistinctIds(accs[..n]);
        forall i | 0 <= i < |Candidates(accs[..n], now, skip)|
          ensures Candidates(accs[..n], now, skip)[i].id != accs[n].id
        {
          assert Candidates(accs[..n], now, skip)[i] in accs[..n];
        }
      }
    }
  }

  /** The filter as it runs, over the slice's own storage. */
  method FilterInPlace(accs: array<Account>, now: int, skip: Account -> bool) returns (n: nat)
    modifies accs
    ensures n <= accs.Length && accs[..n] == Candidates(old(accs[..]), now, skip)
  {
    n := 0;
    ghost var was := accs[..];
    for i := 0 to accs.Length
      invariant n <= i && accs[..n] == Candidates(was[..i], now, skip)
      invariant accs[i..] == was[i..]
    {
      assert was[..i + 1][..i] == was[..i] && accs[i] == accs[i..][0] == was[i];
      ghost var kept := accs[..n];
      var a := accs[i];
      if IsCandidate(a, now, skip) {
        accs[n] := a;
        assert accs[..n + 1] == kept + [a];
        n := n + 1;
      }
      assert accs[i + 1..] == was[i..][1..];
    }
    assert was[..accs.Length] == was;
  }

  // ------------------------------------------------------------------------- picking

  function Place(order: seq<Account>, a: Account, device: DeviceId): (r: seq<Account>)
    ensures multiset(r) == multiset(order) + multiset{a}
  {
    if order == [] then [a]
    else
      var n := |order| - 1;
      assert order == order[..n] + [order[n]];
      if RanksBefore(a, order[n], device) then Place(order[..n], a, device) + [order[n]] else order + [a]
  }

  /** Any sort would do: see SortedHeadIsBest. */
  function Sorted(accs: seq<Account>, device: DeviceId): (r: seq<Account>)
    ensures multiset(r) == multiset(accs)
  {
    if accs == [] then []
    else
      var n := |accs| - 1;
      assert accs == accs[..n] + [accs[n]];
      Place(Sorted(accs[..n], device), accs[n], device)
  }

  lemma {:induction false} PlaceKeepsRank(order: seq<Account>, a: Account, device: DeviceId)
    requires Ranked(order, device)
    ensures Ranked(Place(order, a, device), device)
  {
    if order == [] {
    } else {
      var n := |order| - 1;
      if RanksBefore(a, order[n], device) {
        PlaceKeepsRank(order[..n], a, device);
        var placed := Place(order[..n], a, device);
        forall i | 0 <= i < |placed|
          ensures !RanksBefore(order[n], placed[i], device)
        {
          assert placed[i] in multiset(placed);
          if placed[i] == a {
            RankingIsStrictTotalOrder(a, order[n], a, device);
          } else {
            assert placed[i] in order[..n];
          }
        }
      } else {
        NoneBeforeTail(order, a, device);
      }
    }
  }

  lemma NoneBeforeTail(order: seq<Account>, a: Account, device: DeviceId)
    requires order != [] && Ranked(order, device) && !RanksBefore(a, order[|order| - 1], device)
    ensures forall i :: 0 <= i < |order| ==> !RanksBefore(a, order[i], device)
  {
    forall i | 0 <= i < |order|
      ensures !RanksBefore(a, order[i], device)
    {
      NotBeforeIsTransitive(a, order[|order| - 1], order[i], device);
    }
  }

  lemma NotBeforeIsTransitive(a: Account, b: Account, c: Account, device: DeviceId)
    requires !RanksBefore(a, b, device) && (b == c || !RanksBefore(b, c, device))
    ensures !RanksBefore(a, c, device)
  {
  }

  lemma {:induction false} SortedIsRanked(accs: seq<Account>, device: DeviceId)
    ensures Ranked(Sorted(accs, device), device)
  {
    if accs == [] {
    } else {
      var n := |accs| - 1;
      SortedIsRanked(accs[..n], device);
      PlaceKeepsRank(Sorted(accs[..n], device), accs[n], device);
    }
  }

  /** The head of any ranked arrangement of the candidates is their one best. */
  lemma SortedHeadIsBest(accs: seq<Account>, order: seq<Account>, device: DeviceId)
    requires DistinctIds(accs) && accs != [] && multiset(order) == multiset(accs) && Ranked(order, device)
    ensures |order| > 0 && IsBest(order[0], accs, device)
    ensures forall b :: IsBest(b, accs, device) ==> b == order[0]
  {
    assert accs[0] in multiset(order);
    assert order[0] in multiset(accs);
    forall b | b in accs && b != order[0]
      ensures RanksBefore(order[0], b, device)
    {
      assert b in multiset(order);
      var j :| 0 <= j < |order| && order[j] == b;
      var x :| 0 <= x < |accs| && accs[x] == b;
      var y :| 0 <= y < |accs| && accs[y] == order[0];
      RankingIsStrictTotalOrder(order[0], b, b, device);
    }
    forall b | IsBest(b, accs, device)
      ensures b == order[0]
    {
      RankingIsStrictTotalOrder(b, order[0], b, device);
    }
  }

  /** The pool's pick: the unique best candidate, and none exactly when there is no
      candidate. */
  method PickProviderWithFilter(accs: array<Account>, now: int, device: DeviceId, skip: Account -> bool)
    returns (pick: Option<Account>)
    requires DistinctIds(accs[..])
    modifies accs
    ensures pick.None? <==> forall a :: a in old(accs[..]) ==> !IsCandidate(a, now, skip)
    ensures pick.Some? ==> IsBest(pick.value, Candidates(old(accs[..]), now, skip), device)
  {
    ghost var was := accs[..];
    CandidatesAre(was, now, skip);
    var n := FilterInPlace(accs, now, skip);
    var candidates := accs[..n];
    if n == 0 {
      assert forall a :: a in was ==> a !in candidates;
      return None;
    }
    SortedIsRanked(candidates, device);
    SortedHeadIsBest(candidates, Sorted(candidates, device), device);
    assert candidates[0] in was && IsCandidate(candidates[0], now, skip);
    return Some(Sorted(candidates, device)[0]);
  }

  /** What the best candidate says of the others: a pin for this device comes first,
      and a scoped-capped account is taken over a scoped-OK one only by such a pin. */
  lemma BestRespectsTiers(a: Account, b: Account, candidates: seq<Account>, device: DeviceId)
    requires IsBest(a, candidates, device) && b in candidates
    ensures PinnedFor(b, device) ==> PinnedFor(a, device)
    ensures ScopedThreshold(a) && !ScopedThreshold(b) ==> PinnedFor(a, device) && !PinnedFor(b, device)
    ensures PinnedFor(a, device) == PinnedFor(b, device) && ScopedThreshold(a) == ScopedThreshold(b) ==>
            a.sevenDay.util <= b.sevenDay.util &&
            (a.sevenDay.util == b.sevenDay.util ==>
               a.lastUsedAt <= b.lastUsedAt && (a.lastUsedAt == b.lastUsedAt ==> a.id <= b.id))
  {
    assert b != a ==> RanksBefore(a, b, device);
  }

  /** An account pinned for another device is ranked as if it were not pinned. */
  lemma ForeignPinIsIgnored(a: Account, b: Account, device: DeviceId, other: DeviceId)
    requires other != device && a.pinnedDevice == other
    ensures RanksBefore(a, b, device) == RanksBefore(a.(pinnedDevice := NO_DEVICE), b, device)
    ensures RanksBefore(b, a, device) == RanksBefore(b, a.(pinnedDevice := NO_DEVICE), device)
  {
  }
}
