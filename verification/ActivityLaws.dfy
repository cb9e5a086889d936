/** What the activity log records of an emit, and what a filter lets through. */
module ActivityLaws {
  import opened ActivityBus

  // ---------------------------------------------------------------- what is recorded

  /** The emits whose insert landed, in order. */
  function Landed(steps: seq<Step>): seq<Step> {
    if steps == [] then []
    else
      var step := steps[|steps| - 1];
      Landed(steps[..|steps| - 1]) + if step.Emit? && step.insert != Failed then [step] else []
  }

  /** `e` is what was emitted, under number `n`: everything the caller gave, the time of the
      emit, and "info" where no severity was given. */
  predicate IsEmitted(e: Event, step: Step, n: int) {
    step.Emit? && e.id == n && e.timestamp == step.at && e.typ == step.draft.typ &&
    e.account == step.draft.account && e.message == step.draft.message &&
    (step.draft.severity != "" ==> e.severity == step.draft.severity) &&
    (step.draft.severity == "" ==> e.severity == "info")
  }

  /** Over every run the log is exactly the emits that landed, in order, numbered from one. */
  lemma {:induction false} LogIsWhatLanded(steps: seq<Step>)
    ensures |Log(steps)| == |Landed(steps)| && Ran(steps).lastId == |Log(steps)|
    ensures forall i :: 0 <= i < |Log(steps)| ==> IsEmitted(Log(steps)[i], Landed(steps)[i], i + 1)
  {
    hide Trimmed, Newest, Hydrated;
    if steps == [] {
    } else {
      LogIsWhatLanded(steps[..|steps| - 1]);
    }
  }

  // ------------------------------------------------------------------ what is listed

  /** A listing is as long as was asked for, where there are matches enough: 200 where
      nothing was asked, never more than 1000. */
  lemma ListingLength(events: seq<Event>, f: Filter)
    ensures |Listed(events, f)| <= |Matching(events, f)|
    ensures var asked := if f.limit <= 0 then 200 else f.limit;
            if asked <= 1000 && asked <= |Matching(events, f)| then |Listed(events, f)| == asked
            else if |Matching(events, f)| <= 1000 then |Listed(events, f)| == |Matching(events, f)|
            else |Listed(events, f)| == 1000
  {
  }

  /** Without filters everything is listed; each filter set narrows that by its own test, and
      several by all of theirs. */
  lemma FiltersNarrow(events: seq<Event>, e: Event, f: Filter)
    ensures e in Matching(events, Filter(f.limit, 0, [], "")) <==> e in events
    ensures e in Matching(events, f) <==>
            e in Matching(events, Filter(f.limit, f.sinceId, [], "")) &&
            e in Matching(events, Filter(f.limit, 0, f.types, "")) &&
            e in Matching(events, Filter(f.limit, 0, [], f.severity))
    ensures f.sinceId > 0 ==>
              (e in Matching(events, Filter(f.limit, f.sinceId, [], "")) <==> e in events && e.id > f.sinceId)
    ensures f.severity != "" ==>
              (e in Matching(events, Filter(f.limit, 0, [], f.severity)) <==> e in events && e.severity == f.severity)
    ensures f.types != [] ==>
              (e in Matching(events, Filter(f.limit, 0, f.types, "")) <==>
               e in events && exists i :: 0 <= i < |f.types| && Allows(f.types[i], e.typ))
  {
    MatchingIs(events, f);
    MatchingIs(events, Filter(f.limit, 0, [], ""));
    MatchingIs(events, Filter(f.limit, f.sinceId, [], ""));
    MatchingIs(events, Filter(f.limit, 0, f.types, ""));
    MatchingIs(events, Filter(f.limit, 0, [], f.severity));
  }

  /** A type written with a trailing ".*" allows that family, "a.*" every "a." and more, and
      no longer name: neither "a" itself nor "ab.c". */
  lemma FamilyIsAllowed(family: string, typ: string)
    ensures Allows(family + ".*", typ) <==>
            typ == family + ".*" || exists rest :: typ == family + "." + rest
  {
    var allowed := family + ".*";
    assert allowed[|allowed| - 2..] == ".*" && allowed[..|allowed| - 1] == family + ".";
    if allowed[..|allowed| - 1] <= typ {
      assert typ == family + "." + typ[|family| + 1..];
    }
  }

  /** Any other type allows just itself. */
  lemma PlainTypeIsExact(allowed: string, typ: string)
    requires |allowed| < 2 || allowed[|allowed| - 1] != '*' || allowed[|allowed| - 2] != '.'
    ensures Allows(allowed, typ) <==> typ == allowed
  {
    if |allowed| >= 2 {
      var tail := allowed[|allowed| - 2..];
      assert tail[0] == allowed[|allowed| - 2] && tail[1] == allowed[|allowed| - 1];
    }
  }
}
