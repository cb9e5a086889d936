/** The activity log: a persisted table, the in-memory ring that mirrors it, and the
    listing that reads the ring. */
module ActivityBus {

  const RING_CAPACITY: nat := 1000
  const DEFAULT_LIMIT: nat := 200
  const INFO := "info"

  datatype Event = Event(id: int, timestamp: int, typ: string, severity: string, account: int, message: string)

  /** The last `RING_CAPACITY` events. */
  function Newest(events: seq<Event>): seq<Event> {
    if |events| > RING_CAPACITY then events[|events| - RING_CAPACITY..] else events
  }

  ghost predicate InIdOrder(events: seq<Event>) {
    forall i, j :: 0 <= i < j < |events| ==> events[i].id < events[j].id
  }

  function Reversed(events: seq<Event>): (r: seq<Event>)
    ensures |r| == |events| && forall i :: 0 <= i < |r| ==> r[i] == events[|events| - 1 - i]
  {
    if events == [] then [] else [events[|events| - 1]] + Reversed(events[..|events| - 1])
  }

  // ------------------------------------------------------------------------ the database

  /** Rows with an id above `id`. */
  function Above(table: seq<Event>, id: int): seq<Event> {
    if table == [] then []
    else
      var e := table[|table| - 1];
      Above(table[..|table| - 1], id) + if e.id > id then [e] else []
  }

  /** The trim: delete every row up to the 1001st newest, when there is one. */
  function Trimmed(table: seq<Event>): seq<Event> {
    if |table| > RING_CAPACITY then Above(table, table[|table| - 1 - RING_CAPACITY].id) else table
  }

  lemma {:induction false} AboveIsSuffix(table: seq<Event>, k: nat)
    requires InIdOrder(table) && k < |table|
    ensures Above(table, table[k].id) == table[k + 1..]
  {
    var n := |table| - 1;
    if k == n {
      NoneAbove(table, table[k].id);
    } else {
      AboveIsSuffix(table[..n], k);
    }
  }

  lemma {:induction false} NoneAbove(table: seq<Event>, id: int)
    requires forall i :: 0 <= i < |table| ==> table[i].id <= id
    ensures Above(table, id) == []
  {
    if table != [] {
      NoneAbove(table[..|table| - 1], id);
    }
  }

  /** Trimming a table in id order leaves exactly its newest rows. */
  lemma TrimmedIsNewest(table: seq<Event>)
    requires InIdOrder(table)
    ensures Trimmed(table) == Newest(table)
  {
    if |table| > RING_CAPACITY {
      AboveIsSuffix(table, |table| - 1 - RING_CAPACITY);
    }
  }

  // -------------------------------------------------------------------------- filtering

  datatype Filter = Filter(limit: int, sinceId: int, types: seq<string>, severity: string)

  /** An exact type, or a prefix written with a trailing ".*". */
  predicate Allows(allowed: string, typ: string) {
    allowed == typ || (|allowed| >= 2 && allowed[|allowed| - 2..] == ".*" && allowed[..|allowed| - 1] <= typ)
  }

  predicate TypeMatches(typ: string, allowed: seq<string>) {
    exists i :: 0 <= i < |allowed| && Allows(allowed[i], typ)
  }

  predicate Matches(e: Event, f: Filter) {
    && (f.sinceId > 0 ==> e.id > f.sinceId)
    && (f.severity != "" ==> e.severity == f.severity)
    && (|f.types| > 0 ==> TypeMatches(e.typ, f.types))
  }

  function Limit(f: Filter): nat {
    if f.limit <= 0 then DEFAULT_LIMIT else if f.limit > RING_CAPACITY then RING_CAPACITY else f.limit
  }

  /** Matching events, newest first. */
  function Matching(events: seq<Event>, f: Filter): seq<Event> {
    if events == [] then []
    else
      var e := events[|events| - 1];
      (if Matches(e, f) then [e] else []) + Matching(events[..|events| - 1], f)
  }

  function Capped(events: seq<Event>, limit: nat): seq<Event> {
    if |events| > limit then events[..limit] else events
  }

  ghost predicate NewestFirst(events: seq<Event>) {
    forall i, j :: 0 <= i < j < |events| ==> events[i].id > events[j].id
  }

  /** What a listing shows of a table: its matching rows, newest first, to the limit. */
  function Listed(events: seq<Event>, f: Filter): seq<Event> { Capped(Matching(events, f), Limit(f)) }

  lemma {:induction false} MatchingIs(events: seq<Event>, f: Filter)
    ensures forall e :: e in Matching(events, f) <==> e in events && Matches(e, f)
    ensures InIdOrder(events) ==> NewestFirst(Matching(events, f))
  {
    if events == [] {
    } else {
      var n := |events| - 1;
      MatchingIs(events[..n], f);
      assert events == events[..n] + [events[n]];
      if InIdOrder(events) {
        assert InIdOrder(events[..n]);
        forall e | e in Matching(events[..n], f)
          ensures e.id < events[n].id
        {
          assert e in events[..n];
        }
      }
    }
  }

  /** A listing holds only matches, newest first, and leaves a match out only when it
      is full of newer ones: a poll that is not full has seen every new event. */
  lemma ListedIsNewestMatches(events: seq<Event>, f: Filter, e: Event)
    requires InIdOrder(events)
    ensures forall x :: x in Listed(events, f) ==> x in events && Matches(x, f)
    ensures NewestFirst(Listed(events, f))
    ensures e in events && Matches(e, f) && e !in Listed(events, f) ==>
            |Listed(events, f)| == Limit(f) && forall x :: x in Listed(events, f) ==> x.id > e.id
  {
    var all := Matching(events, f);
    MatchingIs(events, f);
    if e in all && e !in Listed(events, f) {
      var k :| 0 <= k < |all| && all[k] == e;
    }
  }

  // ------------------------------------------------------------------------------ a run

  /** What an emit is given; id and timestamp are the bus's own. */
  datatype Draft = Draft(typ: string, severity: string, account: int, message: string)

  /** What became of an insert: it failed, it landed but its id could not be read, or it
      landed under a known id. */
  datatype Insert = Failed | Unnamed | Named

  /** An emit whose insert and trim may fail, or a restart of the daemon. */
  datatype Step = Emit(draft: Draft, at: int, insert: Insert, trimmed: bool) | Restart

  datatype State = State(table: seq<Event>, lastId: int, ring: seq<Event>)

  const EMPTY := State([], 0, [])

  function Stamped(draft: Draft, id: int, at: int): Event {
    Event(id, at, draft.typ, if draft.severity == "" then INFO else draft.severity, draft.account, draft.message)
  }

  /** The newest rows, oldest first, as a restart reads them back. */
  function Hydrated(table: seq<Event>): seq<Event> { Reversed(Reversed(Newest(table))) }

  function Stepped(s: State, step: Step): State {
    match step
    case Emit(draft, at, insert, trimmed) =>
      if insert == Failed then s
      else
        var e := Stamped(draft, s.lastId + 1, at);
        var table := s.table + [e];
        if insert == Unnamed then State(table, s.lastId + 1, s.ring)
        else State(if trimmed then Trimmed(table) else table, s.lastId + 1, Newest(s.ring + [e]))
    case Restart => s.(ring := Hydrated(s.table))
  }

  function Ran(steps: seq<Step>): State {
    if steps == [] then EMPTY else Stepped(Ran(steps[..|steps| - 1]), steps[|steps| - 1])
  }

  /** What a step adds to the history. */
  function Logged(s: State, step: Step): seq<Event> {
    if step.Emit? && step.insert != Failed then [Stamped(step.draft, s.lastId + 1, step.at)] else []
  }

  /** Every event that was ever persisted, in id order: the history the table forgets. */
  function Log(steps: seq<Step>): seq<Event> {
    if steps == [] then []
    else
      var init := steps[..|steps| - 1];
      Log(init) + Logged(Ran(init), steps[|steps| - 1])
  }

  /** The events the daemon has had in hand: those emitted under a known id, and all that
      a restart could read back. */
  function Seen(steps: seq<Step>): seq<Event> {
    if steps == [] then []
    else
      var init, step := steps[..|steps| - 1], steps[|steps| - 1];
      match step
      case Emit(_, _, insert, _) => Seen(init) + if insert == Named then Logged(Ran(init), step) else []
      case Restart => Log(init)
  }

  ghost predicate IsSuffix(table: seq<Event>, log: seq<Event>) {
    |table| <= |log| && table == log[|log| - |table|..]
  }

  ghost predicate UpTo(log: seq<Event>, id: int) { forall i :: 0 <= i < |log| ==> log[i].id <= id }

  /** The table is a tail of the log, and long enough. */
  ghost predicate Agrees(s: State, log: seq<Event>) {
    InIdOrder(log) && UpTo(log, s.lastId) && IsSuffix(s.table, log) && |s.table| >= |Newest(log)|
  }

  /** Events of the log, in its order. */
  ghost predicate Knows(seen: seq<Event>, log: seq<Event>) { InIdOrder(seen) && forall e :: e in seen ==> e in log }

  lemma NewestGrows(log: seq<Event>, e: Event)
    ensures Newest(Newest(log) + [e]) == Newest(log + [e])
  {
  }

  lemma NewestOfSuffix(table: seq<Event>, log: seq<Event>)
    requires IsSuffix(table, log) && |table| >= |Newest(log)|
    ensures Newest(table) == Newest(log)
  {
  }

  lemma OrderGrows(log: seq<Event>, id: int, e: Event)
    requires InIdOrder(log) && UpTo(log, id) && e.id == id + 1
    ensures InIdOrder(log + [e]) && UpTo(log + [e], id + 1)
  {
  }

  lemma SuffixGrows(table: seq<Event>, log: seq<Event>, e: Event)
    requires IsSuffix(table, log) && |table| >= |Newest(log)|
    ensures IsSuffix(table + [e], log + [e]) && |table + [e]| >= |Newest(log + [e])|
  {
  }

  lemma SuffixIsInOrder(table: seq<Event>, log: seq<Event>)
    requires IsSuffix(table, log) && InIdOrder(log)
    ensures InIdOrder(table)
  {
  }

  lemma NewestIsSuffix(log: seq<Event>)
    ensures IsSuffix(Newest(log), log)
  {
  }

  /** An insert that landed, trimmed after or not. */
  lemma EmitKeepsAgreement(s: State, log: seq<Event>, draft: Draft, at: int, insert: Insert, trimmed: bool)
    requires Agrees(s, log) && insert != Failed
    ensures Agrees(Stepped(s, Emit(draft, at, insert, trimmed)), log + [Stamped(draft, s.lastId + 1, at)])
    ensures insert == Named && trimmed ==>
              Stepped(s, Emit(draft, at, insert, trimmed)).table == Newest(log + [Stamped(draft, s.lastId + 1, at)])
  {
    hide IsSuffix, Newest, InIdOrder, UpTo, Trimmed;
    var e := Stamped(draft, s.lastId + 1, at);
    OrderGrows(log, s.lastId, e);
    SuffixGrows(s.table, log, e);
    SuffixIsInOrder(s.table + [e], log + [e]);
    TrimmedIsNewest(s.table + [e]);
    NewestOfSuffix(s.table + [e], log + [e]);
    NewestIsSuffix(log + [e]);
  }

  lemma RestartReadsNewest(s: State, log: seq<Event>)
    requires Agrees(s, log)
    ensures Agrees(Stepped(s, Restart), log) && Stepped(s, Restart).ring == Newest(log)
  {
    NewestOfSuffix(s.table, log);
    assert Hydrated(s.table) == Newest(s.table);
  }

  lemma StepKeepsAgreement(s: State, log: seq<Event>, step: Step)
    requires Agrees(s, log)
    ensures Agrees(Stepped(s, step), log + Logged(s, step))
    ensures s.table == Newest(log) && (step.Emit? ==> step.insert == Named && step.trimmed) ==>
            Stepped(s, step).table == Newest(log + Logged(s, step))
  {
    hide Agrees, Newest, Trimmed, Hydrated, Stamped;
    assert log + [] == log;
    if step.Restart? {
      RestartReadsNewest(s, log);
    } else if step.insert != Failed {
      EmitKeepsAgreement(s, log, step.draft, step.at, step.insert, step.trimmed);
    }
  }

  /** Over any run of emits and restarts, whatever fails, the table is a tail of all that
      was ever persisted and holds at least the newest 1000, in id order. */
  lemma {:induction false} TableIsTailOfLog(steps: seq<Step>)
    ensures Agrees(Ran(steps), Log(steps))
  {
    hide Stepped, Logged;
    if steps == [] {
    } else {
      hide Agrees;
      var init := steps[..|steps| - 1];
      TableIsTailOfLog(init);
      StepKeepsAgreement(Ran(init), Log(init), steps[|steps| - 1]);
    }
  }

  lemma InLogIsIn(seen: seq<Event>, log: seq<Event>, id: int, i: nat)
    requires Knows(seen, log) && UpTo(log, id) && i < |seen|
    ensures seen[i].id <= id
  {
    assert seen[i] in log;
  }

  lemma KnowsMore(seen: seq<Event>, log: seq<Event>, id: int, e: Event)
    requires Knows(seen, log) && UpTo(log, id) && e.id == id + 1
    ensures Knows(seen + [e], log + [e]) && Knows(seen, log + [e])
  {
    forall i | 0 <= i < |seen|
      ensures seen[i].id <= id
    {
      InLogIsIn(seen, log, id, i);
    }
  }

  lemma KnowsItself(s: State, log: seq<Event>)
    requires Agrees(s, log)
    ensures Knows(log, log)
  {
  }

  lemma NothingLogged(s: State, log: seq<Event>)
    ensures log + Logged(s, Restart) == log
  {
  }

  lemma SeenAfterEmit(s: State, seen: seq<Event>, log: seq<Event>, step: Step)
    requires Agrees(s, log) && Knows(seen, log) && s.ring == Newest(seen) && step.Emit?
    ensures var more := if step.insert == Named then seen + Logged(s, step) else seen;
            Stepped(s, step).ring == Newest(more) && Knows(more, log + Logged(s, step))
  {
    hide Newest, Trimmed, Knows, InIdOrder, IsSuffix;
    assert log + [] == log;
    if step.insert != Failed {
      var e := Stamped(step.draft, s.lastId + 1, step.at);
      KnowsMore(seen, log, s.lastId, e);
      NewestGrows(seen, e);
    }
  }

  /** And the ring is exactly the newest of the events the daemon has had in hand. */
  lemma {:induction false} RingIsNewestSeen(steps: seq<Step>)
    ensures Ran(steps).ring == Newest(Seen(steps)) && Knows(Seen(steps), Log(steps))
  {
    hide Stepped, Logged;
    if steps == [] {
    } else {
      hide Newest, Knows, Agrees;
      var init, step := steps[..|steps| - 1], steps[|steps| - 1];
      var s, seen, log := Ran(init), Seen(init), Log(init);
      RingIsNewestSeen(init);
      TableIsTailOfLog(init);
      if step.Restart? {
        RestartReadsNewest(s, log);
        KnowsItself(s, log);
        NothingLogged(s, log);
      } else {
        SeenAfterEmit(s, seen, log, step);
        assert seen + [] == seen;
      }
    }
  }

  lemma LastIsLast(seen: seq<Event>, log: seq<Event>, last: Event)
    requires Knows(seen, log + [last]) && InIdOrder(log + [last]) && last in seen
    ensures seen != [] && seen[|seen| - 1] == last && Knows(seen[..|seen| - 1], log)
  {
    var all, m := log + [last], |seen| - 1;
    assert seen[m] in all && all[|log|] == last;
    assert seen[m].id <= last.id;
    var rest := seen[..m];
    forall e | e in rest
      ensures e in log
    {
      assert e in seen && e.id < seen[m].id;
      assert e in all;
    }
  }

  lemma SeenBefore(seen: seq<Event>, tail: seq<Event>, last: Event)
    requires InIdOrder(tail + [last]) && seen != [] && seen[|seen| - 1] == last
    requires forall e :: e in tail ==> e in seen
    ensures var rest := seen[..|seen| - 1]; forall e :: e in tail ==> e in rest
  {
    var all, rest := tail + [last], seen[..|seen| - 1];
    assert all[|tail|] == last && seen == rest + [last];
    forall i | 0 <= i < |tail|
      ensures tail[i] in rest
    {
      assert all[i] == tail[i] && tail[i] in tail;
      assert tail[i] in rest + [last];
    }
  }

  lemma SuffixIsIn(head: seq<Event>, tail: seq<Event>)
    ensures InIdOrder(head + tail) ==> InIdOrder(head) && InIdOrder(tail)
  {
    assert forall i :: 0 <= i < |tail| ==> (head + tail)[|head| + i] == tail[i];
    assert forall i :: 0 <= i < |head| ==> (head + tail)[i] == head[i];
  }

  /** If the last events of the log were all seen, they are the last that were seen. */
  lemma {:induction false} SeenTail(seen: seq<Event>, head: seq<Event>, tail: seq<Event>)
    requires Knows(seen, head + tail) && InIdOrder(head + tail) && forall e :: e in tail ==> e in seen
    ensures IsSuffix(tail, seen) && (head == [] ==> seen == tail)
  {
    if tail == [] {
      if seen != [] {
        assert seen[0] in head + tail;
      }
    } else {
      var n := |tail| - 1;
      var init, last := tail[..n], tail[n];
      assert tail == init + [last] && head + tail == (head + init) + [last];
      LastIsLast(seen, head + init, last);
      SuffixIsIn(head, tail);
      SuffixIsIn(head + init, [last]);
      SeenBefore(seen, init, last);
      var rest := seen[..|seen| - 1];
      SeenTail(rest, head, init);
      assert seen == rest + [last];
      SuffixStep(init, rest, last);
    }
  }

  lemma SuffixStep(table: seq<Event>, log: seq<Event>, e: Event)
    requires IsSuffix(table, log)
    ensures IsSuffix(table + [e], log + [e])
  {
  }

  /** Over any run, with inserts, ids and trims failing at will: the ring holds exactly
      the newest 1000 events ever persisted if and only if the daemon has had each of them
      in hand, emitted under a known id or read back by a restart. */
  lemma RingIsNewestOfLog(steps: seq<Step>)
    ensures Ran(steps).ring == Newest(Log(steps)) <==> forall e :: e in Newest(Log(steps)) ==> e in Seen(steps)
  {
    hide Ran, Log, Seen;
    var seen, log := Seen(steps), Log(steps);
    RingIsNewestSeen(steps);
    TableIsTailOfLog(steps);
    if forall e :: e in Newest(log) ==> e in seen {
      var head := log[..|log| - |Newest(log)|];
      assert log == head + Newest(log);
      SeenTail(seen, head, Newest(log));
    }
  }

  /** With every insert named or failed, that is always so. */
  lemma {:induction false} NamedAreSeen(steps: seq<Step>)
    requires forall i :: 0 <= i < |steps| && steps[i].Emit? ==> steps[i].insert != Unnamed
    ensures Seen(steps) == Log(steps) && Ran(steps).ring == Newest(Log(steps))
  {
    RingIsNewestSeen(steps);
    if steps == [] {
    } else {
      var init := steps[..|steps| - 1];
      assert forall i :: 0 <= i < |init| ==> init[i] == steps[i];
      NamedAreSeen(init);
      assert Log(init) + [] == Log(init);
    }
  }

  /** A restart makes up for every id that could not be read. */
  lemma RestartCatchesUp(steps: seq<Step>)
    ensures Ran(steps + [Restart]).ring == Newest(Log(steps + [Restart]))
  {
    var run := steps + [Restart];
    assert run[..|run| - 1] == steps && Log(steps) + [] == Log(steps);
    TableIsTailOfLog(steps);
    RestartReadsNewest(Ran(steps), Log(steps));
  }

  ghost predicate AllWritesSucceed(steps: seq<Step>) {
    forall i :: 0 <= i < |steps| && steps[i].Emit? ==> steps[i].insert == Named && steps[i].trimmed
  }

  lemma {:induction false} TableIsNewestOfLog(steps: seq<Step>)
    requires AllWritesSucceed(steps)
    ensures Ran(steps).table == Newest(Log(steps))
  {
    hide Stepped, Logged, Agrees;
    if steps == [] {
    } else {
      hide Newest;
      var init := steps[..|steps| - 1];
      assert AllWritesSucceed(init);
      TableIsNewestOfLog(init);
      TableIsTailOfLog(init);
      StepKeepsAgreement(Ran(init), Log(init), steps[|steps| - 1]);
    }
  }

  /** With every database write succeeding, the ring equals the table: both are the
      newest 1000 events, and a listing of one is the listing of the other. */
  lemma RingEqualsTable(steps: seq<Step>, f: Filter)
    requires AllWritesSucceed(steps)
    ensures Ran(steps).ring == Ran(steps).table == Newest(Log(steps)) && InIdOrder(Log(steps))
    ensures Listed(Ran(steps).ring, f) == Listed(Ran(steps).table, f)
  {
    hide Ran, Log, Newest, Listed;
    NamedAreSeen(steps);
    TableIsTailOfLog(steps);
    TableIsNewestOfLog(steps);
  }

  /** A failed trim is made up for: after the next emit that trims, the table is again
      exactly the newest 1000 events. */
  lemma TrimCatchesUp(steps: seq<Step>, draft: Draft, at: int)
    ensures var run := steps + [Emit(draft, at, Named, true)]; Ran(run).table == Newest(Log(run))
  {
    var run := steps + [Emit(draft, at, Named, true)];
    assert run[..|run| - 1] == steps;
    TableIsTailOfLog(steps);
    EmitKeepsAgreement(Ran(steps), Log(steps), draft, at, Named, true);
  }

  // ------------------------------------------------------------------------ as it runs

  class Bus {
    var table: seq<Event>
    var lastId: int
    var ring: seq<Event>

    constructor ()
      ensures Value() == EMPTY
    {
      table, lastId, ring := [], 0, [];
    }

    function Value(): State
      reads this
    {
      State(table, lastId, ring)
    }

    /** Reads the newest rows and turns them around in place. */
    method Hydrate()
      modifies this
      ensures Value() == Stepped(old(Value()), Restart)
    {
      var query := Reversed(Newest(table));
      var newest := new Event[|query|](i requires 0 <= i < |query| => query[i]);
      assert newest[..] == query;
      ReverseInPlace(newest);
      ring := newest[..];
    }

    method Emit(draft: Draft, at: int, insert: Insert, trimmed: bool)
      modifies this
      ensures Value() == Stepped(old(Value()), Step.Emit(draft, at, insert, trimmed))
    {
      if insert == Failed {
        return;
      }
      var severity := draft.severity;
      if severity == "" {
        severity := INFO;
      }
      lastId := lastId + 1;
      var ev := Event(lastId, at, draft.typ, severity, draft.account, draft.message);
      table := table + [ev];
      if insert == Unnamed {
        return;
      }
      if trimmed {
        table := Trimmed(table);
      }
      ring := ring + [ev];
      if |ring| > RING_CAPACITY {
        ring := ring[|ring| - RING_CAPACITY..];
      }
    }

    /** The backward scan that stops at the limit. */
    method List(f: Filter) returns (out: seq<Event>)
      ensures out == Listed(ring, f)
    {
      var limit := f.limit;
      if limit <= 0 {
        limit := DEFAULT_LIMIT;
      }
      if limit > RING_CAPACITY {
        limit := RING_CAPACITY;
      }
      out := [];
      var i := |ring|;
      MatchingWhole(ring, f);
      while i > 0
        invariant 0 <= i <= |ring| && |out| < limit == Limit(f)
        invariant Matching(ring, f) == out + Matching(ring[..i], f)
      {
        MatchingStep(ring, i, f, out);
        i := i - 1;
        var ev := ring[i];
        if f.sinceId > 0 && ev.id <= f.sinceId {
          continue;
        }
        if f.severity != "" && ev.severity != f.severity {
          continue;
        }
        if |f.types| > 0 {
          var ok := MatchType(ev.typ, f.types);
          if !ok {
            continue;
          }
        }
        out := out + [ev];
        if |out| >= limit {
          CappedThere(out, Matching(ring[..i], f));
          return;
        }
      }
    }
  }

  lemma MatchingWhole(ring: seq<Event>, f: Filter)
    ensures Matching(ring, f) == [] + Matching(ring[..|ring|], f)
  {
    assert ring[..|ring|] == ring;
  }

  lemma MatchingStep(ring: seq<Event>, i: nat, f: Filter, out: seq<Event>)
    requires 0 < i <= |ring|
    ensures out + Matching(ring[..i], f) ==
            (if Matches(ring[i - 1], f) then out + [ring[i - 1]] else out) + Matching(ring[..i - 1], f)
  {
    assert ring[..i][..i - 1] == ring[..i - 1];
  }

  lemma CappedThere(out: seq<Event>, rest: seq<Event>)
    ensures Capped(out + rest, |out|) == out
  {
  }

  method MatchType(typ: string, allowed: seq<string>) returns (ok: bool)
    ensures ok == TypeMatches(typ, allowed)
  {
    for i := 0 to |allowed|
      invariant forall j :: 0 <= j < i ==> !Allows(allowed[j], typ)
    {
      if Allows(allowed[i], typ) {
        return true;
      }
    }
    return false;
  }

  method ReverseInPlace(a: array<Event>)
    modifies a
    ensures a[..] == Reversed(old(a[..]))
  {
    var i, j := 0, a.Length - 1;
    while i < j
      invariant 0 <= i <= a.Length && j == a.Length - 1 - i && i <= j + 2
      invariant forall k :: 0 <= k < i || j < k < a.Length ==> a[k] == old(a[..])[a.Length - 1 - k]
      invariant forall k :: i <= k <= j ==> a[k] == old(a[..])[k]
    {
      a[i], a[j] := a[j], a[i];
      i, j := i + 1, j - 1;
    }
  }
}
