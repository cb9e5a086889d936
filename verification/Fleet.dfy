/** Runs of a whole fleet: agents of both kinds ticking, restarting and shutting
    down against one store that anyone else may use as well. */
module Fleet {
  import opened Options
  import opened LeaseTables
  import opened LeaseOutcomes
  import opened LeaseRuns
  import opened Agents
  import opened AgentLaws

  datatype Event =
    | StoreCall(op: Op)                          // any other use of the store
    | AgentTick(agent: nat, input: Input)
    | ShutDown(agent: nat, input: Input)         // RemoteManager.Restore, also on exit
    | Restart(agent: nat, account: AccountId)    // memory lost but for the Coordinator's state file
    | TokenRotated(agent: nat, hash: int)        // the Coordinator's reverse sync

  datatype FleetStep = FleetStep(now: int, event: Event)

  datatype State = State(db: Db, agents: seq<Agent>)

  predicate Permitted(s: State, e: Event) {
    match e
    case StoreCall(op) => Allowed(s.db, op)
    case AgentTick(i, input) => i < |s.agents| && Fresh(s.db, input.newId)
    case ShutDown(i, _) => i < |s.agents| && !s.agents[i].coordinator
    case Restart(i, account) => i < |s.agents| && (s.agents[i].coordinator || account == 0)
    case TokenRotated(i, _) => i < |s.agents| && s.agents[i].coordinator
  }

  ghost function Moved(s: State, i: nat, o: Outcome): State
    requires i < |s.agents|
  {
    State(o.db, s.agents[i := o.agent])
  }

  ghost function Advance(s: State, e: Event, now: int): State {
    if !Permitted(s, e) then s
    else match e
    case StoreCall(op) => s.(db := Apply(s.db, op, now))
    case AgentTick(i, input) => Moved(s, i, Tick(s.agents[i], s.db, now, input))
    case ShutDown(i, input) => Moved(s, i, RestoreNative(s.agents[i], s.db, now, input))
    case Restart(i, account) => s.(agents := s.agents[i := s.agents[i].(account := account, lease := 0)])
    case TokenRotated(i, hash) => s.(agents := s.agents[i := s.agents[i].(hash := hash)])
  }

  /** A fleet before its first tick: empty tables, agents that remember nothing. */
  predicate Starting(agents: seq<Agent>) {
    forall i :: 0 <= i < |agents| ==> agents[i].account == 0 && agents[i].lease == 0
  }

  function Time(run: seq<FleetStep>): int {
    if run == [] then 1 else run[|run| - 1].now
  }

  ghost function Reached(agents: seq<Agent>, run: seq<FleetStep>): State {
    if run == [] then State(EMPTY, agents)
    else var last := run[|run| - 1]; Advance(Reached(agents, run[..|run| - 1]), last.event, last.now)
  }

  ghost predicate IsFleetRun(agents: seq<Agent>, run: seq<FleetStep>) {
    if run == [] then Starting(agents)
    else
      var before, last := run[..|run| - 1], run[|run| - 1];
      IsFleetRun(agents, before) && Time(before) <= last.now && Permitted(Reached(agents, before), last.event)
  }

  /** Every Coordinator tick of the run could build and write its blob. */
  ghost predicate WritesSucceed(agents: seq<Agent>, run: seq<FleetStep>) {
    forall k :: 0 <= k < |run| && run[k].event.AgentTick? ==>
      var e := run[k].event;
      e.agent < |agents| && agents[e.agent].coordinator ==> e.input.ready && e.input.written
  }

  ghost predicate Sound(s: State, agents: seq<Agent>, now: int, writes: bool) {
    && Inv(s.db, now) && |s.agents| == |agents|
    && (forall i :: 0 <= i < |agents| ==>
          s.agents[i].device == agents[i].device && s.agents[i].coordinator == agents[i].coordinator &&
          OwnLease(s.agents[i], s.db) &&
          (!agents[i].coordinator || writes ==> Coherent(s.agents[i], s.db)))
  }

  lemma OthersStaySound(s: State, db: Db, agents: seq<Agent>, now: int, writes: bool, i: nat)
    requires Sound(s, agents, now, writes) && Advances(s.db, db, now)
    requires i < |agents|
    ensures OwnLease(s.agents[i], db) && (!agents[i].coordinator || writes ==> Coherent(s.agents[i], db))
  {
    CoherenceSurvives(s.agents[i], s.db, db);
  }

  /** The agent a step concerns ends the step sound. */
  lemma MoverStaysSound(s: State, e: Event, agents: seq<Agent>, now: int, writes: bool)
    requires Sound(s, agents, now, writes) && Permitted(s, e) && !e.StoreCall?
    requires e.AgentTick? && writes && agents[e.agent].coordinator ==> e.input.ready && e.input.written
    ensures var t := Advance(s, e, now);
            Advances(s.db, t.db, now) && t.agents[e.agent].device == agents[e.agent].device &&
            t.agents[e.agent].coordinator == agents[e.agent].coordinator && OwnLease(t.agents[e.agent], t.db) &&
            (!agents[e.agent].coordinator || writes ==> Coherent(t.agents[e.agent], t.db))
  {
    var a := s.agents[e.agent];
    match e {
      case AgentTick(i, input) =>
        if a.coordinator {
          CoordinatorTickCovered(a, s.db, now, input);
          if writes {
            CoordinatorTickIsSafe(a, s.db, now, input);
          }
        } else {
          RemoteTickIsSafe(a, s.db, now, input);
          CoherentOwns(Tick(a, s.db, now, input).agent, Tick(a, s.db, now, input).db);
        }
      case ShutDown(i, input) =>
        RestoreAdvances(a, s.db, now, input);
        CoherenceSurvives(a, s.db, RestoreNative(a, s.db, now, input).db);
      case _ =>
        CoherenceSurvives(a, s.db, s.db);
    }
  }

  lemma StepStaysSound(s: State, e: Event, agents: seq<Agent>, now: int, writes: bool)
    requires Sound(s, agents, now, writes) && Permitted(s, e)
    requires e.AgentTick? && writes && agents[e.agent].coordinator ==> e.input.ready && e.input.written
    ensures Sound(Advance(s, e, now), agents, now, writes)
    ensures HistoryExtends(s.db.events, Advance(s, e, now).db.events)
  {
    var t := Advance(s, e, now);
    if e.StoreCall? {
      StepKeepsInv(s.db, e.op, now);
      StepExtendsHistory(s.db, e.op, now);
    } else {
      MoverStaysSound(s, e, agents, now, writes);
    }
    forall i | 0 <= i < |agents|
      ensures t.agents[i].device == agents[i].device && t.agents[i].coordinator == agents[i].coordinator
      ensures OwnLease(t.agents[i], t.db) && (!agents[i].coordinator || writes ==> Coherent(t.agents[i], t.db))
    {
      OthersStaySound(s, t.db, agents, now, writes, i);
    }
  }

  lemma {:induction false} ReachedIsSound(agents: seq<Agent>, run: seq<FleetStep>, writes: bool)
    requires IsFleetRun(agents, run) && (writes ==> WritesSucceed(agents, run))
    ensures Sound(Reached(agents, run), agents, Time(run), writes)
  {
    if run == [] {
    } else {
      var before, last := run[..|run| - 1], run[|run| - 1];
      assert run[|before|] == last;
      ReachedIsSound(agents, before, writes);
      LaterClockKeepsInv(Reached(agents, before).db, Time(before), last.now);
      StepStaysSound(Reached(agents, before), last.event, agents, last.now, writes);
    }
  }

  /** The main safety result.  In every run of any number of agents, whenever an
      agent writes account x's pool credential, or only tries to, its device holds
      the single live lease on x at that moment and no other lease on x exists.
      For a RemoteManager this needs nothing more; for a Coordinator it needs the
      earlier Coordinator writes of the run to have succeeded. */
  lemma WritesOnlyWhatItHolds(agents: seq<Agent>, run: seq<FleetStep>, now: int, i: nat, input: Input)
    requires IsFleetRun(agents, run) && Time(run) <= now && i < |agents|
    requires Permitted(Reached(agents, run), AgentTick(i, input))
    requires agents[i].coordinator ==> WritesSucceed(agents, run)
    ensures var o := Tick(Reached(agents, run).agents[i], Reached(agents, run).db, now, input);
            o.saved.Some? ==> HoldsAlone(o.db, o.saved.value, agents[i].device, now)
  {
    var s := Reached(agents, run);
    ReachedIsSound(agents, run, agents[i].coordinator);
    LaterClockKeepsInv(s.db, Time(run), now);
    if agents[i].coordinator {
      CoordinatorTickIsSafe(s.agents[i], s.db, now, input);
    } else {
      RemoteTickIsSafe(s.agents[i], s.db, now, input);
    }
  }

  /** Without that assumption: in every run, a Coordinator's attempted write is
      covered by the lease it remembers exactly when the tick did not renew astray,
      which the tables and the agent's memory decide before the renewal. */
  lemma CoordinatorCoveredExactlyWhen(agents: seq<Agent>, run: seq<FleetStep>, now: int, i: nat, input: Input)
    requires IsFleetRun(agents, run) && Time(run) <= now && i < |agents|
    requires Permitted(Reached(agents, run), AgentTick(i, input)) && agents[i].coordinator
    ensures var a, db := Reached(agents, run).agents[i], Reached(agents, run).db;
            var o := Tick(a, db, now, input);
            o.saved.Some? ==>
              (Holds(o.db, o.agent.lease, o.saved.value) <==>
               !RenewsAstray(a, AfterPick(db, a.device, now, input), o.saved.value, now, input))
  {
    var s := Reached(agents, run);
    ReachedIsSound(agents, run, false);
    LaterClockKeepsInv(s.db, Time(run), now);
    CoordinatorTickCovered(s.agents[i], s.db, now, input);
  }

  /** And in every run its device holds alone the account it writes exactly when the
      tick does not renew astray, or the device held it alone before the renewal. */
  lemma CoordinatorHoldsAloneInEveryRun(agents: seq<Agent>, run: seq<FleetStep>, now: int, i: nat, input: Input)
    requires IsFleetRun(agents, run) && Time(run) <= now && i < |agents|
    requires Permitted(Reached(agents, run), AgentTick(i, input)) && agents[i].coordinator
    ensures var a, db := Reached(agents, run).agents[i], Reached(agents, run).db;
            var o, picked := Tick(a, db, now, input), AfterPick(db, a.device, now, input);
            o.saved.Some? ==>
              (HoldsAlone(o.db, o.saved.value, a.device, now) <==>
               !RenewsAstray(a, picked, o.saved.value, now, input) || HoldsAlone(picked, o.saved.value, a.device, now))
  {
    var s := Reached(agents, run);
    ReachedIsSound(agents, run, false);
    LaterClockKeepsInv(s.db, Time(run), now);
    CoordinatorHoldsAloneExactlyWhen(s.agents[i], s.db, now, input);
  }

  /** And no agent holds back: in every run, a tick writes exactly when its agent is to act,
      has an account chosen, gets the lease on it, and has not its credential in place. */
  lemma WritesExactlyWhenItShould(agents: seq<Agent>, run: seq<FleetStep>, now: int, i: nat, input: Input,
                                  x: AccountId)
    requires IsFleetRun(agents, run) && Time(run) <= now && i < |agents|
    requires Permitted(Reached(agents, run), AgentTick(i, input))
    ensures var a, db := Reached(agents, run).agents[i], Reached(agents, run).db;
            var picked := AfterPick(db, a.device, now, input);
            Tick(a, db, now, input).saved == Some(x) <==>
            if agents[i].coordinator
            then !Waits(a, input) && input.pick.Picked? && input.pick.account == x &&
                 CoordinatorGets(a, picked, x, now, input) &&
                 !(a.account == x && a.hash == input.tokenHash && input.inPlace) && input.ready
            else !Gated(a, input) && Chose(input, x) && input.loaded && !input.inPlace && input.ready &&
                 RemoteGets(a, picked, x, now, input)
  {
    var s := Reached(agents, run);
    ReachedIsSound(agents, run, false);
    LaterClockKeepsInv(s.db, Time(run), now);
    if agents[i].coordinator {
      CoordinatorWritesExactlyWhen(s.agents[i], s.db, now, input, x);
    } else {
      RemoteWritesExactlyWhen(s.agents[i], s.db, now, input, x);
    }
  }

  /** A RemoteManager that shuts down with the native credential back and its release
      answered leaves no lease behind and remembers nothing; else its memory stays as it was. */
  lemma ShutDownLetsGo(agents: seq<Agent>, run: seq<FleetStep>, now: int, i: nat, input: Input)
    requires IsFleetRun(agents, run) && Time(run) <= now && i < |agents|
    requires Permitted(Reached(agents, run), ShutDown(i, input))
    ensures var s, t := Reached(agents, run), Reached(agents, run + [FleetStep(now, ShutDown(i, input))]);
            var a := s.agents[i];
            t.agents[i] == (if input.restored && (a.lease == 0 || input.releaseFate == Answered)
                            then a.(account := 0, lease := 0) else a) &&
            (input.restored && input.releaseFate != NotSent && a.lease != 0 ==> a.lease !in t.db.leases) &&
            forall j :: 0 <= j < |s.agents| && j != i ==> t.agents[j] == s.agents[j]
  {
    var longer := run + [FleetStep(now, ShutDown(i, input))];
    assert longer[..|run|] == run;
  }

  // --------------------------------------------------------------- handover

  /** From any moment of a run to its end, history only grows. */
  lemma {:induction false} FleetHistoryOnlyGrows(agents: seq<Agent>, run: seq<FleetStep>, moment: nat)
    requires IsFleetRun(agents, run) && moment <= |run|
    ensures IsFleetRun(agents, run[..moment])
    ensures HistoryExtends(Reached(agents, run[..moment]).db.events, Reached(agents, run).db.events)
    ensures moment > 0 ==> Time(run[..moment]) <= Time(run)
  {
    if moment == |run| {
      assert run[..moment] == run;
    } else {
      var before, last := run[..|run| - 1], run[|run| - 1];
      assert before[..moment] == run[..moment];
      FleetHistoryOnlyGrows(agents, before, moment);
      ReachedIsSound(agents, before, false);
      LaterClockKeepsInv(Reached(agents, before).db, Time(before), last.now);
      StepStaysSound(Reached(agents, before), last.event, agents, last.now, false);
      HistoryExtendsTransitive(Reached(agents, run[..moment]).db.events, Reached(agents, before).db.events,
                               Reached(agents, run).db.events);
    }
  }

  /** Devices take turns: if one device holds an account at some moment of a run
      and another device holds it later, the first device's hold was closed in
      history no later than the second one's began. */
  lemma HoldersTakeTurns(agents: seq<Agent>, run: seq<FleetStep>, moment: nat, account: AccountId,
                         first: DeviceId, second: DeviceId, then_: int, now: int)
    requires IsFleetRun(agents, run) && moment <= |run| && first != second
    requires HoldsAlone(Reached(agents, run[..moment]).db, account, first, then_)
    requires HoldsAlone(Reached(agents, run).db, account, second, now)
    ensures exists k, j :: 0 <= k < j < |Reached(agents, run).db.events| &&
              var e, f := Reached(agents, run).db.events[k], Reached(agents, run).db.events[j];
              e.account == account && e.device == first && f.account == account && f.device == second &&
              e.lease in Reached(agents, run[..moment]).db.leases && f.lease in Reached(agents, run).db.leases &&
              e.endedAt != 0 && e.endedAt <= f.startedAt
  {
    FleetHistoryOnlyGrows(agents, run, moment);
    ReachedIsSound(agents, run[..moment], false);
    ReachedIsSound(agents, run, false);
    var early, late := Reached(agents, run[..moment]).db, Reached(agents, run).db;
    var held :| Holds(early, held, account) && early.leases[held].device == first;
    var holds :| Holds(late, holds, account) && late.leases[holds].device == second;
    assert HasRecord(early, held) && HasRecord(late, holds);
    var k :| 0 <= k < |early.events| && Records(early.events[k], held, early.leases[held]);
    var j :| 0 <= j < |late.events| && Records(late.events[j], holds, late.leases[holds]);
    assert SameHold(early.events[k], late.events[k]);
    assert k < j by {
      assert k != j;
    }
  }

  // ------------------------------------------------- the failing Coordinator

  /** Two accounts of one provider, two devices, three lease ids, a ttl and a token. */
  datatype Scene = Scene(x: AccountId, y: AccountId, d: DeviceId, e: DeviceId,
                         i: LeaseId, j: LeaseId, k: LeaseId, ttl: int, token: int, provider: Provider)
  {
    ghost predicate Distinct() {
      x != 0 && y != 0 && x != y && d != 0 && e != 0 && d != e &&
      i != 0 && j != 0 && k != 0 && i != j && j != k && i != k && ttl > 10
    }

    function Agents(): seq<Agent> { [Agent(true, d, 0, 0, 0), Agent(true, e, 0, 0, 0)] }

    function Asks(account: AccountId, newId: LeaseId, token: int, written: bool): Input {
      Input(0, 600000, ttl, false, Picked(account, true, false), newId, true, Answered, Answered, Answered,
                  token, true, true, true, written, true, true)
    }

    /** d injects x; d's switch to y gets its lease but fails to write; e takes the free x. */
    function Run(): seq<FleetStep> {
      [FleetStep(1, StoreCall(AddAccountOp(x, provider))), FleetStep(1, StoreCall(AddAccountOp(y, provider))),
       FleetStep(2, AgentTick(0, Asks(x, i, token, true))),
       FleetStep(3, AgentTick(0, Asks(y, j, token, false))),
       FleetStep(4, AgentTick(1, Asks(x, k, token, true)))]
    }

    function Pool(): Db { Db(map[], [], map[x := provider, y := provider]) }
    function Held(): Db { Insert(Pool(), i, x, d, 2, ttl) }
    function Switched(): Db { Evict(Insert(Held(), j, y, d, 3, ttl), map[i := 3]) }
    function Taken(): Db { Insert(Switched(), k, x, e, 4, ttl) }
  }

  /** With nothing lapsed and the account free, a Coordinator tick's switch is a first grant. */
  lemma FreeTick(a: Agent, db: Db, now: int, input: Input)
    requires a.coordinator && input.idleFor < input.threshold && input.pick.Picked? && !input.pick.reclaims
    requires a.account != input.pick.account
    requires input.newId != 0 && input.pick.account != 0 && a.device != 0 && input.ttl > 0 && input.newId !in db.leases
    requires input.pick.account in db.accounts && input.allowed
    requires input.acquireFate == Answered && input.releaseFate == Answered
    requires forall id :: id in db.leases ==>
               db.leases[id].expiresAt > now && db.leases[id].account != input.pick.account
    requires a.lease != input.newId && input.ready
    ensures var granted := FirstGrant(db, input.newId, input.pick.account, a.device, now, input.ttl);
            CoordinatorTick(a, db, now, input) ==
            Outcome(if input.written then Agent(true, a.device, input.pick.account, input.newId, input.tokenHash)
                    else a.(lease := input.newId),
                    Release(granted, a.lease, now), Some(input.pick.account))
  {
    assert forall id :: id !in Lapsed(db, now).Keys;
    assert Expire(db, now) == db;
    assert forall id :: id in db.leases ==> !Holds(db, id, input.pick.account);
  }

  lemma NoSiblings(db: Db, device: DeviceId, keep: AccountId, now: int)
    requires forall id :: id in db.leases ==> db.leases[id].device != device || db.leases[id].account == keep
    ensures Evict(db, Siblings(db, device, keep, now)) == db
  {
    assert forall id :: id !in Siblings(db, device, keep, now).Keys;
  }

  lemma HeldIsReached(s: Scene)
    requires s.Distinct()
    ensures CoordinatorTick(s.Agents()[0], s.Pool(), 2, s.Asks(s.x, s.i, s.token, true)) ==
            Outcome(Agent(true, s.d, s.x, s.i, s.token), s.Held(), Some(s.x))
  {
    FreeTick(s.Agents()[0], s.Pool(), 2, s.Asks(s.x, s.i, s.token, true));
    NoSiblings(s.Held(), s.d, s.x, 2);
  }

  lemma SwitchedIsReached(s: Scene)
    requires s.Distinct()
    ensures CoordinatorTick(Agent(true, s.d, s.x, s.i, s.token), s.Held(), 3, s.Asks(s.y, s.j, s.token, false)) ==
            Outcome(Agent(true, s.d, s.x, s.j, s.token), s.Switched(), Some(s.y))
  {
    FreeTick(Agent(true, s.d, s.x, s.i, s.token), s.Held(), 3, s.Asks(s.y, s.j, s.token, false));
    var grown := Insert(s.Held(), s.j, s.y, s.d, 3, s.ttl);
    assert IsSibling(grown, s.i, s.d, s.y);
    assert Siblings(grown, s.d, s.y, 3) == map[s.i := 3];
    assert Release(s.Switched(), s.i, 3) == s.Switched();
  }

  lemma TakenIsReached(s: Scene)
    requires s.Distinct()
    ensures CoordinatorTick(s.Agents()[1], s.Switched(), 4, s.Asks(s.x, s.k, s.token, true)) ==
            Outcome(Agent(true, s.e, s.x, s.k, s.token), s.Taken(), Some(s.x))
  {
    assert s.Switched().leases == map[s.j := Lease(s.y, s.d, 3, 3 + s.ttl, 3)];
    FreeTick(s.Agents()[1], s.Switched(), 4, s.Asks(s.x, s.k, s.token, true));
    NoSiblings(s.Taken(), s.e, s.x, 4);
  }

  lemma SceneIsReached(s: Scene)
    requires s.Distinct()
    ensures IsFleetRun(s.Agents(), s.Run())
    ensures Reached(s.Agents(), s.Run()) ==
            State(s.Taken(), [Agent(true, s.d, s.x, s.j, s.token), Agent(true, s.e, s.x, s.k, s.token)])
  {
    var g, r := s.Agents(), s.Run();
    assert r[..5][..4] == r[..4] && r[..4][..3] == r[..3] && r[..3][..2] == r[..2] && r[..2][..1] == r[..1] &&
           r[..1][..0] == [] && r[..5] == r;
    assert IsFleetRun(g, []);
    assert IsFleetRun(g, r[..1]);
    assert Reached(g, r[..1]) == State(Db(map[], [], map[s.x := s.provider]), g);
    assert IsFleetRun(g, r[..2]);
    assert Reached(g, r[..2]) == State(s.Pool(), g);
    assert IsFleetRun(g, r[..3]);
    HeldIsReached(s);
    assert Reached(g, r[..3]) == State(s.Held(), [Agent(true, s.d, s.x, s.i, s.token), g[1]]);
    assert IsFleetRun(g, r[..4]);
    SwitchedIsReached(s);
    assert Reached(g, r[..4]) == State(s.Switched(), [Agent(true, s.d, s.x, s.j, s.token), g[1]]);
    assert IsFleetRun(g, r[..5]);
    TakenIsReached(s);
  }

  /** After that run, once x's token rotates, device d sticks to x, renews the lease
      it holds on y, and writes x's credential while device e alone holds x. */
  lemma CoordinatorMayWriteWhatAnotherHolds(s: Scene, rotated: int)
    requires s.Distinct() && rotated != s.token
    ensures IsFleetRun(s.Agents(), s.Run())
    ensures var m := Reached(s.Agents(), s.Run());
            var input := s.Asks(s.x, s.i, rotated, true);
            var o := Tick(m.agents[0], m.db, 5, input);
            o.saved == Some(s.x) && HoldsAlone(o.db, s.x, s.e, 5) && !HoldsAlone(o.db, s.x, s.d, 5)
  {
    SceneIsReached(s);
    var m := Reached(s.Agents(), s.Run());
    var o := Tick(m.agents[0], m.db, 5, s.Asks(s.x, s.i, rotated, true));
    assert Holds(o.db, s.k, s.x);
  }
}
