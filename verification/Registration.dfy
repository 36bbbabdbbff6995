// When adding an agent succeeds, and an agent that stays although adding it failed
// (Simulation::add_agent in libsimulator/src/simulation.cpp over the floor field).
module Registration {
  import opened Journeys
  import opened Stages
  import opened Routing
  import opened Agents
  import opened Steps
  import opened RoutingEngines
  import opened Simulations
  import opened Wrappers
  import opened SeamDescent
  import Directions

  /** Where agent a goes from its decision: on to the next stage if it has completed its own. */
  ghost predicate NextHop(kinds: map<StageId, Kind>, router: Router, m: Minds, a: Agent, next: StageId, t': Transition)
    requires OnTrack(m, a)
  {
    var t := m.journeys[a.journey][a.stage];
    if Completed(kinds, router, a) then LeadsTo(t, m.targeting, next, t') else next == a.stage && t' == t
  }

  /** There is a way from agent a to a stage. */
  ghost predicate HasWay(n: Network, router: Router, kinds: map<StageId, Kind>, a: Agent, next: StageId)
    requires ValidNetwork(n)
  {
    if next in kinds && kinds[next].DirectSteering? then router.orient(a.target, a.place).Some?
      else CanHead(n, next, a.place)
  }

  /** What a caller can check before adding an agent: its place stands for a cell, and from there a
      direction can be given to where its first decision leads. */
  ghost predicate Prepared(n: Network, router: Router, kinds: map<StageId, Kind>, m: Minds, a: Agent)
    requires ValidNetwork(n) && OnTrack(m, a) && a.stage in kinds
  {
    && (!kinds[a.stage].DirectSteering? ==> n.solution(a.stage).Some? && Covered(n, a.place))
    && forall next, t' :: NextHop(kinds, router, m, a, next, t') ==> HasWay(n, router, kinds, a, next)
  }

  lemma WayIff(n: Network, router: Router, kinds: map<StageId, Kind>, a: Agent, next: StageId)
    requires ValidNetwork(n) && Answers(n, router) && next in kinds
    ensures Routable(router, Heading(kinds, a, next)) <==> HasWay(n, router, kinds, a, next)
  {
    DirectionIffCanHead(n, router, next, a.place);
  }

  /** Every hop is taken by some decision. */
  lemma HopIsDecided(
    kinds: map<StageId, Kind>, router: Router, m: Minds, i: nat, next: StageId, t': Transition) returns (m': Minds)
    requires i < |m.agents| && OnTrack(m, m.agents[i]) && m.agents[i].stage in kinds && m.targeting.Keys == kinds.Keys
    requires m.targeting[m.agents[i].stage] > 0 && Test(kinds, router, m.agents[i]).Some?
    requires NextHop(kinds, router, m, m.agents[i], next, t')
    ensures DecidesOne(kinds, router, m, m', i) && m'.agents == m.agents[i := Heading(kinds, m.agents[i], next)]
  {
    var a := m.agents[i];
    if Completed(kinds, router, a) {
      LeadsToTarget(m.journeys[a.journey][a.stage], m.targeting, next, t');
      var targeting := if a.stage == next then m.targeting
                       else m.targeting[next := m.targeting[next] + 1][a.stage := m.targeting[a.stage] - 1];
      m' := Minds(Advanced(m.journeys, a.journey, a.stage, t'), m.agents[i := Heading(kinds, a, next)],
                  m.removed + (if kinds[a.stage].Exit? then [a.id] else []), targeting);
      assert GoesOn(kinds, m, m', i, next, t');
    } else {
      m' := m.(agents := m.agents[i := Heading(kinds, a, a.stage)]);
    }
  }

  /** Every decision takes some hop. */
  lemma DecisionIsHop(
    kinds: map<StageId, Kind>, router: Router, m: Minds, m': Minds, i: nat) returns (next: StageId, t': Transition)
    requires i < |m.agents| && DecidesOne(kinds, router, m, m', i) && m.targeting.Keys == kinds.Keys
    ensures NextHop(kinds, router, m, m.agents[i], next, t') && next in kinds
    ensures m'.agents == m.agents[i := Heading(kinds, m.agents[i], next)]
  {
    var a := m.agents[i];
    if Completed(kinds, router, a) {
      next, t' :| GoesOn(kinds, m, m', i, next, t');
    } else {
      next, t' := a.stage, m.journeys[a.journey][a.stage];
    }
  }

  /** Routing answers all that a new agent needs exactly if the agent is prepared. */
  lemma ReadyIffPrepared(n: Network, router: Router, kinds: map<StageId, Kind>, m: Minds, i: nat)
    requires ValidNetwork(n) && Answers(n, router)
    requires i < |m.agents| && OnTrack(m, m.agents[i]) && m.agents[i].stage in kinds && m.targeting.Keys == kinds.Keys
    requires m.targeting[m.agents[i].stage] > 0
    ensures Ready(kinds, router, m, i) <==> Prepared(n, router, kinds, m, m.agents[i])
  {
    var a := m.agents[i];
    DirectionIffCanHead(n, router, a.stage, a.place);
    if Ready(kinds, router, m, i) {
      forall next, t' | NextHop(kinds, router, m, a, next, t') ensures HasWay(n, router, kinds, a, next) {
        var m' := HopIsDecided(kinds, router, m, i, next, t');
        HopIsKnown(kinds, router, m, a, next, t');
        WayIff(n, router, kinds, a, next);
      }
    }
    if Prepared(n, router, kinds, m, a) {
      forall m' | DecidesOne(kinds, router, m, m', i) ensures |m'.agents| == |m.agents| &&
        Routable(router, m'.agents[i]) {
        var next, t' := DecisionIsHop(kinds, router, m, m', i);
        WayIff(n, router, kinds, a, next);
      }
    }
  }

  lemma HopIsKnown(kinds: map<StageId, Kind>, router: Router, m: Minds, a: Agent, next: StageId, t': Transition)
    requires OnTrack(m, a) && a.stage in kinds && m.targeting.Keys == kinds.Keys &&
               NextHop(kinds, router, m, a, next, t')
    ensures next in kinds
  {
    if Completed(kinds, router, a) {
      LeadsToTarget(m.journeys[a.journey][a.stage], m.targeting, next, t');
    }
  }

  /** What registering makes of an agent whose stage is part of its journey. */
  lemma RegisteredOnTrack(kinds: map<StageId, Kind>, m: Minds, nextId: nat, a: Agent)
    requires Consistent(kinds, m.targeting, m.journeys, m.agents, nextId)
    requires a.id == nextId && a.journey in m.journeys && a.stage in m.journeys[a.journey]
    ensures a.stage in m.targeting && a.stage in kinds
    ensures var s := Registered(m, a);
            s.agents[|m.agents|] == a && OnTrack(s, a) && s.targeting.Keys == kinds.Keys && s.targeting[a.stage] > 0
  {
    AppendingStaysConsistent(kinds, m.targeting, m.journeys, m.agents, nextId, a);
    var s := Registered(m, a);
    MemberFacts(kinds, s.targeting, s.journeys, s.agents, nextId + 1, |m.agents|);
  }

  /** An agent about to be added is prepared. */
  ghost predicate NewIsPrepared(n: Network, router: Router, kinds: map<StageId, Kind>, before: Minds, a: Agent)
    requires ValidNetwork(n)
  {
    && a.stage in before.targeting && a.stage in kinds && OnTrack(Registered(before, a), a)
    && Prepared(n, router, kinds, Registered(before, a), a)
  }

  /** So an agent that is registered is added successfully, or without a trace, exactly if it was prepared. */
  lemma AddLeavesNoTraceIff(
    n: Network, router: Router, kinds: map<StageId, Kind>, before: Minds, nextId: nat, a: Agent, r: Option<AgentId>,
    decided: Minds, after: Minds)
    requires ValidNetwork(n) && Answers(n, router)
    requires Consistent(kinds, before.targeting, before.journeys, before.agents, nextId)
    requires a.id == nextId && a.journey in before.journeys && a.stage in before.journeys[a.journey]
    requires a.stage in before.targeting
    requires AddedTo(kinds, router, Registered(before, a), |before.agents|, r, decided, after)
    ensures r.Some? || after == before <==> NewIsPrepared(n, router, kinds, before, a)
  {
    var start := Registered(before, a);
    RegisteredOnTrack(kinds, before, nextId, a);
    FailedAddStays(kinds, router, start, |before.agents|, r, decided, after);
    ReadyIffPrepared(n, router, kinds, start, |before.agents|);
  }

  /** The whole operation: it succeeds or leaves the simulation as it was exactly if the agent is refused
      beforehand or prepared. */
  method Add(
    sim: Simulation, ghost n: Network, journey: JourneyId, stage: StageId, place: Place, state: nat)
    returns (r: Option<AgentId>)
    requires sim.Valid() && ValidNetwork(n) && Answers(n, sim.router)
    modifies sim`agents, sim`removed, sim`journeys, sim`nextId, sim.stages`targeting, sim.grid
    ensures sim.Valid()
    ensures r.Some? || sim.Mind() == old(sim.Mind()) <==>
              || !old(sim.Registrable(journey, stage, place, state))
              || old(NewIsPrepared(n, sim.router, sim.stages.kinds, sim.Mind(),
                       sim.NewAgent(journey, stage, place, state)))
  {
    ghost var before, a := sim.Mind(), sim.NewAgent(journey, stage, place, state);
    ghost var registrable, nextId := sim.Registrable(journey, stage, place, state), sim.nextId;
    ghost var decided;
    r, decided := sim.AddAgent(journey, stage, place, state);
    if registrable {
      AddLeavesNoTraceIff(n, sim.router, sim.stages.kinds, before, nextId, a, r, decided, sim.Mind());
    }
  }

  /** For an agent that has not completed its stage, the way to it decides: where all pairs of cells across
      seams adjoin, whether the stage's stored time is finite at the agent's cell. */
  lemma PreparedBeforeCompletion(n: Network, router: Router, kinds: map<StageId, Kind>, m: Minds, a: Agent)
    requires ValidNetwork(n) && OnTrack(m, a) && a.stage in kinds && !kinds[a.stage].DirectSteering? &&
               !Completed(kinds, router, a)
    ensures Prepared(n, router, kinds, m, a) <==> CanHead(n, a.stage, a.place)
    ensures AllAdjoin(n.world, n.placed) ==> (Prepared(n, router, kinds, m, a) <==> Reachable(n, a.stage, a.place))
  {
    if AllAdjoin(n.world, n.placed) {
      ReachableIff(n, a.stage, a.place);
    }
    assert NextHop(kinds, router, m, a, a.stage, m.journeys[a.journey][a.stage]);
  }

  /** An agent at a place from where no direction to its stage can be given is stranded. */
  lemma StrandedIff(n: Network, router: Router, kinds: map<StageId, Kind>, a: Agent)
    requires ValidNetwork(n) && Answers(n, router)
    requires a.stage in kinds && !kinds[a.stage].DirectSteering? && n.solution(a.stage).Some? && Covered(n, a.place)
    ensures Stranded(kinds, router, a) <==> !CanHead(n, a.stage, a.place)
    ensures AllAdjoin(n.world, n.placed) ==> (Stranded(kinds, router, a) <==> !Reachable(n, a.stage, a.place))
  {
    DirectionIffCanHead(n, router, a.stage, a.place);
    var c: nat :| StandsAt(n, a.place, c);
    assert ContainsAnswer(n, a.stage, a.place, router.contains(a.stage, a.place));
    if Directions.SourceCell(n.sources(a.stage), a.place.region, c) {
      assert Leads(n, a.stage, a.place, c);
    }
    if AllAdjoin(n.world, n.placed) {
      ReachableIff(n, a.stage, a.place);
    }
  }
}
