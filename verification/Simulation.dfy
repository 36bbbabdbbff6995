// The simulation as a machine over its public operations (libsimulator/src/simulation.cpp and the
// systems that an iteration runs).
module Simulations {
  import opened Sequences
  import opened Wrappers
  import opened Journeys
  import opened Stages
  import opened Plane
  import opened Neighborhood
  import opened Agents
  import opened Steps
  import opened Routing

  class Simulation {
    const router: Router
    /** The operational model: an agent's next state and place, computed from the current
        generation; none if the path hits a wall. */
    const advance: (seq<Agent>, Agent) -> Option<(Place, nat)>
    /** Whether the operational model accepts a new agent. */
    const admits: (seq<Agent>, Place, nat) -> bool
    const stages: StageManager
    const grid: NeighborhoodSearch
    var journeys: map<JourneyId, Journey>
    var agents: seq<Agent>
    var removed: seq<AgentId>
    var iterating: bool
    var nextId: AgentId
    var iteration: nat

    ghost predicate Core()
      reads this, stages
    {
      Consistent(stages.kinds, stages.targeting, journeys, agents, nextId)
    }

    /** What holds between operations: in addition, the grid files exactly the agents, where they
        are. */
    ghost predicate Valid()
      reads this, stages, grid
    {
      Core() && Filed()
    }

    ghost predicate Filed()
      reads this, grid
    {
      grid.Valid() && grid.items == ItemsOf(agents)
    }

    constructor (router: Router, advance: (seq<Agent>, Agent) -> Option<(Place, nat)>,
      admits: (seq<Agent>, Place, nat) -> bool)
      ensures Valid() && agents == [] && removed == [] && journeys == map[] && stages.kinds == map[] && !iterating
      ensures nextId == 0 && iteration == 0
      ensures this.router == router && this.advance == advance && this.admits == admits
      ensures fresh(stages) && fresh(grid)
    {
      this.router, this.advance, this.admits := router, advance, admits;
      stages := new StageManager();
      grid := new NeighborhoodSearch(2.2);
      journeys, agents, removed, iterating, nextId, iteration := map[], [], [], false, 0, 0;
    }

    // ---- The systems that an iteration runs ----

    /** Drop the listed agents, each once however often it is listed, and take them off their
        stages' counters. */
    method RemoveAgents()
      requires Core()
      modifies this`agents, this`removed, stages`targeting
      ensures Core() && removed == []
      ensures agents == Survivors(old(agents), old(removed))
    {
      ghost var before := stages.targeting;
      var kept := KeepUnlisted();
      RemovalEnds(stages.kinds, before, stages.targeting, journeys, agents, nextId, removed, kept);
      agents := kept;
      removed := [];
    }

    /** The agents that stay; the stages lose the others. */
    method KeepUnlisted() returns (kept: seq<Agent>)
      requires stages.Valid() && CountersMatch(stages.targeting, agents)
      modifies stages`targeting
      ensures stages.Valid() && Removing(stages.targeting, agents, removed, |agents|, kept)
    {
      kept := [];
      RemovalStarts(stages.targeting, agents, removed);
      for i := 0 to |agents|
        invariant stages.Valid()
        invariant Removing(stages.targeting, agents, removed, i, kept)
      {
        if agents[i].id in removed {
          DropListed(i, kept);
        } else {
          UnlistedIsKept(stages.targeting, agents, removed, i, kept);
          kept := kept + [agents[i]];
        }
      }
    }

    /** The stage of a listed agent loses it; its counter cannot be zero. */
    method DropListed(i: nat, ghost kept: seq<Agent>)
      requires stages.Valid() && Removing(stages.targeting, agents, removed, i, kept)
      requires i < |agents| && agents[i].id in removed
      modifies stages`targeting
      ensures stages.Valid() && Removing(stages.targeting, agents, removed, i + 1, kept)
    {
      ListedIsDropped(stages.targeting, agents, removed, i, kept);
      stages.HandleRemoveAgent(agents[i].stage);
    }

    ghost function Mind(): Minds
      reads this, stages
    {
      Minds(journeys, agents, removed, stages.targeting)
    }

    /** The stage after a completed one. */
    method Next(a: Agent) returns (next: StageId, ghost t': Transition)
      requires Core() && a in agents && a.journey in journeys && a.stage in journeys[a.journey]
      modifies this`journeys
      ensures Core() && next in stages.kinds && OnTrack(old(Mind()), a)
      ensures LeadsTo(old(journeys[a.journey][a.stage]), stages.targeting, next, t')
      ensures journeys == Advanced(old(journeys), a.journey, a.stage, t')
    {
      ghost var i :| 0 <= i < |agents| && agents[i] == a;
      MemberFacts(stages.kinds, stages.targeting, journeys, agents, nextId, i);
      var advanced;
      next, advanced := NextStage(journeys[a.journey][a.stage], stages.targeting);
      t' := advanced;
      AdvancingStaysConsistent(stages.kinds, stages.targeting, journeys, agents, nextId, a.journey, a.stage, advanced);
      journeys := Advanced(journeys, a.journey, a.stage, advanced);
    }

    /** Send agent i to another stage, counters first. */
    method Migrate(i: nat, next: StageId, target: Target)
      requires Core() && i < |agents| && next in stages.kinds
      modifies this`agents, stages`targeting
      ensures Core() && agents == old(agents)[i := old(agents[i]).(stage := next, target := target)]
      ensures Migrated(old(stages.targeting), stages.targeting, old(agents[i]).stage, next)
    {
      ghost var before := stages.targeting;
      MemberFacts(stages.kinds, stages.targeting, journeys, agents, nextId, i);
      stages.MigrateAgent(agents[i].stage, next);
      MigrationStaysConsistent(stages.kinds, before, stages.targeting, journeys, agents, nextId, i, next, target);
      agents := agents[i := agents[i].(stage := next, target := target)];
    }

    /** Strategical decision for one agent: where it heads for, its stage or the next one once that
        is completed. Fails, before anything has changed, if its stage is not part of its journey or
        whether it is completed cannot be told. */
    method Decide(i: nat) returns (outcome: Outcome)
      requires Core() && i < |agents|
      modifies this`agents, this`removed, this`journeys, stages`targeting
      ensures Core() && stages.kinds == old(stages.kinds)
      ensures outcome.Ok? ==> DecidesOne(stages.kinds, router, old(Mind()), Mind(), i)
      ensures outcome.Error? ==> Mind() == old(Mind()) && Undecided(stages.kinds, router, Mind(), i)
    {
      MemberFacts(stages.kinds, stages.targeting, journeys, agents, nextId, i);
      var a := agents[i];
      if a.stage !in journeys[a.journey] {
        return Error;
      }
      var completed := Test(stages.kinds, router, a);
      if completed.None? {
        return Error;
      }
      outcome := Ok;
      if completed.value {
        ghost var next, t' := GoOn(i);
      } else {
        Migrate(i, a.stage, Heading(stages.kinds, a, a.stage).target);
      }
    }

    /** Agent i has completed its stage: it is listed for removal if that is an exit, and goes on to
        the next one. */
    method GoOn(i: nat) returns (ghost next: StageId, ghost t': Transition)
      requires Core() && i < |agents| && OnTrack(Mind(), agents[i]) && agents[i].stage in stages.kinds
      modifies this`agents, this`removed, this`journeys, stages`targeting
      ensures Core() && stages.kinds == old(stages.kinds)
      ensures GoesOn(stages.kinds, old(Mind()), Mind(), i, next, t')
    {
      var a := agents[i];
      if stages.kinds[a.stage].Exit? {
        removed := removed + [a.id];
      }
      var n;
      n, t' := Next(a);
      next := n;
      Migrate(i, n, Heading(stages.kinds, a, n).target);
    }

    /** The agents from lo up to i have decided, from the state `start` on. */
    ghost predicate DecidedTo(kinds: map<StageId, Kind>, start: Minds, lo: nat, i: nat)
      reads this, stages
    {
      && Core() && stages.kinds == kinds && i <= |agents| == |start.agents|
      && Decisions(kinds, router, start, Mind(), lo, i)
    }

    /** Agent i's decision, seen as one of those from lo on. */
    method DecideNext(ghost kinds: map<StageId, Kind>, i: nat, ghost start: Minds, ghost lo: nat)
      returns (outcome: Outcome)
      requires i < |agents| && DecidedTo(kinds, start, lo, i)
      modifies this`agents, this`removed, this`journeys, stages`targeting
      ensures |agents| == old(|agents|) && DecidedTo(kinds, start, lo, if outcome.Ok? then i + 1 else i)
      ensures outcome.Error? ==> Undecided(stages.kinds, router, Mind(), i)
    {
      ghost var before := Mind();
      outcome := Decide(i);
      if outcome.Ok? {
        OneMoreDecision(stages.kinds, router, start, before, Mind(), lo, i);
      }
    }

    /** Strategical decisions for the agents from lo on, one after the other; the first one that fails
        ends the run. */
    method DecideFrom(lo: nat) returns (outcome: Outcome, ghost done: nat)
      requires Core() && lo <= |agents|
      modifies this`agents, this`removed, this`journeys, stages`targeting
      ensures Core() && stages.kinds == old(stages.kinds)
      ensures Decisions(stages.kinds, router, old(Mind()), Mind(), lo, done)
      ensures if outcome.Ok? then done == |agents| else done < |agents| && Undecided(stages.kinds, router, Mind(), done)
    {
      ghost var kinds, start := stages.kinds, Mind();
      outcome := Ok;
      var i := lo;
      while i < |agents| && outcome.Ok?
        invariant 0 <= i && DecidedTo(kinds, start, lo, i)
        invariant outcome.Error? ==> i < |agents| && Undecided(stages.kinds, router, Mind(), i)
        decreases |agents| - i, outcome.Ok?
      {
        outcome := DecideNext(kinds, i, start, lo);
        if outcome.Ok? {
          i := i + 1;
        }
      }
      done := i;
    }

    /** Tactical step for the agents from lo on: which way each is to walk. The first one for which that
        cannot be found ends it. */
    method TurnFrom(lo: nat) returns (outcome: Outcome, ghost turned: nat)
      requires Valid() && lo <= |agents|
      modifies this`agents
      ensures Valid() && lo <= turned && TurnedUpTo(router, old(agents), agents, lo, turned)
      ensures if outcome.Ok? then turned == |agents| else turned < |agents| && !Routable(router, agents[turned])
    {
      outcome := Ok;
      var i := lo;
      TurnsNothing(router, agents, lo);
      while i < |agents| && outcome.Ok?
        invariant Valid() && lo <= i <= |agents| && TurnedUpTo(router, old(agents), agents, lo, i)
        invariant outcome.Error? ==> i < |agents| && !Routable(router, agents[i])
        decreases |agents| - i, outcome.Ok?
      {
        outcome := TurnOne(i, old(agents), lo);
        if outcome.Ok? {
          i := i + 1;
        }
      }
      turned := i;
    }

    method TurnOne(i: nat, ghost start: seq<Agent>, ghost lo: nat) returns (outcome: Outcome)
      requires Valid() && lo <= i < |agents| && TurnedUpTo(router, start, agents, lo, i)
      modifies this`agents
      ensures Valid() && |agents| == old(|agents|)
      ensures TurnedUpTo(router, start, agents, lo, if outcome.Ok? then i + 1 else i)
      ensures outcome.Error? ==> !Routable(router, agents[i])
    {
      TurnNext(router, start, agents, lo, i);
      var a := agents[i];
      var heading := router.orient(a.target, a.place);
      if heading.None? {
        return Error;
      }
      agents := agents[i := a.(heading := heading.value)];
      Turning(start, old(agents), lo, i);
      outcome := Ok;
    }

    /** Turning agents changes nothing that matters to counters or grid. */
    lemma Turning(start: seq<Agent>, before: seq<Agent>, lo: nat, i: nat)
      requires Consistent(stages.kinds, stages.targeting, journeys, before, nextId) && grid.Valid() &&
                 grid.items == ItemsOf(before)
      requires TurnedUpTo(router, start, before, lo, i) && TurnedUpTo(router, start, agents, lo, i + 1)
      ensures Valid()
    {
      TurningKeepsHeadings(router, start, before, lo, i);
      TurningKeepsHeadings(router, start, agents, lo, i + 1);
      SameHeadingsTransitive(start, before, agents);
      SteppingStaysConsistent(stages.kinds, stages.targeting, journeys, before, agents, nextId);
    }

    /** The next generation, computed into a second buffer from this one alone. */
    method NextGeneration() returns (next: Option<seq<Agent>>)
      ensures if next.Some? then Stepped(advance, agents, next.value) else Blocked(advance, agents)
    {
      var buffer := agents;
      for i := 0 to |agents|
        invariant SteppedUpTo(advance, agents, buffer, i)
      {
        var moved := advance(agents, agents[i]);
        if moved.None? {
          return None;
        }
        StepNext(advance, agents, buffer, i);
        buffer := buffer[i := buffer[i].(place := moved.value.0, state := moved.value.1)];
      }
      next := Some(buffer);
    }

    /** The operational step: all agents move at once, or none does. */
    method Operate() returns (outcome: Outcome)
      requires Core()
      modifies this`agents
      ensures Core()
      ensures if outcome.Ok? then Stepped(advance, old(agents), agents)
              else agents == old(agents) && Blocked(advance, agents)
    {
      var next := NextGeneration();
      if next.None? {
        return Error;
      }
      SteppedKeepsHeadings(advance, agents, next.value);
      SteppingStaysConsistent(stages.kinds, stages.targeting, journeys, agents, next.value, nextId);
      agents := next.value;
      outcome := Ok;
    }

    method Refile()
      requires UniqueIds(agents, nextId) && grid.cellSize > 0.0
      modifies grid
      ensures Filed()
    {
      ItemsDistinct(agents, nextId);
      grid.Update(ItemsOf(agents));
    }

    method RemoveAndRefile()
      requires Core() && grid.cellSize > 0.0
      modifies this`agents, this`removed, stages`targeting, grid
      ensures Valid() && removed == [] && agents == Survivors(old(agents), old(removed))
    {
      RemoveAgents();
      Refile();
    }

    /** Decisions leave every agent where it is, and so the grid as it was. */
    method DecideAll() returns (outcome: Outcome, ghost done: nat)
      requires Valid()
      modifies this`agents, this`removed, this`journeys, stages`targeting
      ensures Valid() && stages.kinds == old(stages.kinds)
      ensures Decisions(stages.kinds, router, old(Mind()), Mind(), 0, done)
      ensures if outcome.Ok? then done == |agents| else done < |agents| && Undecided(stages.kinds, router, Mind(), done)
    {
      outcome, done := DecideFrom(0);
      DecisionsKeepItems(stages.kinds, router, old(Mind()), Mind(), 0, done);
    }

    method OperateAndRefile() returns (outcome: Outcome)
      requires Valid()
      modifies this`agents, grid
      ensures Valid()
      ensures if outcome.Ok? then Stepped(advance, old(agents), agents)
              else agents == old(agents) && Blocked(advance, agents)
    {
      outcome := Operate();
      if outcome.Ok? {
        Refile();
      }
    }

    /** The first half of an iteration: removal, then decisions. */
    method RemoveAndDecide() returns (outcome: Outcome, ghost first: Minds, ghost done: nat)
      requires Valid()
      modifies this`agents, this`removed, this`journeys, stages`targeting, grid
      ensures Valid() && stages.kinds == old(stages.kinds)
      ensures RemovedAndDecided(stages.kinds, router, old(Mind()), first, Mind(), done)
      ensures if outcome.Ok? then done == |agents| else done < |agents| && Undecided(stages.kinds, router, Mind(), done)
    {
      RemoveAndRefile();
      first := Mind();
      outcome, done := DecideAll();
    }

    /** The systems of one iteration, in order; the first that fails ends it. */
    method RunSystems() returns (outcome: Outcome, ghost run: IterationRun)
      requires Valid()
      modifies this`agents, this`removed, this`journeys, stages`targeting, grid
      ensures Valid() && stages.kinds == old(stages.kinds)
      ensures Iterated(stages.kinds, router, advance, old(Mind()), run, outcome, Mind())
    {
      ghost var first, done;
      outcome, first, done := RemoveAndDecide();
      ghost var decided := Mind();
      run := IterationRun(first, decided, done, agents, 0);
      TurnsNothing(router, agents, 0);
      if outcome.Ok? {
        outcome, run := TurnAndOperate(run);
      }
    }

    /** The second half of an iteration: directions, then the operational step. */
    method TurnAndOperate(ghost half: IterationRun) returns (outcome: Outcome, ghost run: IterationRun)
      requires Valid() && Mind() == half.decided && half.done == |agents|
      modifies this`agents, grid
      ensures Valid() && run == half.(oriented := run.oriented, turned := run.turned)
      ensures Ended(stages.kinds, router, advance, run, outcome, Mind())
    {
      ghost var turned;
      outcome, turned := TurnFrom(0);
      run := half.(oriented := agents, turned := turned);
      if outcome.Ok? {
        outcome := OperateAndRefile();
      }
    }

    // ---- Public operations ----

    /** One time step. Refused while another one is under way; the flag is cleared however the
        step ends. */
    method Iterate() returns (outcome: Outcome, ghost run: IterationRun)
      requires Valid()
      modifies this`agents, this`removed, this`journeys, this`iterating, this`iteration, stages`targeting, grid
      ensures Valid() && iterating == old(iterating) && stages.kinds == old(stages.kinds)
      ensures iteration == old(iteration) + (if outcome.Ok? then 1 else 0)
      ensures old(iterating) ==> outcome.Error? && Mind() == old(Mind())
      ensures !old(iterating) ==> Iterated(stages.kinds, router, advance, old(Mind()), run, outcome, Mind())
    {
      if iterating {
        run := IterationRun(Mind(), Mind(), 0, agents, 0);
        return Error, run;
      }
      iterating := true;
      outcome, run := RunSystems();
      if outcome.Ok? {
        iteration := iteration + 1;
      }
      iterating := false;
    }

    /** Add a stage that nobody heads for yet. It is refused if its area cannot be cut or registered as a
        destination, or if its id is in use. */
    method AddStage(s: StageId, description: StageDescription) returns (outcome: Outcome)
      requires Valid()
      modifies stages
      ensures Valid()
      ensures outcome.Ok? <==>
                && !iterating && s !in old(stages.kinds)
                && (description.Steering? || (description.meetsRegion && description.hasCells))
                && (description.WaypointAround? ==> description.distance > 0.0)
      ensures outcome.Ok? ==>
                && s in stages.kinds && stages.kinds == old(stages.kinds)[s := stages.kinds[s]]
                && (stages.kinds[s].Waypoint? <==> description.WaypointAround?)
                && (stages.kinds[s].Exit? <==> description.ExitOver?)
                && stages.targeting == old(stages.targeting)[s := 0]
      ensures outcome.Error? ==> stages.kinds == old(stages.kinds) && stages.targeting == old(stages.targeting)
    {
      if iterating || !Buildable(description) || s in stages.kinds {
        return Error;
      }
      var kind := KindOf(description);
      NewStageStaysConsistent(stages.kinds, stages.targeting, journeys, agents, nextId, s, kind);
      stages.AddStage(s, kind);
      outcome := Ok;
    }

    /** Add a journey under a fresh id. It is refused if a stage does not exist, a weight is zero,
        or direct steering is combined with anything else. A transition that lists no stage is
        accepted, and the simulation is then no longer valid. */
    method AddJourney(id: JourneyId, descriptions: map<StageId, Description>) returns (outcome: Outcome)
      requires Valid() && id !in journeys
      modifies this`journeys
      ensures Valid() <==> (outcome.Ok? ==> AllNameSomeStage(descriptions))
      ensures outcome.Ok? <==>
                && !iterating
                && (forall s :: s in descriptions ==> Known(stages.kinds.Keys, s, descriptions[s]))
                && (|descriptions| > 1 ==> forall s :: s in descriptions ==> !stages.kinds[s].DirectSteering?)
      ensures outcome.Ok? ==>
                id in journeys && journeys == old(journeys)[id := journeys[id]] && JustAdded(descriptions, journeys[id])
      ensures outcome.Error? ==> journeys == old(journeys)
    {
      AcceptedIffKnown(stages.kinds, descriptions);
      if iterating || !AcceptedAll(stages.kinds, descriptions) {
        return Error;
      }
      ResolvedIsValidIff(stages.kinds, descriptions);
      ConsistentIffJourneyValid(stages.kinds, stages.targeting, journeys, agents, nextId, id, ResolveAll(descriptions));
      journeys := journeys[id := ResolveAll(descriptions)];
      ResolvedIsJustAdded(descriptions);
      outcome := Ok;
    }

    /** Where agent `id` is in the list. */
    method Find(id: AgentId) returns (r: Option<nat>)
      ensures match r
              case Some(i) => i < |agents| && agents[i].id == id
              case None => forall a :: a in agents ==> a.id != id
    {
      for i := 0 to |agents|
        invariant forall k :: 0 <= k < i ==> agents[k].id != id
      {
        if agents[i].id == id {
          return Some(i);
        }
      }
      r := None;
    }

    /** List an agent for removal at the start of the next iteration. */
    method MarkForRemoval(id: AgentId) returns (outcome: Outcome)
      requires Valid()
      modifies this`removed
      ensures Valid()
      ensures outcome.Ok? <==> !iterating && exists a :: a in agents && a.id == id
      ensures removed == old(removed) + (if outcome.Ok? then [id] else [])
    {
      if iterating {
        return Error;
      }
      var i := Find(id);
      if i.None? {
        return Error;
      }
      assert agents[i.value] in agents;
      removed := removed + [id];
      outcome := Ok;
    }

    /** Send an agent to a stage of another journey. */
    method SwitchJourney(id: AgentId, journey: JourneyId, stage: StageId) returns (outcome: Outcome)
      requires Valid()
      modifies this`agents, stages`targeting
      ensures Valid()
      ensures outcome.Ok? <==>
                && !iterating && journey in journeys && stage in journeys[journey]
                && exists a :: a in old(agents) && a.id == id
      ensures outcome.Error? ==> Mind() == old(Mind())
      ensures outcome.Ok? ==> exists i ::
                && 0 <= i < |old(agents)| && old(agents)[i].id == id
                && agents == old(agents)[i := old(agents)[i].(journey := journey, stage := stage)]
                && Migrated(old(stages.targeting), stages.targeting, old(agents)[i].stage, stage)
    {
      if iterating || journey !in journeys || stage !in journeys[journey] {
        return Error;
      }
      var i := Find(id);
      if i.None? {
        return Error;
      }
      assert agents[i.value] in agents;
      Reassign(i.value, journey, stage);
      outcome := Ok;
    }

    method Reassign(i: nat, journey: JourneyId, stage: StageId)
      requires Valid() && i < |agents| && journey in journeys && stage in journeys[journey]
      modifies this`agents, stages`targeting
      ensures Valid()
      ensures agents == old(agents)[i := old(agents)[i].(journey := journey, stage := stage)]
      ensures Migrated(old(stages.targeting), stages.targeting, old(agents)[i].stage, stage)
    {
      assert ValidJourney(journeys[journey], stages.kinds.Keys);
      var a := agents[i].(journey := journey);
      ReassigningStaysConsistent(stages.kinds, stages.targeting, journeys, agents, nextId, i, journey);
      agents := agents[i := a];
      Migrate(i, stage, a.target);
      assert ItemsOf(agents) == ItemsOf(old(agents));
    }

    /** The agents within `radius` of `p`: what testing every agent would find, each once. */
    method AgentsInRange(p: Point, radius: real) returns (ids: seq<AgentId>)
      requires Valid()
      ensures NoDuplicates(ids)
      ensures forall id :: id in ids ==> exists a :: a in agents && a.id == id && OnDisc(p, radius, a.place.xy)
      ensures radius >= 0.0 ==> forall a :: a in agents && OnDisc(p, radius, a.place.xy) ==> a.id in ids
    {
      var found := grid.InRange(p, radius);
      ids := seq(|found|, i requires 0 <= i < |found| => found[i].id);
      FoundIds(agents, nextId, found, ids);
      forall a | a in agents && radius >= 0.0 && OnDisc(p, radius, a.place.xy) ensures a.id in ids {
        var k :| 0 <= k < |agents| && agents[k] == a;
        assert ItemsOf(agents)[k] in found;
      }
    }

    /** An agent as it is registered: routed to where it stands. */
    function NewAgent(journey: JourneyId, stage: StageId, place: Place, state: nat): Agent
      reads this`nextId
    {
      Agent(nextId, journey, stage, place, ToPlace(place), (0.0, 0.0), state)
    }

    /** What is checked before an agent is registered. */
    predicate Registrable(journey: JourneyId, stage: StageId, place: Place, state: nat)
      reads this
    {
      !iterating && journey in journeys && stage in journeys[journey] && admits(agents, place, state)
    }

    /** Add an agent and let it decide at once, so that one added inside a waypoint already heads for
        the next stage. Only what is checked before it is registered is refused without a trace: if
        routing fails for it afterwards, the call fails and the agent stays. */
    method AddAgent(
      journey: JourneyId, stage: StageId, place: Place, state: nat) returns (r: Option<AgentId>, ghost decided: Minds)
      requires Valid()
      modifies this`agents, this`removed, this`journeys, this`nextId, stages`targeting, grid
      ensures Valid() && stages.kinds == old(stages.kinds)
      ensures !old(Registrable(journey, stage, place, state)) ==> r.None? && Mind() == old(Mind())
      ensures nextId == old(nextId) + (if old(Registrable(journey, stage, place, state)) then 1 else 0)
      ensures old(Registrable(journey, stage, place, state)) <==>
                && !iterating && journey in old(journeys) && stage in old(journeys[journey])
                && admits(old(agents), place, state)
      ensures old(Registrable(journey, stage, place, state)) ==>
                var a := Agent(old(nextId), journey, stage, place, ToPlace(place), (0.0, 0.0), state);
                && a.stage in old(stages.targeting)
                && (forall b :: b in old(agents) ==> b.id != a.id)
                && AddedTo(stages.kinds, router, Registered(old(Mind()), a), |old(agents)|, r, decided, Mind())
    {
      decided := Mind();
      if !Registrable(journey, stage, place, state) {
        return None, decided;
      }
      var a := NewAgent(journey, stage, place, state);
      Append(a);
      r, decided := DecideFirst(|agents| - 1);
    }

    /** The new agent's first decision and direction. */
    method DecideFirst(i: nat) returns (r: Option<AgentId>, ghost decided: Minds)
      requires Valid() && i == |agents| - 1
      requires agents[i].journey in journeys && agents[i].stage in journeys[agents[i].journey]
      modifies this`agents, this`removed, this`journeys, stages`targeting
      ensures Valid() && stages.kinds == old(stages.kinds)
      ensures AddedTo(stages.kinds, router, old(Mind()), i, r, decided, Mind())
    {
      var id := agents[i].id;
      var outcome := DecideLast(i);
      decided := Mind();
      if outcome.Error? {
        return None, decided;
      }
      ReadyByDecision(stages.kinds, router, old(Mind()), decided, i);
      ghost var turned;
      outcome, turned := TurnFrom(i);
      assert TurnedAt(router, decided.agents, agents, i, turned, i);
      if outcome.Error? {
        assert turned == i;
        assert agents == decided.agents by {
          forall k | 0 <= k < |agents| ensures agents[k] == decided.agents[k] {
            assert TurnedAt(router, decided.agents, agents, i, turned, k);
          }
        }
        return None, decided;
      }
      TurnedLast(router, decided.agents, agents, i);
      r := Some(id);
    }

    /** The last agent's decision leaves the grid as it was. */
    method DecideLast(i: nat) returns (outcome: Outcome)
      requires Valid() && i == |agents| - 1
      modifies this`agents, this`removed, this`journeys, stages`targeting
      ensures Valid() && stages.kinds == old(stages.kinds) && |agents| == old(|agents|)
      ensures outcome.Ok? ==> DecidesOne(stages.kinds, router, old(Mind()), Mind(), i)
      ensures outcome.Error? ==> Mind() == old(Mind()) && Undecided(stages.kinds, router, Mind(), i)
    {
      outcome := Decide(i);
      if outcome.Ok? {
        DecisionKeepsItems(stages.kinds, router, old(Mind()), Mind(), i);
      }
    }

    method Append(a: Agent)
      requires Valid() && a.id == nextId && a.journey in journeys && a.stage in journeys[a.journey]
      modifies this`agents, this`nextId, stages`targeting, grid
      ensures Valid() && a.stage in old(stages.targeting) && Mind() == Registered(old(Mind()), a)
      ensures nextId == old(nextId) + 1
      ensures stages.kinds == old(stages.kinds) && forall b :: b in old(agents) ==> b.id != a.id
    {
      Enlist(a);
      grid.AddAgent(ItemOf(a));
    }

    method Enlist(a: Agent)
      requires Core() && a.id == nextId && a.journey in journeys && a.stage in journeys[a.journey]
      modifies this`agents, this`nextId, stages`targeting
      ensures Core() && a.stage in old(stages.targeting) && Mind() == Registered(old(Mind()), a)
      ensures nextId == old(nextId) + 1
      ensures stages.kinds == old(stages.kinds) && forall b :: b in old(agents) ==> b.id != a.id
      ensures ItemOf(a) !in ItemsOf(old(agents)) && ItemsOf(agents) == ItemsOf(old(agents)) + [ItemOf(a)]
    {
      AppendingStaysConsistent(stages.kinds, stages.targeting, journeys, agents, nextId, a);
      stages.HandleNewAgent(a.stage);
      agents := agents + [a];
      nextId := nextId + 1;
    }
  }
}
