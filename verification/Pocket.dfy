// A concrete input on which adding an agent fails and the agent stays: the agent stands in a pocket of
// its region that is cut off from the exit (compare a_pocket_cut_off_within_a_region_has_no_direction in
// libfloorfield/src/multi_region.rs).
module Pocket {
  import opened Wrappers
  import opened Cells
  import opened Plane
  import opened Times
  import opened Relaxation
  import opened FastSweeping
  import opened Propagation
  import opened SeedOrigins
  import opened Seams
  import opened Halo
  import opened Queries
  import opened SeamDescent
  import opened RegionGraphs
  import opened Layouts
  import opened Journeys
  import opened Stages
  import opened Routing
  import opened RoutingEngines
  import opened Agents
  import opened Steps
  import opened Registration
  import opened Simulations
  import Directions
  import Godunov

  // ---- The outline and its grid ----

  /** Two rooms joined by a passage narrower than a cell, which no cell's centre lies in. */
  const OUTLINE: Outline := Outline(
    [(0.0, 0.0), (1.0, 0.0), (1.0, 0.6), (2.0, 0.6), (2.0, 0.0), (3.0, 0.0),
     (3.0, 1.0), (2.0, 1.0), (2.0, 0.9), (1.0, 0.9), (1.0, 1.0), (0.0, 1.0)], [])

  const POCKET_GRAPH: RegionGraph := RegionGraph([OUTLINE], [])

  predicate InOutline(p: Point) {
    || (0.0 < p.0 < 1.0 && 0.0 < p.1 < 1.0)
    || (1.0 <= p.0 <= 2.0 && 0.6 < p.1 < 0.9)
    || (2.0 < p.0 < 3.0 && 0.0 < p.1 < 1.0)
  }

  /** Speeds are positive strictly inside the outline, whatever the influence of its walls. */
  ghost predicate SpeedsInOutline(speedAt: (nat, Point) -> real) {
    forall p: Point {:trigger speedAt(0, p)} :: speedAt(0, p) > 0.0 <==> InOutline(p)
  }

  /** What the outline is built into: 8 x 6 cells, the exit's and the pocket's walkable, with an obstacle
      between them. */
  ghost predicate IsPocket(w: World, placed: seq<RegionGrid>) {
    && ValidWorld(w) && Places(w, placed) && |w.grids| == 1
    && UnitGrid(placed[0], (-2, -2), 8, 6)
    && (forall c: nat :: Walkable(w.grids[0], c) <==> c == 18 || c == 20)
    && forall r: nat, y: nat, q: Pair :: !Crosses(w, r, y, q)
  }

  lemma BoxOfOutline()
    ensures IsBoundingBox(OUTLINE.outer, 12, (0.0, 0.0), (3.0, 1.0)) && ValidGraph(POCKET_GRAPH)
  {
    assert OUTLINE.outer[0] == (0.0, 0.0) && OUTLINE.outer[6] == (3.0, 1.0);
  }

  lemma OriginOfOutline(origin: Point)
    requires IsOrigin(POCKET_GRAPH, 1, origin)
    ensures origin == (0.0, 0.0)
  {
    assert POCKET_GRAPH.regions[0].outer[0] == (0.0, 0.0);
  }

  lemma WalkableInOutline(speedAt: (nat, Point) -> real, g: RegionGrid, c: nat)
    requires SpeedsInOutline(speedAt) && UnitGrid(g, (-2, -2), 8, 6) && HoldsSpeeds(UNIT, g, 0, speedAt)
    ensures Walkable(g.grid, c) <==> c == 18 || c == 20
  {
    UnitSize(g, (-2, -2), 8, 6);
    if c < 48 {
      UnitCell(g, (-2, -2), 8, 6, c);
      assert Walkable(g.grid, c) <==> InOutline(CellCenter(UNIT, g, c));
    }
  }

  lemma BuiltIsPocket(spec: GridSpec, speedAt: (nat, Point) -> real, w: World, placed: seq<RegionGrid>)
    requires IsBuilt(spec, POCKET_GRAPH, speedAt, w, placed) && spec.cellSize == 1.0 && SpeedsInOutline(speedAt)
    ensures spec == UNIT && IsPocket(w, placed)
  {
    OriginOfOutline((spec.originX, spec.originY));
    BoxOfOutline();
    assert PlacedOver(UNIT, POCKET_GRAPH, placed, 0);
    GridOfRegion(POCKET_GRAPH, placed, 0, (0.0, 0.0), (3.0, 1.0), (0, 0), (3, 1));
    forall c: nat ensures Walkable(w.grids[0], c) <==> c == 18 || c == 20 {
      WalkableInOutline(speedAt, placed[0], c);
    }
    forall s: nat ensures s !in w.outSeams[0] {
    }
  }

  /** The outline is accepted and built into such a world. */
  method BuildPocket(wallInfluence: real, speedAt: (nat, Point) -> real, root: real -> real)
    returns (w: World, placed: seq<RegionGrid>)
    requires Godunov.IsSquareRoot(root) && wallInfluence > 0.0 && SpeedsInOutline(speedAt)
    ensures IsBuilt(UNIT, POCKET_GRAPH, speedAt, w, placed) && IsPocket(w, placed)
  {
    var field;
    ghost var spec;
    field, spec := Build(POCKET_GRAPH, 1.0, wallInfluence, speedAt, root);
    OutlineIsSmall();
    OriginOfOutline((spec.originX, spec.originY));
    w, placed := field.value.0, field.value.1;
    BuiltIsPocket(spec, speedAt, w, placed);
  }

  lemma OutlineIsSmall()
    ensures ValidGraph(POCKET_GRAPH) && !TooLarge(UNIT, OUTLINE)
  {
    BoxOfOutline();
    assert Count(8, 6) == 48 by { RowMajor(8, 6, 0); }
    SmallEnough(OUTLINE, (0.0, 0.0), (3.0, 1.0), (0, 0), (3, 1));
  }

  // ---- The exit is not reached from the pocket ----

  const EXIT_CELLS: seq<seq<nat>> := [[18]]

  const EXIT_SEEDS: Seeds := map[18 := 0.0]

  ghost function PocketTimes(w: World): (u: Field)
    requires |w.grids| == 1
    ensures |u| == Size(w.grids[0])
    ensures forall c :: 0 <= c < |u| ==> u[c] == if c == 18 && Walkable(w.grids[0], 18) then Fin(0.0) else Inf
  {
    SeedField(w.grids[0], EXIT_SEEDS)
  }

  ghost function PocketSolution(w: World): Solution
    requires |w.grids| == 1
  {
    Solution([Some(PocketTimes(w))], [{}])
  }

  /** In the middle of the pocket. */
  const POCKET: Place := Place(0, (2.5, 0.5))

  lemma PocketCells(w: World, placed: seq<RegionGrid>)
    requires IsPocket(w, placed)
    ensures Size(w.grids[0]) == 48 && ValidDestination(w, EXIT_CELLS) && SeedsFit(w.grids[0], EXIT_SEEDS)
    ensures AllAdjoin(w, placed)
  {
    UnitSize(placed[0], (-2, -2), 8, 6);
  }

  /** No cell next to the pocket's is reached. */
  lemma AroundPocket(w: World, placed: seq<RegionGrid>, n: nat)
    requires IsPocket(w, placed) && Size(w.grids[0]) == 48 && Neighbors(w.grids[0], 20, n)
    ensures n != 18
  {
    UnitCell(placed[0], (-2, -2), 8, 6, 20);
    RowMajor(8, 2, 3);
    RowMajor(8, 2, 5);
    RowMajor(8, 1, 4);
    RowMajor(8, 3, 4);
  }

  lemma PocketSolves(w: World, placed: seq<RegionGrid>)
    requires IsPocket(w, placed)
    ensures Solves(Sweeping(w.grids[0]), SeedField(w.grids[0], EXIT_SEEDS), PocketTimes(w))
  {
    PocketCells(w, placed);
    var g := w.grids[0];
    forall c: nat, n: nat | c < Size(g) && Walkable(g, c) && n < Size(g) && Neighbors(g, c, n)
      ensures Le(SeedField(g, EXIT_SEEDS)[c], SeedField(g, EXIT_SEEDS)[n])
    {
      if c == 20 {
        AroundPocket(w, placed, n);
      }
    }
    SeedsAlone(g, EXIT_SEEDS);
  }

  lemma PocketIsGreatest(w: World, placed: seq<RegionGrid>, x: seq<Field>)
    requires IsPocket(w, placed) && ValidDestination(w, EXIT_CELLS) && GlobalSubSolution(w, EXIT_CELLS, 0.0, x)
    ensures Below(x[0], PocketTimes(w))
  {
    assert 18 in EXIT_CELLS[0];
  }

  lemma PocketIsSubSolution(w: World, placed: seq<RegionGrid>)
    requires IsPocket(w, placed) && ValidDestination(w, EXIT_CELLS)
    ensures GlobalSubSolution(w, EXIT_CELLS, EPS, [PocketTimes(w)])
  {
    PocketSolves(w, placed);
  }

  lemma PocketAllGreatest(w: World, placed: seq<RegionGrid>, v: seq<Field>)
    requires IsPocket(w, placed) && ValidDestination(w, EXIT_CELLS) && v == [PocketTimes(w)]
    ensures forall x :: GlobalSubSolution(w, EXIT_CELLS, 0.0, x) ==> forall r :: 0 <= r < |v| ==> Below(x[r], v[r])
  {
    forall x, r | GlobalSubSolution(w, EXIT_CELLS, 0.0, x) && 0 <= r < |v| ensures Below(x[r], v[r]) {
      PocketIsGreatest(w, placed, x);
    }
  }

  lemma PocketConverges(w: World, placed: seq<RegionGrid>, fields: seq<Option<Field>>)
    requires IsPocket(w, placed) && ValidDestination(w, EXIT_CELLS) && fields == [Some(PocketTimes(w))]
    ensures Converges(w, EXIT_CELLS, fields, [EXIT_SEEDS])
  {
    var v := TimesOf(w, fields);
    assert v == [PocketTimes(w)];
    PocketCells(w, placed);
    PocketSolves(w, placed);
    PocketIsSubSolution(w, placed);
    PocketAllGreatest(w, placed, v);
    ConvergesBy(w, EXIT_CELLS, fields, [EXIT_SEEDS], v);
  }

  lemma PocketHalo(w: World, placed: seq<RegionGrid>, fields: seq<Option<Field>>)
    requires IsPocket(w, placed) && fields == [Some(PocketTimes(w))] && PlainFields(w, fields)
    ensures HasHalo(w, placed, fields, 0, Some(PocketTimes(w)), {})
  {
    var none: set<Write> := {};
    assert AreWritesOf(w, placed, fields, 0, none);
    assert Written(placed[0], PocketTimes(w), none, PocketTimes(w), {});
  }

  /** The area of every stage's exit. */
  const EXIT_AREA: seq<Directions.Source> := [Directions.Source(0, [18], Directions.Area)]

  lemma ExitIsArea(w: World)
    requires |w.grids| == 1 && ValidDestination(w, EXIT_CELLS)
    ensures Directions.CellsOf(w, EXIT_AREA, EXIT_CELLS)
  {
    forall r: nat, c: nat | r < |EXIT_CELLS| ensures c in EXIT_CELLS[r] <==> Directions.SourceCell(EXIT_AREA, r, c) {
      assert EXIT_AREA[0] in EXIT_AREA;
    }
  }

  lemma PocketIsSolved(w: World, placed: seq<RegionGrid>)
    requires IsPocket(w, placed)
    ensures Directions.Solved(w, placed, EXIT_AREA, PocketSolution(w))
  {
    PocketCells(w, placed);
    var fields := [Some(PocketTimes(w))];
    PocketConverges(w, placed, fields);
    ConvergedFieldsArePlain(w, EXIT_CELLS, fields, [EXIT_SEEDS]);
    PocketHalo(w, placed, fields);
    assert Originated(w, EXIT_CELLS, Labels(fields, [EXIT_SEEDS]));
    assert IsSolution(w, placed, EXIT_CELLS, PocketSolution(w), fields, [EXIT_SEEDS]);
    ExitIsArea(w);
  }

  /** Every stage is an exit in the first room. */
  ghost function PocketNetwork(w: World, placed: seq<RegionGrid>): Network
    requires |w.grids| == 1
  {
    Network(w, placed, UNIT, _ => EXIT_AREA, _ => Some(PocketSolution(w)))
  }

  /** The router answers as the field over the pocket's world does. */
  ghost predicate RoutesPocket(w: World, placed: seq<RegionGrid>, router: Router) {
    && |w.grids| == 1 && ValidNetwork(PocketNetwork(w, placed))
    && Answers(PocketNetwork(w, placed), router)
  }

  lemma PocketNetworkIsValid(w: World, placed: seq<RegionGrid>)
    requires IsPocket(w, placed)
    ensures ValidNetwork(PocketNetwork(w, placed)) && AllAdjoin(w, placed)
  {
    PocketCells(w, placed);
    PocketIsSolved(w, placed);
    SameForAllStages(w, placed, PocketNetwork(w, placed));
  }

  lemma SameForAllStages(w: World, placed: seq<RegionGrid>, n: Network)
    requires ValidWorld(w) && Places(w, placed) && |w.grids| == 1 && n == PocketNetwork(w, placed)
    requires Directions.Solved(w, placed, EXIT_AREA, PocketSolution(w))
    ensures ValidNetwork(n)
  {
    forall s ensures n.sources(s) == EXIT_AREA && n.solution(s) == Some(PocketSolution(w)) {
    }
  }

  lemma PocketStands(n: Network, w: World, placed: seq<RegionGrid>)
    requires IsPocket(w, placed) && n == PocketNetwork(w, placed)
    ensures StandsAt(n, POCKET, 20)
  {
    UnitFloor(POCKET.xy, (2, 0));
    RowMajor(8, 2, 4);
    PocketCells(w, placed);
  }

  /** An agent in the pocket is stranded. */
  lemma PocketStrands(
    w: World, placed: seq<RegionGrid>, kinds: map<StageId, Kind>, router: Router, a: Agent)
    requires IsPocket(w, placed)
    requires RoutesPocket(w, placed, router)
    requires a.stage in kinds && !kinds[a.stage].DirectSteering? && a.place == POCKET
    ensures Stranded(kinds, router, a)
  {
    var n := PocketNetwork(w, placed);
    PocketNetworkIsValid(w, placed);
    PocketStands(n, w, placed);
    forall c: nat | StandsAt(n, POCKET, c) ensures !Reached(n, a.stage, POCKET, c) {
      OneCellPerPlace(n, POCKET, 20, c);
    }
    StrandedIff(n, router, kinds, a);
  }

  /** What is left of an add that failed. */
  ghost predicate OnlyAgent(agents: seq<Agent>, targeting: map<StageId, nat>) {
    |agents| == 1 && agents[0].place == POCKET && agents[0].stage == 0 && 0 in targeting && targeting[0] == 1
  }

  lemma OneCounted(targeting: map<StageId, nat>, agents: seq<Agent>)
    requires |agents| == 1 && agents[0].stage == 0 && CountersMatch(targeting, agents)
    ensures 0 in targeting && targeting[0] == 1
  {
    assert KnownStage(targeting, agents[0]);
    assert agents[..0] == [];
    assert CountAt(agents, 0) == 1;
  }

  lemma StrandedIsNotReady(
    kinds: map<StageId, Kind>, router: Router, m: Minds, i: nat, decided: Minds, r: Option<AgentId>, after: Minds)
    requires AddedTo(kinds, router, m, i, r, decided, after) && Stranded(kinds, router, m.agents[i])
    ensures r.None? && after == decided && |after.agents| == |m.agents| && SameSpot(m.agents[i], after.agents[i])
    ensures after.removed == m.removed
  {
    DecidedOne(kinds, router, m, decided, i);
    ReadyByDecision(kinds, router, m, decided, i);
  }

  /** One stage, an exit, and a journey that stays with it. */
  method SetUp(
    router: Router, advance: (seq<Agent>, Agent) -> Option<(Place, nat)>, admits: (seq<Agent>, Place, nat) -> bool)
    returns (sim: Simulation)
    ensures fresh(sim) && fresh(sim.stages) && fresh(sim.grid) && sim.Valid() && sim.router == router &&
              sim.admits == admits
    ensures sim.agents == [] && sim.removed == [] && !sim.iterating && sim.stages.kinds == map[0 := Exit]
    ensures 0 in sim.journeys && 0 in sim.journeys[0]
  {
    sim := new Simulation(router, advance, admits);
    var stage := sim.AddStage(0, ExitOver(true, true));
    var stay: map<StageId, Description> := map[0 := Stay];
    assert AcceptedAll(sim.stages.kinds, stay);
    var journey := sim.AddJourney(0, stay);
  }

  /** Every agent in the pocket is stranded. */
  ghost predicate Traps(router: Router) {
    forall kinds: map<StageId, Kind>, a: Agent {:trigger Stranded(kinds, router, a)} ::
      a.stage in kinds && !kinds[a.stage].DirectSteering? && a.place == POCKET ==> Stranded(kinds, router, a)
  }

  lemma BuiltTraps(speedAt: (nat, Point) -> real, w: World, placed: seq<RegionGrid>, router: Router)
    requires IsBuilt(UNIT, POCKET_GRAPH, speedAt, w, placed) && SpeedsInOutline(speedAt)
    requires RoutesPocket(w, placed, router)
    ensures Traps(router)
  {
    BuiltIsPocket(UNIT, speedAt, w, placed);
    forall kinds: map<StageId, Kind>, a: Agent |
      a.stage in kinds && !kinds[a.stage].DirectSteering? && a.place == POCKET ensures Stranded(kinds, router, a)
    {
      PocketStrands(w, placed, kinds, router, a);
    }
  }

  /** Over whatever the outline is built into: the call fails, and yet the agent is in the list, filed in
      the grid (the simulation is valid) and counted by its stage; the iteration that follows fails as
      well. */
  method AddInPocket(
    ghost speedAt: (nat, Point) -> real, ghost w: World, ghost placed: seq<RegionGrid>, router: Router,
    advance: (seq<Agent>, Agent) -> Option<(Place, nat)>, admits: (seq<Agent>, Place, nat) -> bool)
    returns (sim: Simulation, added: Option<AgentId>, iterated: Outcome)
    requires IsBuilt(UNIT, POCKET_GRAPH, speedAt, w, placed) && SpeedsInOutline(speedAt)
    requires RoutesPocket(w, placed, router) && admits([], POCKET, 0)
    ensures sim.Valid() && added.None? && iterated.Error?
    ensures OnlyAgent(sim.agents, sim.stages.targeting)
  {
    BuiltTraps(speedAt, w, placed, router);
    sim, added, iterated := AddAndIterate(router, advance, admits);
  }

  method AddAndIterate(
    router: Router, advance: (seq<Agent>, Agent) -> Option<(Place, nat)>, admits: (seq<Agent>, Place, nat) -> bool)
    returns (sim: Simulation, added: Option<AgentId>, iterated: Outcome)
    requires Traps(router) && admits([], POCKET, 0)
    ensures sim.Valid() && added.None? && iterated.Error?
    ensures OnlyAgent(sim.agents, sim.stages.targeting)
  {
    sim := SetUp(router, advance, admits);
    added := AddStranded(sim);
    iterated := IterateStranded(sim);
  }

  method AddStranded(sim: Simulation) returns (added: Option<AgentId>)
    requires sim.Valid() && sim.agents == [] && sim.removed == [] && !sim.iterating &&
               sim.stages.kinds == map[0 := Exit]
    requires 0 in sim.journeys && 0 in sim.journeys[0] && sim.admits([], POCKET, 0) && Traps(sim.router)
    modifies sim`agents, sim`removed, sim`journeys, sim`nextId, sim.stages`targeting, sim.grid
    ensures sim.Valid() && added.None? && sim.removed == [] && sim.stages.kinds == map[0 := Exit]
    ensures |sim.agents| == 1 && sim.agents[0].place == POCKET && sim.agents[0].stage == 0
  {
    ghost var before, a := sim.Mind(), sim.NewAgent(0, 0, POCKET, 0);
    ghost var decided;
    added, decided := sim.AddAgent(0, 0, POCKET, 0);
    assert before.agents + [a] == [a] && Stranded(sim.stages.kinds, sim.router, a);
    StrandedIsNotReady(sim.stages.kinds, sim.router, Registered(before, a), 0, decided, added, sim.Mind());
  }

  method IterateStranded(sim: Simulation) returns (iterated: Outcome)
    requires sim.Valid() && sim.removed == [] && !sim.iterating && sim.stages.kinds == map[0 := Exit]
    requires |sim.agents| == 1 && sim.agents[0].place == POCKET && sim.agents[0].stage == 0 && Traps(sim.router)
    modifies sim`agents, sim`removed, sim`journeys, sim`iterating, sim`iteration, sim.stages`targeting, sim.grid
    ensures sim.Valid() && iterated.Error? && sim.removed == [] && OnlyAgent(sim.agents, sim.stages.targeting)
  {
    ghost var before, a := sim.Mind(), sim.agents[0];
    assert before.agents == [a] && IdBelow(a, sim.nextId) && Stranded(sim.stages.kinds, sim.router, a);
    ghost var run;
    iterated, run := sim.Iterate();
    LoneAgentBlocks(sim.stages.kinds, sim.router, sim.advance, before, run, iterated, sim.Mind(), a, sim.nextId);
    OneCounted(sim.stages.targeting, sim.agents);
  }

  lemma LoneAgentBlocks(
    kinds: map<StageId, Kind>, router: Router, advance: (seq<Agent>, Agent) -> Option<(Place, nat)>, before: Minds,
    run: IterationRun, outcome: Outcome, after: Minds, a: Agent, nextId: nat)
    requires Iterated(kinds, router, advance, before, run, outcome, after)
    requires before.agents == [a] && before.removed == [] && Stranded(kinds, router, a) && a.id < nextId
    ensures outcome.Error? && after.removed == [] && |after.agents| == 1 && SameSpot(a, after.agents[0])
  {
    OnlySurvivor(before.agents, a, nextId);
    var b := StrandedAgentBlocks(kinds, router, advance, before, run, outcome, after, a, nextId);
    StillAlone(kinds, router, advance, before, run, outcome, after, a, b);
  }

  lemma OnlySurvivor(agents: seq<Agent>, a: Agent, nextId: nat)
    requires agents == [a] && a.id < nextId
    ensures Survivors(agents, []) == [a] && UniqueIds(Survivors(agents, []), nextId)
  {
    SurvivorsKeepIds(agents, [], nextId);
    assert agents[..0] == [];
  }

  lemma NobodyLeaves(
    kinds: map<StageId, Kind>, router: Router, first: Minds, decided: Minds, done: nat, a: Agent)
    requires Decisions(kinds, router, first, decided, 0, done)
    requires first.agents == [a] && first.removed == [] && Stranded(kinds, router, a)
    ensures |decided.agents| == 1 && decided.removed == []
  {
    DecisionsTogether(kinds, router, first, decided, 0, done);
    if done > 0 {
      assert Leaving(kinds, router, [a], 0, 0) == [];
      assert Leaving(kinds, router, [a], 0, 1) == [];
    }
  }

  lemma StillAlone(
    kinds: map<StageId, Kind>, router: Router, advance: (seq<Agent>, Agent) -> Option<(Place, nat)>, before: Minds,
    run: IterationRun, outcome: Outcome, after: Minds, a: Agent, b: Agent)
    requires Iterated(kinds, router, advance, before, run, outcome, after) && outcome.Error?
    requires before.agents == [a] && before.removed == [] && Survivors([a], []) == [a] && Stranded(kinds, router, a)
    requires b in after.agents && SameSpot(a, b)
    ensures after.agents == [b] && after.removed == []
  {
    NobodyLeaves(kinds, router, run.first, run.decided, run.done, a);
  }
}
