// The floor field behind the simulation's routing: what `contains` and `get_orientation` answer, and where
// they fail (libsimulator/src/floorfield_routing_engine.cpp).
module RoutingEngines {
  import opened Wrappers
  import opened Plane
  import opened Times
  import opened Relaxation
  import opened FastSweeping
  import opened Propagation
  import opened Seams
  import opened Halo
  import opened Queries
  import opened Gradients
  import opened SeamDescent
  import opened Journeys
  import opened Routing
  import Directions

  /** A field with a destination for every stage; `solution` is none for one that does not converge. */
  datatype Network = Network(
    world: World, placed: seq<RegionGrid>, spec: GridSpec, sources: StageId -> seq<Directions.Source>,
    solution: StageId -> Option<Solution>)

  ghost predicate AreasOnly(sources: seq<Directions.Source>) {
    forall x :: x in sources ==> x.kind.Area?
  }

  ghost predicate ValidNetwork(n: Network) {
    && ValidWorld(n.world) && Places(n.world, n.placed) && n.spec.cellSize > 0.0
    && forall s {:trigger n.solution(s)} ::
         && AreasOnly(n.sources(s))
         && (n.solution(s).Some? ==> Directions.Solved(n.world, n.placed, n.sources(s), n.solution(s).value))
  }

  /** Cell c is the one taken for a place. */
  ghost predicate StandsAt(n: Network, place: Place, c: nat)
    requires n.spec.cellSize > 0.0
  {
    place.region < |n.placed| && Directions.StandsFor(n.spec, n.placed[place.region], place.xy, c)
  }

  ghost predicate Covered(n: Network, place: Place)
    requires n.spec.cellSize > 0.0
  {
    exists c: nat :: StandsAt(n, place, c)
  }

  lemma OneCellPerPlace(n: Network, place: Place, c: nat, c': nat)
    requires n.spec.cellSize > 0.0 && StandsAt(n, place, c) && StandsAt(n, place, c')
    ensures c == c'
  {
    NearestIsUnique(n.spec, n.placed[place.region], place.xy, None, Some(c), Some(c'));
  }

  // ---- The answers ----

  /** Whether the place is in the stage's destination: an error where there is no cell for the place, and
      for a destination that has no solution. */
  ghost predicate ContainsAnswer(n: Network, s: StageId, place: Place, r: Option<bool>)
    requires ValidNetwork(n)
  {
    if n.solution(s).Some? && Covered(n, place) then
      forall c: nat :: StandsAt(n, place, c) ==> r == Some(Directions.SourceCell(n.sources(s), place.region, c))
    else
      r == None
  }

  /** Which way to walk from the place: an error in addition where no direction is given. */
  ghost predicate OrientAnswer(n: Network, s: StageId, place: Place, r: Option<Point>)
    requires ValidNetwork(n)
  {
    if n.solution(s).Some? && Covered(n, place) then
      forall c: nat :: StandsAt(n, place, c) ==> OrientAnswerAt(n, s, place, c, r)
    else
      r == None
  }

  ghost predicate OrientAnswerAt(n: Network, s: StageId, place: Place, c: nat, r: Option<Point>)
    requires ValidNetwork(n) && n.solution(s).Some? && StandsAt(n, place, c)
  {
    var w, sources, solution := n.world, n.sources(s), n.solution(s).value;
    && Directions.ShapedSolution(w, solution)
    && exists a :: Directions.PointsThere(w, sources, solution, place.region, place.xy, c, a) &&
         r == Given(a)
  }

  function Given<T>(a: Directions.Answer<T>): Option<T> {
    if a.Ok? then Some(a.value) else None
  }

  method Contains(n: Network, s: StageId, place: Place) returns (r: Option<bool>)
    requires ValidNetwork(n)
    ensures ContainsAnswer(n, s, place, r)
  {
    if place.region >= |n.placed| || n.solution(s).None? {
      return None;
    }
    var t := Directions.TravelTime(n.world, n.placed, n.spec, n.sources(s), n.solution(s).value, place.region,
      place.xy);
    r := if t.Ok? then Some(t.value == Fin(0.0)) else None;
    forall c: nat | StandsAt(n, place, c) ensures r == Some(Directions.SourceCell(n.sources(s), place.region, c)) {
      assert Directions.StandsFor(n.spec, n.placed[place.region], place.xy, c);
    }
    assert t.NotRoutable? ==> !Covered(n, place);
    if t.Ok? {
      ghost var c: nat :| Directions.StandsFor(n.spec, n.placed[place.region], place.xy, c);
      assert StandsAt(n, place, c);
    }
  }

  method GetOrientation(n: Network, s: StageId, place: Place) returns (r: Option<Point>)
    requires ValidNetwork(n)
    ensures OrientAnswer(n, s, place, r)
  {
    if place.region >= |n.placed| || n.solution(s).None? {
      return None;
    }
    var a := Directions.Direction(n.world, n.placed, n.spec, n.sources(s), n.solution(s).value, place.region, place.xy);
    r := Given(a);
    forall c: nat | StandsAt(n, place, c) ensures OrientAnswerAt(n, s, place, c, r) {
      assert Directions.StandsFor(n.spec, n.placed[place.region], place.xy, c);
    }
    if !a.NotRoutable? {
      ghost var c: nat :| Directions.StandsFor(n.spec, n.placed[place.region], place.xy, c);
      assert StandsAt(n, place, c);
    }
  }

  /** A router that answers so. Places as targets are routed along shortest paths, about which nothing is
      said. */
  ghost predicate Answers(n: Network, router: Router)
    requires ValidNetwork(n)
  {
    forall s, place {:trigger router.contains(s, place)} {:trigger router.orient(ToStage(s), place)} ::
      ContainsAnswer(n, s, place, router.contains(s, place)) &&
        OrientAnswer(n, s, place, router.orient(ToStage(s), place))
  }

  // ---- Where they fail ----

  lemma ContainsFailsIff(n: Network, s: StageId, place: Place, r: Option<bool>)
    requires ValidNetwork(n) && ContainsAnswer(n, s, place, r)
    ensures r.Some? <==> n.solution(s).Some? && Covered(n, place)
  {
    if n.solution(s).Some? && Covered(n, place) {
      var c: nat :| StandsAt(n, place, c);
    }
  }

  /** A direction can be given at cell c: it is in the destination, or reached and either the gradient is
      not zero there or some neighbour is earlier. */
  ghost predicate Leads(n: Network, s: StageId, place: Place, c: nat)
    requires ValidNetwork(n) && n.solution(s).Some? && StandsAt(n, place, c)
  {
    var g, solution := n.placed[place.region].grid, n.solution(s).value;
    || Directions.SourceCell(n.sources(s), place.region, c)
    || (Reached(n, s, place, c) &&
        (var query := solution.query[place.region].value;
         var d := SobelGradient(g, query, c);
         g.root(Dot(d, d)) > Directions.MIN_GRADIENT || exists x :: x in NEIGHBOURS && Downhill(g, query, c, x)))
  }

  /** The stored time at cell c is finite. */
  ghost predicate Reached(n: Network, s: StageId, place: Place, c: nat)
    requires ValidNetwork(n) && n.solution(s).Some?
  {
    var query := n.solution(s).value.query;
    && place.region < |query| && place.region < |n.placed| && query[place.region].Some?
    && c < |query[place.region].value| == Size(n.placed[place.region].grid) && query[place.region].value[c].Fin?
  }

  ghost predicate CanHead(n: Network, s: StageId, place: Place)
    requires ValidNetwork(n)
  {
    n.solution(s).Some? && exists c: nat :: StandsAt(n, place, c) && Leads(n, s, place, c)
  }

  lemma {:induction false} FirstSourceExists(
    sources: seq<Directions.Source>, r: nat, c: nat, k: nat) returns (first: nat)
    requires k < |sources| && Directions.Has(sources[k], r, c)
    ensures Directions.FirstSource(sources, r, c, first)
    decreases k
  {
    if i :| 0 <= i < k && Directions.Has(sources[i], r, c) {
      first := FirstSourceExists(sources, r, c, i);
    } else {
      first := k;
    }
  }

  lemma StandsOnWalkable(n: Network, place: Place, c: nat)
    requires ValidNetwork(n) && StandsAt(n, place, c)
    ensures place.region < |n.world.grids| && n.placed[place.region].grid == n.world.grids[place.region]
    ensures c < Size(n.world.grids[place.region]) && Walkable(n.world.grids[place.region], c)
  {
    LocalLatticeInverse(n.placed[place.region], FloorCell(n.spec, place.xy), c);
  }

  /** Asking for a direction fails exactly where there is no cell or no direction leads on. */
  lemma OrientFailsIff(n: Network, s: StageId, place: Place, r: Option<Point>)
    requires ValidNetwork(n) && OrientAnswer(n, s, place, r)
    ensures r.Some? <==> CanHead(n, s, place)
  {
    if n.solution(s).Some? && Covered(n, place) {
      var c: nat :| StandsAt(n, place, c);
      OrientFailsAt(n, s, place, c, r);
      forall c': nat | StandsAt(n, place, c') ensures c' == c {
        OneCellPerPlace(n, place, c, c');
      }
    }
  }

  lemma OrientFailsAt(n: Network, s: StageId, place: Place, c: nat, r: Option<Point>)
    requires ValidNetwork(n) && n.solution(s).Some? && StandsAt(n, place, c) && OrientAnswerAt(n, s, place, c, r)
    ensures r.Some? <==> Leads(n, s, place, c)
  {
    var w, sources, solution := n.world, n.sources(s), n.solution(s).value;
    var a :| Directions.PointsThere(w, sources, solution, place.region, place.xy, c, a) && r == Given(a);
    AnswerIffLeads(n, s, place, c, a);
  }

  lemma AnswerIffLeads(n: Network, s: StageId, place: Place, c: nat, a: Directions.Answer<Point>)
    requires ValidNetwork(n) && n.solution(s).Some? && StandsAt(n, place, c)
    requires Directions.ShapedSolution(n.world, n.solution(s).value)
    requires place.region < |n.world.grids| && c < Size(n.world.grids[place.region])
    requires Directions.PointsThere(n.world, n.sources(s), n.solution(s).value, place.region, place.xy, c, a)
    ensures a.Ok? <==> Leads(n, s, place, c)
  {
    StandsOnWalkable(n, place, c);
    if Directions.SourceCell(n.sources(s), place.region, c) {
      var first := FirstSourceOf(n.sources(s), place.region, c);
    } else if Reached(n, s, place, c) {
      DescendsIff(n.world.grids[place.region], n.solution(s).value.query[place.region].value, c, a);
    }
  }

  lemma FirstSourceOf(sources: seq<Directions.Source>, r: nat, c: nat) returns (first: nat)
    requires Directions.SourceCell(sources, r, c)
    ensures Directions.FirstSource(sources, r, c, first)
  {
    var x :| x in sources && x.region == r && c in x.cells;
    var k :| 0 <= k < |sources| && sources[k] == x;
    first := FirstSourceExists(sources, r, c, k);
  }

  lemma DescendsIff(g: Grid, query: Field, c: nat, a: Directions.Answer<Point>)
    requires ValidGrid(g) && |query| == Size(g) && c < Size(g) && query[c].Fin? &&
               Directions.Descends(g, query, c, a)
    ensures var gradient := SobelGradient(g, query, c);
            a.Ok? <==>
              || g.root(Dot(gradient, gradient)) > Directions.MIN_GRADIENT
              || exists x :: x in NEIGHBOURS && Downhill(g, query, c, x)
  {
    var gradient := SobelGradient(g, query, c);
    if g.root(Dot(gradient, gradient)) <= Directions.MIN_GRADIENT {
      NeighboursAreValid(g);
      var d :| Steepest(g, query, c, NEIGHBOURS, |NEIGHBOURS|, d) && Directions.Follows(d, a);
      if d.Some? {
        assert d.value in NEIGHBOURS && Downhill(g, query, c, d.value);
      }
    }
  }

  // ---- What a caller can check beforehand ----

  /** The place stands for a cell, and that cell's stored time to the stage is finite. */
  ghost predicate Reachable(n: Network, s: StageId, place: Place)
    requires ValidNetwork(n)
  {
    n.solution(s).Some? && exists c: nat :: StandsAt(n, place, c) && Reached(n, s, place, c)
  }

  /** Where all pairs of cells across seams adjoin, that is exactly when a direction can be given. */
  lemma ReachableIff(n: Network, s: StageId, place: Place)
    requires ValidNetwork(n) && AllAdjoin(n.world, n.placed)
    ensures CanHead(n, s, place) <==> Reachable(n, s, place)
  {
    if n.solution(s).Some? {
      forall c: nat | StandsAt(n, place, c) ensures Leads(n, s, place, c) <==> Reached(n, s, place, c) {
        LeadsIffReached(n, s, place, c);
      }
    }
  }

  lemma LeadsIffReached(n: Network, s: StageId, place: Place, c: nat)
    requires ValidNetwork(n) && AllAdjoin(n.world, n.placed) && n.solution(s).Some? && StandsAt(n, place, c)
    ensures Leads(n, s, place, c) <==> Reached(n, s, place, c)
  {
    StandsOnWalkable(n, place, c);
    var w, sources, solution := n.world, n.sources(s), n.solution(s).value;
    Directions.ZeroIffSourceCell(w, n.placed, sources, solution, place.region, c);
    if Reached(n, s, place, c) && !Directions.SourceCell(sources, place.region, c) {
      var dest, fields, seeds :| Directions.CellsOf(w, sources, dest) &&
        IsSolution(w, n.placed, dest, solution, fields, seeds);
      var d := AlwaysDownhill(w, n.placed, dest, solution, fields, seeds, place.region, c);
    }
  }

  /** What a router's answers come to. */
  lemma DirectionIffCanHead(n: Network, router: Router, s: StageId, place: Place)
    requires ValidNetwork(n) && Answers(n, router)
    ensures router.orient(ToStage(s), place).Some? <==> CanHead(n, s, place)
    ensures router.contains(s, place).Some? <==> n.solution(s).Some? && Covered(n, place)
  {
    OrientFailsIff(n, s, place, router.orient(ToStage(s), place));
    ContainsFailsIff(n, s, place, router.contains(s, place));
  }
}
