// Two rooms whose common edge runs through the middle of a column of cells: the centres on it belong to
// neither room, so the cells facing each other across the seam are two apart (compare seam_pairs and
// steepest_descent in libfloorfield/src/multi_region.rs).
module WidePairs {
  import opened Wrappers
  import opened Cells
  import opened Reals
  import opened Plane
  import opened Times
  import opened Relaxation
  import opened FastSweeping
  import opened Propagation
  import opened SeedOrigins
  import opened Seams
  import opened Halo
  import opened Queries
  import opened Gradients
  import opened SeamDescent
  import opened RegionGraphs
  import opened Layouts
  import Directions
  import Godunov

  // ---- The rooms ----

  const LEFT_ROOM: Outline := Outline([(0.0, 0.0), (2.5, 0.0), (2.5, 1.0), (0.0, 1.0)], [])

  const RIGHT_ROOM: Outline := Outline([(2.5, 0.0), (4.0, 0.0), (4.0, 1.0), (2.5, 1.0)], [])

  const ROOMS: RegionGraph := RegionGraph([LEFT_ROOM, RIGHT_ROOM], [SeamEdge(0, 1, 0, 1), SeamEdge(1, 0, 0, 3)])

  predicate InRoom(r: nat, p: Point) {
    0.0 < p.1 < 1.0 && if r == 0 then 0.0 < p.0 < 2.5 else 2.5 < p.0 < 4.0
  }

  /** Speeds are positive strictly inside a room, whatever the influence of its walls. */
  ghost predicate SpeedsInRooms(speedAt: (nat, Point) -> real) {
    forall r: nat, p: Point {:trigger speedAt(r, p)} :: r < 2 ==> (speedAt(r, p) > 0.0 <==> InRoom(r, p))
  }

  lemma RoomsAreValid()
    ensures ValidGraph(ROOMS)
    ensures ValidSeam(ROOMS, ROOMS.seams[0]) && ValidSeam(ROOMS, ROOMS.seams[1])
    ensures EdgeOf(LEFT_ROOM, ROOMS.seams[0]) == Some(((2.5, 0.0), (2.5, 1.0)))
    ensures EdgeOf(RIGHT_ROOM, ROOMS.seams[1]) == Some(((2.5, 1.0), (2.5, 0.0)))
  {
    assert Reverses(ROOMS.seams[0], ROOMS.seams[1]) && Reverses(ROOMS.seams[1], ROOMS.seams[0]);
    assert LedBack(ROOMS, ROOMS.seams[0]) && LedBack(ROOMS, ROOMS.seams[1]);
  }

  lemma BoxesOfRooms()
    ensures IsBoundingBox(LEFT_ROOM.outer, 4, (0.0, 0.0), (2.5, 1.0))
    ensures IsBoundingBox(RIGHT_ROOM.outer, 4, (2.5, 0.0), (4.0, 1.0))
  {
    assert LEFT_ROOM.outer[0] == (0.0, 0.0) && LEFT_ROOM.outer[2] == (2.5, 1.0);
    assert RIGHT_ROOM.outer[0] == (2.5, 0.0) && RIGHT_ROOM.outer[2] == (4.0, 1.0);
  }

  lemma OriginOfRooms(origin: Point)
    requires IsOrigin(ROOMS, 2, origin)
    ensures origin == (0.0, 0.0)
  {
    assert ROOMS.regions[0].outer[0] == (0.0, 0.0);
  }

  // ---- The grids ----

  /** The world that the rooms are built into: two grids of 7 x 6 cells, two and one of them walkable, and
      one pair across the seam, its cells two apart. */
  ghost predicate IsWide(w: World, placed: seq<RegionGrid>, cross: real) {
    && ValidWorld(w) && Places(w, placed) && |w.grids| == 2
    && UnitGrid(placed[0], (-2, -2), 7, 6) && UnitGrid(placed[1], (0, -2), 7, 6)
    && (forall c: nat :: Walkable(w.grids[0], c) <==> c == 16 || c == 17)
    && (forall c: nat :: Walkable(w.grids[1], c) <==> c == 17)
    && cross > 0.0
    && forall r: nat, y: nat, q: Pair ::
         Crosses(w, r, y, q) <==> ((r == 0 && y == 1) || (r == 1 && y == 0)) && q == Pair(17, 17, cross)
  }

  /** Which cells of a room's grid are walkable. */
  lemma WalkableInRoom(
    speedAt: (nat, Point) -> real, placed: seq<RegionGrid>, r: nat, offset: LatticeCell, c: nat)
    requires SpeedsInRooms(speedAt) && r < 2 && r < |placed| && UnitGrid(placed[r], offset, 7, 6)
    requires offset == if r == 0 then (-2, -2) else (0, -2)
    requires HoldsSpeeds(UNIT, placed[r], r, speedAt)
    ensures Walkable(placed[r].grid, c) <==> c == 17 || (r == 0 && c == 16)
  {
    UnitSize(placed[r], offset, 7, 6);
    if c < 42 {
      UnitCell(placed[r], offset, 7, 6, c);
      assert Walkable(placed[r].grid, c) <==> InRoom(r, CellCenter(UNIT, placed[r], c));
    }
  }

  lemma RoomGrids(speedAt: (nat, Point) -> real, placed: seq<RegionGrid>)
    requires SpeedsInRooms(speedAt) && IsPlaced(UNIT, ROOMS, placed, speedAt)
    ensures UnitGrid(placed[0], (-2, -2), 7, 6) && UnitGrid(placed[1], (0, -2), 7, 6)
    ensures forall c: nat :: Walkable(placed[0].grid, c) <==> c == 16 || c == 17
    ensures forall c: nat :: Walkable(placed[1].grid, c) <==> c == 17
  {
    BoxesOfRooms();
    assert PlacedOver(UNIT, ROOMS, placed, 0) && PlacedOver(UNIT, ROOMS, placed, 1);
    GridOfRegion(ROOMS, placed, 0, (0.0, 0.0), (2.5, 1.0), (0, 0), (2, 1));
    GridOfRegion(ROOMS, placed, 1, (2.5, 0.0), (4.0, 1.0), (2, 0), (4, 1));
    forall c: nat ensures Walkable(placed[0].grid, c) <==> c == 16 || c == 17 {
      WalkableInRoom(speedAt, placed, 0, (-2, -2), c);
    }
    forall c: nat ensures Walkable(placed[1].grid, c) <==> c == 17 {
      WalkableInRoom(speedAt, placed, 1, (0, -2), c);
    }
  }

  // ---- The seam ----

  /** The two grids as built. */
  ghost predicate AreRooms(left: RegionGrid, right: RegionGrid) {
    && ValidGrid(left.grid) && ValidGrid(right.grid)
    && UnitGrid(left, (-2, -2), 7, 6) && UnitGrid(right, (0, -2), 7, 6)
    && (forall c: nat :: Walkable(left.grid, c) <==> c == 16 || c == 17)
    && forall c: nat :: Walkable(right.grid, c) <==> c == 17
  }

  lemma RoomCells(left: RegionGrid, right: RegionGrid)
    requires AreRooms(left, right)
    ensures Size(left.grid) == Size(right.grid) == 42
    ensures Lattice(left, 16) == (0, 0) && CellCenter(UNIT, left, 16) == (0.5, 0.5)
    ensures Lattice(left, 17) == (1, 0) && CellCenter(UNIT, left, 17) == (1.5, 0.5)
    ensures Lattice(right, 17) == (3, 0) && CellCenter(UNIT, right, 17) == (3.5, 0.5)
  {
    UnitSize(left, (-2, -2), 7, 6);
    UnitSize(right, (0, -2), 7, 6);
    UnitCell(left, (-2, -2), 7, 6, 16);
    UnitCell(left, (-2, -2), 7, 6, 17);
    UnitCell(right, (0, -2), 7, 6, 17);
  }

  /** A point on the edge between the rooms. */
  predicate OnEdge(p: Point) {
    p.0 == 2.5 && 0.0 <= p.1 < 1.0
  }

  lemma NearestInLeftRoom(left: RegionGrid, right: RegionGrid, p: Point, side: Side, c: nat)
    requires AreRooms(left, right) && OnEdge(p)
    requires OnSide(Some(side), (0.5, 0.5)) && OnSide(Some(side), (1.5, 0.5))
    ensures IsNearestWalkable(UNIT, left, p, Some(side), Some(c)) <==> c == 17
  {
    RoomCells(left, right);
    UnitFloor(p, (2, 0));
    SquareMonotone(1.0, 2.0);
    assert Square(1.5 - 2.5) == Square(1.0) && Square(0.5 - 2.5) == Square(2.0);
    assert Eligible(UNIT, left, (2, 0), Some(side), 17);
    assert Preferred(UNIT, left, p, 17, 16) && Preferred(UNIT, left, p, 17, 17);
    assert IsNearestWalkable(UNIT, left, p, Some(side), Some(17));
    if IsNearestWalkable(UNIT, left, p, Some(side), Some(c)) {
      NearestIsUnique(UNIT, left, p, Some(side), Some(c), Some(17));
    }
  }

  lemma NearestInRightRoom(left: RegionGrid, right: RegionGrid, p: Point, side: Side, c: nat)
    requires AreRooms(left, right) && OnEdge(p) && OnSide(Some(side), (3.5, 0.5))
    ensures IsNearestWalkable(UNIT, right, p, Some(side), Some(c)) <==> c == 17
  {
    RoomCells(left, right);
    UnitFloor(p, (2, 0));
    assert Eligible(UNIT, right, (2, 0), Some(side), 17);
    assert IsNearestWalkable(UNIT, right, p, Some(side), Some(17));
    if IsNearestWalkable(UNIT, right, p, Some(side), Some(c)) {
      NearestIsUnique(UNIT, right, p, Some(side), Some(c), Some(17));
    }
  }

  lemma RootOfSquare(root: real -> real, n: real, x: real)
    requires Godunov.IsSquareRoot(root) && x > 0.0 && n == x * x
    ensures root(n) == x
  {
    var r := root(n);
    assert r >= 0.0 && r * r == x * x;
    assert (r - x) * (r + x) == 0.0;
    Signs(r - x, r + x);
  }

  /** The edge, one way or the other, has length 1 and so two samples. */
  lemma EdgeSamples(root: real -> real, a: Point, b: Point, k: nat)
    requires Godunov.IsSquareRoot(root) && k < 2
    requires (a, b) == ((2.5, 0.0), (2.5, 1.0)) || (a, b) == ((2.5, 1.0), (2.5, 0.0))
    ensures Length(root, a, b) == 1.0 && SampleCount(1.0, 1.0) == 2
    ensures OnEdge(SamplePoint(a, b, 2, k))
  {
    assert Dot(Minus(b, a), Minus(b, a)) == 1.0;
    RootOfSquare(root, 1.0, 1.0);
    assert 1.0 / (1.0 * 0.5) == 2.0;
    var t := SampleParameter(2, k);
    assert t == if k == 0 then 0.25 else 0.75;
    assert Scale(t, 0.0) == 0.0 && Scale(t, 1.0) == t && Scale(t, -1.0) == -t;
  }

  lemma SidesOfEdge()
    ensures var left := Some(LeftOf((2.5, 0.0), (2.5, 1.0), 1.0));
            OnSide(left, (0.5, 0.5)) && OnSide(left, (1.5, 0.5))
    ensures OnSide(Some(RightOf((2.5, 0.0), (2.5, 1.0), 1.0)), (3.5, 0.5))
    ensures OnSide(Some(LeftOf((2.5, 1.0), (2.5, 0.0), 1.0)), (3.5, 0.5))
    ensures var right := Some(RightOf((2.5, 1.0), (2.5, 0.0), 1.0));
            OnSide(right, (0.5, 0.5)) && OnSide(right, (1.5, 0.5))
  {
  }

  /** The time across: two cells at the mean of the speeds. */
  ghost function Across(left: RegionGrid, right: RegionGrid): real
    requires AreRooms(left, right)
  {
    RoomCells(left, right);
    CrossingTime(UNIT, left, right, 17, 17)
  }

  lemma AcrossBothWays(left: RegionGrid, right: RegionGrid)
    requires AreRooms(left, right)
    ensures CrossingTime(UNIT, right, left, 17, 17) == Across(left, right) > 0.0
  {
    RoomCells(left, right);
    var ds := DistanceSquared((1.5, 0.5), (3.5, 0.5));
    assert ds == Square(-2.0) + Square(0.0) == 4.0 && DistanceSquared((3.5, 0.5), (1.5, 0.5)) == 4.0;
    RootOfSquare(left.grid.root, ds, 2.0);
    RootOfSquare(right.grid.root, ds, 2.0);
    assert Walkable(left.grid, 17) && Walkable(right.grid, 17);
    CrossingTakesTime(left.grid.root, ds, 0.5 * (left.grid.speed[17] + right.grid.speed[17]));
  }

  /** Every sample of the seam from left to right gives that pair. */
  lemma SampleFromLeft(left: RegionGrid, right: RegionGrid, k: nat, q: Pair)
    requires AreRooms(left, right) && k < 2
    requires Length(left.grid.root, (2.5, 0.0), (2.5, 1.0)) > 0.0
    ensures SampledPair(UNIT, left, right, (2.5, 0.0), (2.5, 1.0), k, q) <==> q == Pair(17, 17, Across(left, right))
  {
    var a, b := (2.5, 0.0), (2.5, 1.0);
    RoomCells(left, right);
    SidesOfEdge();
    EdgeSamples(left.grid.root, a, b, k);
    var p := SamplePoint(a, b, 2, k);
    NearestInLeftRoom(left, right, p, LeftOf(a, b, 1.0), q.near);
    NearestInRightRoom(left, right, p, RightOf(a, b, 1.0), q.far);
  }

  lemma SampleFromRight(left: RegionGrid, right: RegionGrid, k: nat, q: Pair)
    requires AreRooms(left, right) && k < 2
    requires Length(right.grid.root, (2.5, 1.0), (2.5, 0.0)) > 0.0
    ensures SampledPair(UNIT, right, left, (2.5, 1.0), (2.5, 0.0), k, q) <==> q == Pair(17, 17, Across(left, right))
  {
    var a, b := (2.5, 1.0), (2.5, 0.0);
    RoomCells(left, right);
    SidesOfEdge();
    EdgeSamples(right.grid.root, a, b, k);
    AcrossBothWays(left, right);
    var p := SamplePoint(a, b, 2, k);
    NearestInRightRoom(left, right, p, LeftOf(a, b, 1.0), q.near);
    NearestInLeftRoom(left, right, p, RightOf(a, b, 1.0), q.far);
  }

  /** So that is what both seams rasterise to. */
  lemma PairsFromLeft(left: RegionGrid, right: RegionGrid, pairs: seq<Pair>, q: Pair)
    requires AreRooms(left, right) && Rasterises(UNIT, left, right, (2.5, 0.0), (2.5, 1.0), pairs)
    ensures q in pairs <==> q == Pair(17, 17, Across(left, right))
  {
    EdgeSamples(left.grid.root, (2.5, 0.0), (2.5, 1.0), 0);
    TwoSamples(UNIT, left, right, (2.5, 0.0), (2.5, 1.0), pairs, q);
    SampleFromLeft(left, right, 0, q);
    SampleFromLeft(left, right, 1, q);
  }

  lemma PairsFromRight(left: RegionGrid, right: RegionGrid, pairs: seq<Pair>, q: Pair)
    requires AreRooms(left, right) && Rasterises(UNIT, right, left, (2.5, 1.0), (2.5, 0.0), pairs)
    ensures q in pairs <==> q == Pair(17, 17, Across(left, right))
  {
    EdgeSamples(right.grid.root, (2.5, 1.0), (2.5, 0.0), 0);
    TwoSamples(UNIT, right, left, (2.5, 1.0), (2.5, 0.0), pairs, q);
    SampleFromRight(left, right, 0, q);
    SampleFromRight(left, right, 1, q);
  }

  lemma SeamsOfRooms(placed: seq<RegionGrid>, seams: seq<Seam>)
    requires |placed| == |seams| == 2 && AreRooms(placed[0], placed[1])
    requires SeamDone(UNIT, ROOMS, placed, seams, 0) && SeamDone(UNIT, ROOMS, placed, seams, 1)
    ensures seams[0].to == 1 && seams[1].to == 0
    ensures forall s, q :: 0 <= s < 2 ==>
              (q in seams[s].pairs <==> q == Pair(17, 17, Across(placed[0], placed[1])))
  {
    RoomsAreValid();
    forall s, q | 0 <= s < 2 ensures q in seams[s].pairs <==> q == Pair(17, 17, Across(placed[0], placed[1])) {
      if s == 0 {
        PairsFromLeft(placed[0], placed[1], seams[0].pairs, q);
      } else {
        PairsFromRight(placed[0], placed[1], seams[1].pairs, q);
      }
    }
  }

  /** Whatever the graph is built into is such a world. */
  lemma BuiltIsWide(
    spec: GridSpec, speedAt: (nat, Point) -> real, w: World, placed: seq<RegionGrid>) returns (cross: real)
    requires IsBuilt(spec, ROOMS, speedAt, w, placed) && spec.cellSize == 1.0 && SpeedsInRooms(speedAt)
    ensures spec == UNIT && IsWide(w, placed, cross)
  {
    OriginOfRooms((spec.originX, spec.originY));
    RoomGrids(speedAt, placed);
    assert PlacedOver(UNIT, ROOMS, placed, 0) && PlacedOver(UNIT, ROOMS, placed, 1);
    cross := Across(placed[0], placed[1]);
    AcrossBothWays(placed[0], placed[1]);
    assert SeamDone(spec, ROOMS, placed, w.seams, 0) && SeamDone(spec, ROOMS, placed, w.seams, 1);
    SeamsOfRooms(placed, w.seams);
    CrossingsByPairs(w, cross);
  }

  lemma CrossingsByPairs(w: World, cross: real)
    requires ValidWorld(w) && |w.grids| == |w.seams| == 2 && Sorted(ROOMS, w.outSeams, 2)
    requires w.seams[0].to == 1 && w.seams[1].to == 0
    requires forall s, q :: 0 <= s < 2 ==> (q in w.seams[s].pairs <==> q == Pair(17, 17, cross))
    ensures forall r: nat, y: nat, q: Pair ::
              Crosses(w, r, y, q) <==> ((r == 0 && y == 1) || (r == 1 && y == 0)) && q == Pair(17, 17, cross)
  {
    assert ROOMS.seams[0].from == 0 && ROOMS.seams[1].from == 1;
    assert 0 in w.outSeams[0] && 1 in w.outSeams[1];
    assert Pair(17, 17, cross) in w.seams[0].pairs && Pair(17, 17, cross) in w.seams[1].pairs;
  }

  // ---- Descent gets stuck ----

  /** The exit covers the left room. */
  const EXIT: seq<seq<nat>> := [[16, 17], []]

  lemma ExitIsValid(w: World, placed: seq<RegionGrid>, cross: real)
    requires IsWide(w, placed, cross)
    ensures ValidDestination(w, EXIT) && Size(w.grids[0]) == Size(w.grids[1]) == 42
    ensures Lattice(placed[0], 17) == (1, 0) && Lattice(placed[1], 17) == (3, 0)
    ensures Local(placed[0], (3, 0)) == Some(19) && Local(placed[1], (1, 0)) == Some(15)
  {
    RoomCells(placed[0], placed[1]);
    RowMajor(7, 2, 5);
    RowMajor(7, 2, 1);
  }

  /** The right room's halo is one cell, away from the neighbours of its walkable cell. */
  lemma HaloOfRight(
    w: World, placed: seq<RegionGrid>, cross: real, fields: seq<Option<Field>>, query: Field, halo: set<nat>, c: nat)
    requires IsWide(w, placed, cross) && PlainFields(w, fields) && fields[1].Some?
    requires HasHalo(w, placed, fields, 1, Some(query), halo) && c < 42 && c != 15 && c != 17
    ensures |query| == 42 && query[c] == Inf
  {
    ExitIsValid(w, placed, cross);
    var writes: set<Write> :| AreWritesOf(w, placed, fields, 1, writes) &&
      Written(placed[1], fields[1].value, writes, query, halo);
    assert CellWritten(placed[1], fields[1].value, writes, query, halo, c);
    forall wr | wr in writes ensures Local(placed[1], wr.lattice) == Some(15) {
      var y: nat, q: Pair :| Offers(w, placed, fields, 1, y, q, wr);
    }
  }

  lemma NeighboursOfRight(w: World, placed: seq<RegionGrid>, cross: real, d: (int, int))
    requires IsWide(w, placed, cross) && d in NEIGHBOURS
    ensures Size(w.grids[1]) == 42
    ensures var n := NeighbourAt(w.grids[1], 17, d); n.Some? && n.value != 15 && n.value != 17
  {
    ExitIsValid(w, placed, cross);
    UnitCell(placed[1], (0, -2), 7, 6, 17);
    RowMajor(7, 2 + d.0, 3 + d.1);
  }

  /** The right room's cell is reached, and neither the gradient nor a neighbour leads on. */
  ghost predicate IsStuck(w: World, s: Solution)
    requires ValidWorld(w) && |w.grids| == 2
  {
    && |s.query| == 2 && s.query[1].Some? && |s.query[1].value| == Size(w.grids[1]) == 42
    && s.query[1].value[17].Fin? && SobelGradient(w.grids[1], s.query[1].value, 17) == (0.0, 0.0)
    && forall d :: d in NEIGHBOURS ==> !Downhill(w.grids[1], s.query[1].value, 17, d)
  }

  /** In every solution, the walkable cell of the right room is reached, and yet nothing around it is
      earlier, or reached at all: the left room's time is two cells away, in the halo. */
  lemma WidePairGetsStuck(
    w: World, placed: seq<RegionGrid>, cross: real, dest: seq<seq<nat>>, s: Solution, fields: seq<Option<Field>>,
    seeds: seq<Seeds>)
    requires IsWide(w, placed, cross) && ValidDestination(w, dest) && 17 in dest[0]
    requires IsSolution(w, placed, dest, s, fields, seeds)
    ensures IsStuck(w, s)
  {
    RightIsReached(w, placed, cross, dest, fields, seeds);
    StuckByHalo(w, placed, cross, s, fields);
  }

  lemma StuckByHalo(w: World, placed: seq<RegionGrid>, cross: real, s: Solution, fields: seq<Option<Field>>)
    requires IsWide(w, placed, cross) && PlainFields(w, fields) && HaveHalos(w, placed, fields, s)
    requires fields[1].Some? && |fields[1].value| == Size(w.grids[1]) == 42 && fields[1].value[17].Fin?
    ensures IsStuck(w, s)
  {
    assert HasHalo(w, placed, fields, 1, s.query[1], s.halo[1]);
    var query := s.query[1].value;
    HaloAgreesOnWalkable(w, placed, fields, 1, query, s.halo[1]);
    forall d | d in NEIGHBOURS
      ensures !Downhill(w.grids[1], query, 17, d) && Sample(w.grids[1], query, 17, d) == query[17].t
    {
      NeighboursOfRight(w, placed, cross, d);
      HaloOfRight(w, placed, cross, fields, query, s.halo[1], NeighbourAt(w.grids[1], 17, d).value);
    }
    FlatIsLinear(Samples(w.grids[1], query, 17), query[17].t, w.grids[1].cellSize);
    AroundAreSamples(w.grids[1], query, 17, Samples(w.grids[1], query, 17));
    LinearIsExact(w.grids[1], query, 17, Samples(w.grids[1], query, 17), (0.0, 0.0));
  }

  lemma FlatIsLinear(t: seq<real>, centre: real, h: real)
    requires |t| == 8 && forall k :: 0 <= k < 8 ==> t[k] == centre
    ensures Linear(t, centre, h, (0.0, 0.0))
  {
    forall k | 0 <= k < 8 ensures Scale(h, Ahead((0.0, 0.0), NEIGHBOURS[k])) == 0.0 {
      assert Ahead((0.0, 0.0), NEIGHBOURS[k]) == 0.0;
    }
  }

  lemma RightIsReached(
    w: World, placed: seq<RegionGrid>, cross: real, dest: seq<seq<nat>>, fields: seq<Option<Field>>,
    seeds: seq<Seeds>)
    requires IsWide(w, placed, cross) && ValidDestination(w, dest) && Converges(w, dest, fields, seeds)
    requires 17 in dest[0]
    ensures fields[1].Some? && |fields[1].value| == Size(w.grids[1]) == 42 && fields[1].value[17].Fin?
  {
    ExitIsValid(w, placed, cross);
    var v := TimesOf(w, fields);
    assert Crosses(w, 0, 1, Pair(17, 17, cross));
    assert Le(v[0][17], Fin(0.0)) && Le(v[1][17], Plus(v[0][17], cross + EPS));
  }

  // ---- A solution there is ----

  ghost function SeedsOfRooms(cross: real): seq<Seeds> {
    [map[16 := 0.0, 17 := 0.0], map[17 := cross]]
  }

  ghost function TimesOfRooms(w: World, cross: real): (v: seq<Field>)
    requires |w.grids| == 2
    ensures |v| == 2
  {
    [SeedField(w.grids[0], SeedsOfRooms(cross)[0]), SeedField(w.grids[1], SeedsOfRooms(cross)[1])]
  }

  ghost function FieldsOfRooms(w: World, cross: real): seq<Option<Field>>
    requires |w.grids| == 2
  {
    [Some(TimesOfRooms(w, cross)[0]), Some(TimesOfRooms(w, cross)[1])]
  }

  ghost function SolutionOfRooms(w: World, cross: real): Solution
    requires |w.grids| == 2 && Size(w.grids[0]) == Size(w.grids[1]) == 42
  {
    Solution([Some(TimesOfRooms(w, cross)[0][19 := Fin(cross)]), Some(TimesOfRooms(w, cross)[1][15 := Fin(0.0)])],
      [{19}, {15}])
  }

  lemma RoomsAreCold(w: World, placed: seq<RegionGrid>, cross: real, r: nat)
    requires IsWide(w, placed, cross) && r < 2
    ensures SeedsFit(w.grids[r], SeedsOfRooms(cross)[r])
    ensures Solves(Sweeping(w.grids[r]), SeedField(w.grids[r], SeedsOfRooms(cross)[r]), TimesOfRooms(w, cross)[r])
  {
    ExitIsValid(w, placed, cross);
    var g, seeds := w.grids[r], SeedsOfRooms(cross)[r];
    forall c: nat, n: nat | c < Size(g) && Walkable(g, c) && n < Size(g) && Neighbors(g, c, n)
      ensures Le(SeedField(g, seeds)[c], SeedField(g, seeds)[n])
    {
      assert c == 17 || (r == 0 && c == 16);
      NeighborIsOther(g, c, n);
    }
    SeedsAlone(g, seeds);
  }

  /** A cell is no neighbour of its own. */
  lemma NeighborIsOther(g: Grid, c: nat, n: nat)
    requires c < Size(g) && Neighbors(g, c, n)
    ensures n != c
  {
    CellOfRowCol(g.width, g.height, c);
    var i, j := Row(g.width, c), Col(g.width, c);
    RowMajor(g.width, i, j);
    if j > 0 { RowMajor(g.width, i, j - 1); }
    RowMajor(g.width, i, j + 1);
    if i > 0 { RowMajor(g.width, i - 1, j); }
    RowMajor(g.width, i + 1, j);
  }

  lemma RoomIsSubSolution(w: World, placed: seq<RegionGrid>, cross: real, r: nat)
    requires IsWide(w, placed, cross) && r < 2
    ensures var v := TimesOfRooms(w, cross)[r]; |v| == Size(w.grids[r]) && SubSolution(Sweeping(w.grids[r]), v)
  {
    RoomsAreCold(w, placed, cross, r);
  }

  /** The times at the cells that matter. */
  lemma TimesAtEdge(w: World, placed: seq<RegionGrid>, cross: real)
    requires IsWide(w, placed, cross)
    ensures var v := TimesOfRooms(w, cross);
            && |v[0]| == |v[1]| == 42
            && (forall c: nat :: c < 42 ==> v[0][c] == if c == 16 || c == 17 then Fin(0.0) else Inf)
            && forall c: nat :: c < 42 ==> v[1][c] == if c == 17 then Fin(cross) else Inf
  {
    ExitIsValid(w, placed, cross);
  }

  lemma TimesThatMatter(w: World, placed: seq<RegionGrid>, cross: real, v: seq<Field>)
    requires IsWide(w, placed, cross) && v == TimesOfRooms(w, cross)
    ensures FieldsFit(w, v) && Size(w.grids[0]) == Size(w.grids[1]) == 42
    ensures v[0][16] == v[0][17] == Fin(0.0) && v[1][17] == Fin(cross)
  {
    ExitIsValid(w, placed, cross);
    TimesAtEdge(w, placed, cross);
  }

  lemma AllSubSolutions(w: World, placed: seq<RegionGrid>, cross: real, v: seq<Field>)
    requires IsWide(w, placed, cross) && v == TimesOfRooms(w, cross) && FieldsFit(w, v)
    ensures forall r :: 0 <= r < |v| ==> SubSolution(Sweeping(w.grids[r]), v[r])
  {
    forall r | 0 <= r < |v| ensures SubSolution(Sweeping(w.grids[r]), v[r]) {
      RoomIsSubSolution(w, placed, cross, r);
    }
  }

  lemma RoomsAreSubSolution(w: World, placed: seq<RegionGrid>, cross: real, v: seq<Field>)
    requires IsWide(w, placed, cross) && ValidDestination(w, EXIT) && v == TimesOfRooms(w, cross)
    ensures GlobalSubSolution(w, EXIT, EPS, v)
  {
    TimesThatMatter(w, placed, cross, v);
    AllSubSolutions(w, placed, cross, v);
    CrossingsHold(w, placed, cross, v);
    ExitAtZero(w, v);
    GlobalBy(w, EXIT, EPS, v);
  }

  lemma ExitAtZero(w: World, v: seq<Field>)
    requires |w.grids| == 2 && ValidDestination(w, EXIT) && FieldsFit(w, v) &&
               Size(w.grids[0]) == Size(w.grids[1]) == 42 && v[0][16] == v[0][17] == Fin(0.0)
    ensures forall r, c :: 0 <= r < |v| && c in EXIT[r] ==> Le(v[r][c], Fin(0.0))
  {
  }

  lemma CrossingsHold(w: World, placed: seq<RegionGrid>, cross: real, v: seq<Field>)
    requires IsWide(w, placed, cross) && FieldsFit(w, v) && Size(w.grids[0]) == Size(w.grids[1]) == 42
    requires v[0][17] == Fin(0.0) && v[1][17] == Fin(cross)
    ensures forall r: nat, y: nat, q: Pair :: Crosses(w, r, y, q) ==> Le(v[y][q.far], Plus(v[r][q.near], q.cross + EPS))
  {
  }

  lemma RoomsAreGreatest(w: World, placed: seq<RegionGrid>, cross: real, x: seq<Field>, v: seq<Field>, r: nat)
    requires IsWide(w, placed, cross) && ValidDestination(w, EXIT) && GlobalSubSolution(w, EXIT, 0.0, x) && r < 2
    requires v == TimesOfRooms(w, cross)
    ensures Below(x[r], v[r])
  {
    TimesAtEdge(w, placed, cross);
    NotLaterThanRooms(w, placed, cross, x);
  }

  lemma NotLaterThanRooms(w: World, placed: seq<RegionGrid>, cross: real, x: seq<Field>)
    requires IsWide(w, placed, cross) && ValidDestination(w, EXIT) && GlobalSubSolution(w, EXIT, 0.0, x)
    ensures |x| == 2 && |x[0]| == |x[1]| == 42
    ensures Le(x[0][16], Fin(0.0)) && Le(x[0][17], Fin(0.0)) && Le(x[1][17], Fin(cross))
  {
    ExitIsValid(w, placed, cross);
    assert 16 in EXIT[0] && 17 in EXIT[0] && Crosses(w, 0, 1, Pair(17, 17, cross));
    assert Le(x[1][17], Plus(x[0][17], cross + 0.0));
  }

  lemma AllCold(w: World, placed: seq<RegionGrid>, cross: real, v: seq<Field>, seeds: seq<Seeds>)
    requires IsWide(w, placed, cross) && v == TimesOfRooms(w, cross) && seeds == SeedsOfRooms(cross)
    ensures forall r :: 0 <= r < |v| ==>
              SeedsFit(w.grids[r], seeds[r]) && Solves(Sweeping(w.grids[r]), SeedField(w.grids[r], seeds[r]), v[r])
  {
    forall r | 0 <= r < |v|
      ensures SeedsFit(w.grids[r], seeds[r]) && Solves(Sweeping(w.grids[r]), SeedField(w.grids[r], seeds[r]), v[r])
    {
      RoomsAreCold(w, placed, cross, r);
    }
  }

  lemma AllGreatest(w: World, placed: seq<RegionGrid>, cross: real, v: seq<Field>)
    requires IsWide(w, placed, cross) && ValidDestination(w, EXIT) && v == TimesOfRooms(w, cross)
    ensures forall x :: GlobalSubSolution(w, EXIT, 0.0, x) ==> forall r :: 0 <= r < |v| ==> Below(x[r], v[r])
  {
    forall x, r | GlobalSubSolution(w, EXIT, 0.0, x) && 0 <= r < |v| ensures Below(x[r], v[r]) {
      RoomsAreGreatest(w, placed, cross, x, v, r);
    }
  }

  lemma AllZero(w: World, placed: seq<RegionGrid>, cross: real, v: seq<Field>)
    requires IsWide(w, placed, cross) && v == TimesOfRooms(w, cross)
    ensures forall r, c :: 0 <= r < |v| && 0 <= c < |v[r]| ==> (v[r][c] == Fin(0.0) <==> c in EXIT[r])
  {
    TimesAtEdge(w, placed, cross);
  }

  lemma RoomsConverge(w: World, placed: seq<RegionGrid>, cross: real)
    requires IsWide(w, placed, cross) && ValidDestination(w, EXIT)
    ensures Converges(w, EXIT, FieldsOfRooms(w, cross), SeedsOfRooms(cross))
  {
    var v, fields, seeds := TimesOfRooms(w, cross), FieldsOfRooms(w, cross), SeedsOfRooms(cross);
    assert TimesOf(w, fields) == v;
    RoomsAreSubSolution(w, placed, cross, v);
    AllGreatest(w, placed, cross, v);
    AllCold(w, placed, cross, v, seeds);
    AllZero(w, placed, cross, v);
    ConvergesBy(w, EXIT, fields, seeds, v);
  }

  lemma RoomsAreShaped(w: World, placed: seq<RegionGrid>, cross: real, l: Labels)
    requires IsWide(w, placed, cross) && l == Labels(FieldsOfRooms(w, cross), SeedsOfRooms(cross))
    ensures Shaped(w, l)
  {
    forall r | 0 <= r < |w.grids|
      ensures SeedsFit(w.grids[r], l.seeds[r]) && l.fields[r].Some? && |l.fields[r].value| == Size(w.grids[r])
    {
      SeedsOfRoomFit(w, placed, cross, r);
    }
  }

  lemma SeedsOfRoomFit(w: World, placed: seq<RegionGrid>, cross: real, r: nat)
    requires IsWide(w, placed, cross) && r < 2
    ensures SeedsFit(w.grids[r], SeedsOfRooms(cross)[r])
  {
    ExitIsValid(w, placed, cross);
  }

  lemma RoomsAreAccounted(w: World, placed: seq<RegionGrid>, cross: real, l: Labels)
    requires IsWide(w, placed, cross) && ValidDestination(w, EXIT)
    requires l == Labels(FieldsOfRooms(w, cross), SeedsOfRooms(cross))
    ensures Originated(w, EXIT, l)
  {
    RoomsAreShaped(w, placed, cross, l);
    TimesAtEdge(w, placed, cross);
    ExitIsValid(w, placed, cross);
    forall y: nat, c: nat | y < |w.grids| && c in l.seeds[y] && c !in EXIT[y] ensures Accounted(w, l, y, c) {
      assert y == 1 && c == 17;
      assert Accounts(w, l, 0, 1, Pair(17, 17, cross), 17);
    }
  }

  /** Region r's only write: the other room's time, where its cell lies. */
  lemma WritesOfRoom(w: World, placed: seq<RegionGrid>, cross: real, r: nat, wr: Write)
    requires IsWide(w, placed, cross) && r < 2 && PlainFields(w, FieldsOfRooms(w, cross))
    ensures CallsFor(w, placed, FieldsOfRooms(w, cross), r, wr) <==>
            wr == if r == 0 then Write((3, 0), Fin(cross)) else Write((1, 0), Fin(0.0))
  {
    ExitIsValid(w, placed, cross);
    var q := Pair(17, 17, cross);
    if CallsFor(w, placed, FieldsOfRooms(w, cross), r, wr) {
      var y: nat, p: Pair :| Offers(w, placed, FieldsOfRooms(w, cross), r, y, p, wr);
    }
    assert Offers(w, placed, FieldsOfRooms(w, cross), r, 1 - r, q,
        if r == 0 then Write((3, 0), Fin(cross)) else Write((1, 0), Fin(0.0)));
  }

  lemma HaloOfRoom(w: World, placed: seq<RegionGrid>, cross: real, r: nat)
    requires IsWide(w, placed, cross) && r < 2 && PlainFields(w, FieldsOfRooms(w, cross))
    requires Size(w.grids[0]) == Size(w.grids[1]) == 42
    ensures var s := SolutionOfRooms(w, cross);
            HasHalo(w, placed, FieldsOfRooms(w, cross), r, s.query[r], s.halo[r])
  {
    ExitIsValid(w, placed, cross);
    var fields, s := FieldsOfRooms(w, cross), SolutionOfRooms(w, cross);
    var wr := if r == 0 then Write((3, 0), Fin(cross)) else Write((1, 0), Fin(0.0));
    var writes := {wr};
    forall x ensures x in writes <==> CallsFor(w, placed, fields, r, x) {
      WritesOfRoom(w, placed, cross, r, x);
    }
    assert AreWritesOf(w, placed, fields, r, writes);
    var field, query, halo := fields[r].value, s.query[r].value, s.halo[r];
    forall c | 0 <= c < |field| ensures CellWritten(placed[r], field, writes, query, halo, c) {
      assert wr in writes;
    }
    assert Written(placed[r], field, writes, query, halo);
  }

  lemma HalosOfRooms(
    w: World, placed: seq<RegionGrid>, cross: real, fields: seq<Option<Field>>, s: Solution)
    requires IsWide(w, placed, cross) && PlainFields(w, fields) && Size(w.grids[0]) == Size(w.grids[1]) == 42
    requires fields == FieldsOfRooms(w, cross) && s == SolutionOfRooms(w, cross)
    ensures HaveHalos(w, placed, fields, s)
  {
    forall r | 0 <= r < 2 ensures HasHalo(w, placed, fields, r, s.query[r], s.halo[r]) {
      HaloOfRoom(w, placed, cross, r);
    }
  }

  /** So the world is an input on which descent gets stuck. */
  lemma WideWorldIsSolved(w: World, placed: seq<RegionGrid>, cross: real)
    requires IsWide(w, placed, cross)
    ensures ValidDestination(w, EXIT) && Size(w.grids[0]) == Size(w.grids[1]) == 42
    ensures IsSolution(w, placed, EXIT, SolutionOfRooms(w, cross), FieldsOfRooms(w, cross), SeedsOfRooms(cross))
  {
    ExitIsValid(w, placed, cross);
    RoomsConverge(w, placed, cross);
    ConvergedFieldsArePlain(w, EXIT, FieldsOfRooms(w, cross), SeedsOfRooms(cross));
    RoomsAreAccounted(w, placed, cross, Labels(FieldsOfRooms(w, cross), SeedsOfRooms(cross)));
    HalosOfRooms(w, placed, cross, FieldsOfRooms(w, cross), SolutionOfRooms(w, cross));
  }

  // ---- From the graph to the query ----

  lemma RoomsAreSmall()
    ensures forall r :: 0 <= r < |ROOMS.regions| ==> !TooLarge(UNIT, ROOMS.regions[r])
  {
    BoxesOfRooms();
    assert Count(7, 6) == 42 by { RowMajor(7, 6, 0); }
    forall r: nat | r < 2 ensures !TooLarge(UNIT, ROOMS.regions[r]) {
      if r == 0 {
        SmallEnough(LEFT_ROOM, (0.0, 0.0), (2.5, 1.0), (0, 0), (2, 1));
      } else {
        SmallEnough(RIGHT_ROOM, (2.5, 0.0), (4.0, 1.0), (2, 0), (4, 1));
      }
    }
  }

  /** The graph is accepted and built into such a world. */
  method BuildRooms(wallInfluence: real, speedAt: (nat, Point) -> real, root: real -> real)
    returns (w: World, placed: seq<RegionGrid>, ghost cross: real)
    requires Godunov.IsSquareRoot(root) && wallInfluence > 0.0 && SpeedsInRooms(speedAt)
    ensures IsBuilt(UNIT, ROOMS, speedAt, w, placed) && IsWide(w, placed, cross)
  {
    var field;
    ghost var spec;
    field, spec := Build(ROOMS, 1.0, wallInfluence, speedAt, root);
    RoomsAreValid();
    OriginOfRooms((spec.originX, spec.originY));
    RoomsAreSmall();
    w, placed := field.value.0, field.value.1;
    cross := BuiltIsWide(spec, speedAt, w, placed);
  }

  const EXIT_AREA: seq<Directions.Source> := [Directions.Source(0, [16, 17], Directions.Area)]

  /** In the middle of the right room's cell. */
  const THERE: Point := (3.5, 0.5)

  /** Asked there, whatever the rooms are built into gives a finite travel time to the exit, and no direction. */
  method AskThere(ghost speedAt: (nat, Point) -> real, w: World, placed: seq<RegionGrid>, s: Solution)
    returns (time: Directions.Answer<Time>, direction: Directions.Answer<Point>)
    requires IsBuilt(UNIT, ROOMS, speedAt, w, placed) && SpeedsInRooms(speedAt)
    requires Directions.Solved(w, placed, EXIT_AREA, s)
    ensures time.Ok? && time.value.Fin? && direction.Unreachable?
  {
    ghost var cross := BuiltIsWide(UNIT, speedAt, w, placed);
    time := Directions.TravelTime(w, placed, UNIT, EXIT_AREA, s, 1, THERE);
    direction := Directions.Direction(w, placed, UNIT, EXIT_AREA, s, 1, THERE);
    StandsThere(w, placed, cross);
    StuckThere(w, placed, cross, s);
    NoWayFromThere(w, s, direction);
  }

  lemma StandsThere(w: World, placed: seq<RegionGrid>, cross: real)
    requires IsWide(w, placed, cross)
    ensures Directions.StandsFor(UNIT, placed[1], THERE, 17)
  {
    UnitFloor(THERE, (3, 0));
    RowMajor(7, 2, 3);
    ExitIsValid(w, placed, cross);
  }

  lemma NoWayFromThere(w: World, s: Solution, a: Directions.Answer<Point>)
    requires ValidWorld(w) && |w.grids| == 2 && Directions.ShapedSolution(w, s) && IsStuck(w, s)
    requires Directions.PointsThere(w, EXIT_AREA, s, 1, THERE, 17, a)
    ensures a.Unreachable?
  {
    assert !Directions.SourceCell(EXIT_AREA, 1, 17);
    NoDescent(w.grids[1], s.query[1].value, 17, a);
  }

  lemma StuckThere(w: World, placed: seq<RegionGrid>, cross: real, s: Solution)
    requires IsWide(w, placed, cross) && Directions.Solved(w, placed, EXIT_AREA, s)
    ensures IsStuck(w, s)
  {
    var dest, fields, seeds :| Directions.CellsOf(w, EXIT_AREA, dest) && IsSolution(w, placed, dest, s, fields, seeds);
    assert EXIT_AREA[0] in EXIT_AREA && Directions.SourceCell(EXIT_AREA, 0, 17);
    WidePairGetsStuck(w, placed, cross, dest, s, fields, seeds);
  }

  lemma NoDescent(g: Grid, query: Field, c: nat, a: Directions.Answer<Point>)
    requires ValidGrid(g) && |query| == Size(g) && c < Size(g) && query[c].Fin? && Directions.Descends(g, query, c, a)
    requires SobelGradient(g, query, c) == (0.0, 0.0)
    requires forall d :: d in NEIGHBOURS ==> !Downhill(g, query, c, d)
    ensures a.Unreachable?
  {
    NormPositive(g.root, (0.0, 0.0));
    NeighboursAreValid(g);
    var d :| Steepest(g, query, c, NEIGHBOURS, |NEIGHBOURS|, d) && Directions.Follows(d, a);
  }
}
