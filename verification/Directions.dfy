// Where a destination's cells are, and which way to walk (point_source, cells_per_region,
// travel_time and direction in libfloorfield/src/multi_region.rs).
module Directions {
  import opened Wrappers
  import opened Reals
  import opened Plane
  import opened Cells
  import opened Times
  import opened Relaxation
  import opened FastSweeping
  import opened Propagation
  import opened Seams
  import opened Halo
  import opened Queries
  import opened Gradients
  import Godunov

  datatype SourceKind = PointAt(anchor: Point) | Area

  /** What a destination has in one region. */
  datatype Source = Source(region: nat, cells: seq<nat>, kind: SourceKind)

  datatype Answer<T> = Ok(value: T) | NotRoutable | Unreachable

  // ---- Sources ----

  /** A cell is the square of one cell size around its centre, with its lower and left sides. */
  ghost predicate Around(spec: GridSpec, g: RegionGrid, c: nat, p: Point)
    requires c < Size(g.grid)
  {
    var centre, half := CellCenter(spec, g, c), spec.cellSize / 2.0;
    -half <= p.0 - centre.0 < half && -half <= p.1 - centre.1 < half
  }

  lemma CellIsAroundCentre(spec: GridSpec, g: RegionGrid, c: nat, p: Point)
    requires spec.cellSize > 0.0 && c < Size(g.grid)
    ensures FloorCell(spec, p) == Lattice(g, c) <==> Around(spec, g, c, p)
  {
    CellOfRowCol(g.grid.width, g.grid.height, c);
    CellAxis(spec.originX, g.offset.0, Col(g.grid.width, c), spec.cellSize, CellCenter(spec, g, c).0, p.0);
    CellAxis(spec.originY, g.offset.1, Row(g.grid.width, c), spec.cellSize, CellCenter(spec, g, c).1, p.1);
  }

  lemma CellAxis(origin: real, offset: int, k: nat, cs: real, centre: real, x: real)
    requires cs > 0.0 && centre == origin + offset as real * cs + k as real * cs + cs * 0.5
    ensures ((x - origin) / cs).Floor == offset + k <==> -(cs / 2.0) <= x - centre < cs / 2.0
  {
    var y, n := (x - origin) / cs, offset + k;
    QuotientTimes(x - origin, cs);
    assert Scale(cs, y - n as real) == x - origin - Scale(cs, n as real);
    assert Scale(cs, n as real) == offset as real * cs + k as real * cs;
    Signs(cs, y - n as real);
    Signs(cs, n as real + 1.0 - y);
    assert Scale(cs, n as real + 1.0 - y) == cs - Scale(cs, y - n as real);
  }

  /** The neighbour at an offset of rows and columns is the cell so many cell sizes up and to the right. */
  lemma NeighbourByCentre(spec: GridSpec, g: RegionGrid, c: nat, d: (int, int), n: nat)
    requires spec.cellSize > 0.0 && c < Size(g.grid)
    ensures NeighbourAt(g.grid, c, d) == Some(n) <==>
              n < Size(g.grid) &&
              CellCenter(spec, g, n) == Along(CellCenter(spec, g, c), (d.1 as real, d.0 as real), spec.cellSize)
  {
    NeighbourIsThere(g.grid, c, d, n);
    if n < Size(g.grid) {
      var cs, w := spec.cellSize, g.grid.width;
      var p, q := CellCenter(spec, g, c), CellCenter(spec, g, n);
      StepAxis(spec.originX, g.offset.0, Col(w, c), Col(w, n), d.1, cs, p.0, q.0);
      StepAxis(spec.originY, g.offset.1, Row(w, c), Row(w, n), d.0, cs, p.1, q.1);
    }
  }

  lemma StepAxis(origin: real, offset: int, k: nat, l: nat, d: int, cs: real, x: real, y: real)
    requires cs > 0.0
    requires x == origin + offset as real * cs + k as real * cs + cs * 0.5
    requires y == origin + offset as real * cs + l as real * cs + cs * 0.5
    ensures y == x + Scale(cs, d as real) <==> l == k + d
  {
    assert y - x - Scale(cs, d as real) == Scale(cs, (l - k - d) as real);
    Signs(cs, (l - k - d) as real);
  }

  /** So a cell's centre lies in the cell. */
  lemma CenterInOwnCell(spec: GridSpec, g: RegionGrid, c: nat)
    requires spec.cellSize > 0.0 && c < Size(g.grid)
    ensures FloorCell(spec, CellCenter(spec, g, c)) == Lattice(g, c)
  {
    CellIsAroundCentre(spec, g, c, CellCenter(spec, g, c));
  }

  /** The walkable cell for a point destination. Its anchor is the point itself, or the centre of the
      cell if the point lies on an obstacle; either way it lies in the cell. */
  method PointSource(spec: GridSpec, g: RegionGrid, region: nat, p: Point) returns (s: Option<Source>)
    requires spec.cellSize > 0.0
    ensures s.None? ==> IsNearestWalkable(spec, g, p, None, None)
    ensures s.Some? ==>
              && s.value.region == region && |s.value.cells| == 1 && s.value.kind.PointAt?
              && IsNearestWalkable(spec, g, p, None, Some(s.value.cells[0]))
              && Local(g, FloorCell(spec, s.value.kind.anchor)) == Some(s.value.cells[0]) &&
                   Walkable(g.grid, s.value.cells[0])
              && s.value.cells[0] < Size(g.grid)
              && (Around(spec, g, s.value.cells[0], p) ==> s.value.kind.anchor == p)
              && (!Around(spec, g, s.value.cells[0], p) ==>
                    s.value.kind.anchor == CellCenter(spec, g, s.value.cells[0]))
  {
    var cell := NearestWalkable(spec, g, p, None);
    if cell.None? {
      return None;
    }
    var own := Local(g, FloorCell(spec, p)) == cell;
    LocalLatticeInverse(g, FloorCell(spec, p), cell.value);
    CellIsAroundCentre(spec, g, cell.value, p);
    CenterInOwnCell(spec, g, cell.value);
    LocalLatticeInverse(g, Lattice(g, cell.value), cell.value);
    s := Some(Source(region, [cell.value], PointAt(if own then p else CellCenter(spec, g, cell.value))));
  }

  /** A cell of one of the sources in region r. */
  ghost predicate SourceCell(sources: seq<Source>, r: nat, c: nat) {
    exists s :: s in sources && s.region == r && c in s.cells
  }

  /** What registering a destination guarantees: its cells are walkable cells of existing regions. */
  ghost predicate ValidSources(w: World, sources: seq<Source>) {
    forall s :: s in sources ==>
      s.region < |w.grids| && forall c :: c in s.cells ==> c < Size(w.grids[s.region]) && Walkable(w.grids[s.region], c)
  }

  /** The cells of the sources, region by region. */
  ghost predicate CellsOf(w: World, sources: seq<Source>, dest: seq<seq<nat>>) {
    ValidDestination(w, dest) && forall r: nat, c: nat :: r < |dest| ==> (c in dest[r] <==> SourceCell(sources, r, c))
  }

  /** The source cells of every region, merged. */
  method CellsPerRegion(w: World, sources: seq<Source>) returns (dest: seq<seq<nat>>)
    requires ValidSources(w, sources)
    ensures CellsOf(w, sources, dest)
  {
    dest := seq(|w.grids|, _ => []);
    for k := 0 to |sources|
      invariant |dest| == |w.grids|
      invariant forall r: nat, c: nat :: r < |dest| ==> (c in dest[r] <==> SourceCell(sources[..k], r, c))
    {
      var s := sources[k];
      assert s in sources && sources[..k + 1] == sources[..k] + [s];
      dest := dest[s.region := dest[s.region] + s.cells];
      forall r: nat, c: nat ensures SourceCell(sources[..k + 1], r, c) <==>
        SourceCell(sources[..k], r, c) || (s.region == r && c in s.cells) {
        assert s in sources[..k + 1];
      }
    }
    assert sources[..|sources|] == sources;
  }

  // ---- Queries at a point ----

  /** The unit vector along d, if d has a direction. */
  function Unit(root: real -> real, d: Point): Point {
    var norm := root(Dot(d, d));
    if norm > 0.0 then (d.0 / norm, d.1 / norm) else (0.0, 0.0)
  }

  /** v is the unit vector in which `to` lies from `from`; zero if they are the same. */
  ghost predicate Points(v: Point, from: Point, to: Point) {
    if from == to then v == (0.0, 0.0)
    else Square(v.0) + Square(v.1) == 1.0 && exists t: real :: t > 0.0 && Along(from, v, t) == to
  }

  lemma UnitPoints(root: real -> real, d: Point, from: Point, to: Point)
    requires Godunov.IsSquareRoot(root) && d == Minus(to, from)
    ensures Points(Unit(root, d), from, to)
  {
    NormPositive(root, d);
    DotPositive(d);
    if d != (0.0, 0.0) {
      var v, norm := Unit(root, d), root(Dot(d, d));
      QuotientTimes(d.0, norm);
      QuotientTimes(d.1, norm);
      assert Along(from, v, norm) == to;
      SumOfSquares(norm, v.0, v.1);
      assert Square(norm) == Dot(d, d) == Square(d.0) + Square(d.1);
      SquarePositive(norm);
      assert Scale(Square(norm), 1.0) == Square(norm);
      Cancel(Square(norm), Square(v.0) + Square(v.1), 1.0);
    }
  }

  lemma SumOfSquares(n: real, x: real, y: real)
    ensures Scale(Square(n), Square(x) + Square(y)) == Square(Scale(n, x)) + Square(Scale(n, y))
  {
  }

  /** There is only one. */
  lemma PointsOneWay(v: Point, v': Point, from: Point, to: Point)
    requires Points(v, from, to) && Points(v', from, to)
    ensures v == v'
  {
    if from != to {
      var t: real :| t > 0.0 && Along(from, v, t) == to;
      var t': real :| t' > 0.0 && Along(from, v', t') == to;
      SumOfSquares(t, v.0, v.1);
      SumOfSquares(t', v'.0, v'.1);
      assert Scale(t, v.0) == Scale(t', v'.0) && Scale(t, v.1) == Scale(t', v'.1);
      assert Square(t) == Scale(Square(t), 1.0) == Scale(Square(t'), 1.0) == Square(t');
      if t < t' {
        SquareMonotone(t, t');
      } else {
        SquareMonotone(t', t);
      }
      Cancel(t, v.0, v'.0);
      Cancel(t, v.1, v'.1);
    }
  }

  lemma UnitIsZeroIffZero(root: real -> real, d: Point)
    requires Godunov.IsSquareRoot(root)
    ensures Unit(root, d) == (0.0, 0.0) <==> d == (0.0, 0.0)
  {
    NormPositive(root, d);
    var norm := root(Dot(d, d));
    if norm > 0.0 {
      QuotientIsZero(d.0, norm);
      QuotientIsZero(d.1, norm);
    }
  }

  lemma QuotientIsZero(x: real, n: real)
    requires n > 0.0
    ensures x / n == 0.0 <==> x == 0.0
  {
    QuotientTimes(x, n);
  }

  /** The cell that a query point stands for: none if the grid does not cover the point or no
      walkable cell is near. */
  method QueryCell(spec: GridSpec, g: RegionGrid, p: Point) returns (cell: Option<nat>)
    requires spec.cellSize > 0.0
    ensures if Local(g, FloorCell(spec, p)).None? then cell == None else IsNearestWalkable(spec, g, p, None, cell)
    ensures cell.Some? ==> cell.value < Size(g.grid) && Walkable(g.grid, cell.value)
  {
    var own := Local(g, FloorCell(spec, p));
    if own.None? {
      return None;
    }
    LocalLatticeInverse(g, FloorCell(spec, p), own.value);
    cell := NearestWalkable(spec, g, p, None);
  }

  /** The stored solution of a destination given by its sources. */
  ghost predicate Solved(w: World, placed: seq<RegionGrid>, sources: seq<Source>, s: Solution)
    requires ValidWorld(w) && Places(w, placed)
  {
    exists dest, fields, seeds :: CellsOf(w, sources, dest) && IsSolution(w, placed, dest, s, fields, seeds)
  }

  ghost predicate ShapedSolution(w: World, s: Solution) {
    |s.query| == |w.grids| && forall r :: 0 <= r < |s.query| && s.query[r].Some? ==>
      |s.query[r].value| == Size(w.grids[r])
  }

  lemma SolutionIsShaped(w: World, placed: seq<RegionGrid>, sources: seq<Source>, s: Solution)
    requires ValidWorld(w) && Places(w, placed) && Solved(w, placed, sources, s)
    ensures ShapedSolution(w, s)
  {
  }

  lemma ZeroIffSourceCell(w: World, placed: seq<RegionGrid>, sources: seq<Source>, s: Solution, r: nat, c: nat)
    requires ValidWorld(w) && Places(w, placed) && Solved(w, placed, sources, s)
    requires r < |w.grids| && c < Size(w.grids[r]) && Walkable(w.grids[r], c)
    ensures |s.query| == |w.grids| && (s.query[r].Some? ==> |s.query[r].value| == Size(w.grids[r]))
    ensures (s.query[r].Some? && s.query[r].value[c] == Fin(0.0)) <==> SourceCell(sources, r, c)
  {
    var dest, fields, seeds :| CellsOf(w, sources, dest) && IsSolution(w, placed, dest, s, fields, seeds);
    ZeroTimeIffSource(w, placed, dest, s, fields, seeds, r, c);
  }

  /** Travel time from a point: zero exactly at a source cell of the destination. */
  method TravelTime(
    w: World, placed: seq<RegionGrid>, spec: GridSpec, ghost sources: seq<Source>, s: Solution, r: nat, p: Point)
    returns (a: Answer<Time>)
    requires ValidWorld(w) && Places(w, placed) && spec.cellSize > 0.0 && Solved(w, placed, sources, s) && r < |w.grids|
    ensures !a.Unreachable?
    ensures ShapedSolution(w, s)
    ensures a.NotRoutable? <==> forall c: nat :: !StandsFor(spec, placed[r], p, c)
    ensures forall c: nat :: StandsFor(spec, placed[r], p, c) ==>
              && a == Ok(if s.query[r].Some? then s.query[r].value[c] else Inf)
              && (a == Ok(Fin(0.0)) <==> SourceCell(sources, r, c))
  {
    var cell := QueryCell(spec, placed[r], p);
    forall c: nat | StandsFor(spec, placed[r], p, c) ensures cell == Some(c) {
      NearestIsUnique(spec, placed[r], p, None, cell, Some(c));
    }
    if cell.None? {
      return NotRoutable;
    }
    assert StandsFor(spec, placed[r], p, cell.value);
    ZeroIffSourceCell(w, placed, sources, s, r, cell.value);
    a := Ok(if s.query[r].Some? then s.query[r].value[cell.value] else Inf);
  }

  /** Cell c is the one taken for a query at p. */
  ghost predicate StandsFor(spec: GridSpec, g: RegionGrid, p: Point, c: nat)
    requires spec.cellSize > 0.0
  {
    Local(g, FloorCell(spec, p)).Some? && IsNearestWalkable(spec, g, p, None, Some(c))
  }

  predicate Has(x: Source, r: nat, c: nat) {
    x.region == r && c in x.cells
  }

  /** Source k is the first in region r that has cell c. */
  ghost predicate FirstSource(sources: seq<Source>, r: nat, c: nat, k: nat) {
    k < |sources| && Has(sources[k], r, c) && forall i :: 0 <= i < k ==> !Has(sources[i], r, c)
  }

  /** The first source in region r that has the cell. */
  method FindSource(sources: seq<Source>, r: nat, c: nat) returns (found: Option<nat>)
    ensures found.Some? <==> SourceCell(sources, r, c)
    ensures found.Some? ==> FirstSource(sources, r, c, found.value)
  {
    for k := 0 to |sources|
      invariant forall i :: 0 <= i < k ==> !Has(sources[i], r, c)
    {
      if Has(sources[k], r, c) {
        return Some(k);
      }
    }
    found := None;
  }

  lemma FirstIsOne(sources: seq<Source>, r: nat, c: nat, k: nat, l: nat)
    requires FirstSource(sources, r, c, k) && FirstSource(sources, r, c, l)
    ensures k == l
  {
  }

  const MIN_GRADIENT: real := 0.000000000001

  /** Downhill against the gradient or, where that vanishes, along the steepest descent. */
  ghost predicate Descends(g: Grid, query: Field, c: nat, a: Answer<Point>)
    requires ValidGrid(g) && |query| == Size(g) && c < Size(g) && query[c].Fin?
  {
    NeighboursAreValid(g);
    var gradient := SobelGradient(g, query, c);
    if g.root(Dot(gradient, gradient)) > 0.000000000001 then
      a.Ok? && Points(a.value, gradient, (0.0, 0.0))
    else
      exists d :: Steepest(g, query, c, NEIGHBOURS, |NEIGHBOURS|, d) && Follows(d, a)
  }

  /** The direction of a neighbour at an offset of rows and columns. */
  ghost predicate Follows(d: Option<(int, int)>, a: Answer<Point>) {
    match d
    case None => a == Unreachable
    case Some(offset) => a.Ok? && Points(a.value, (0.0, 0.0), (offset.1 as real, offset.0 as real))
  }

  function Towards(g: Grid, d: Option<(int, int)>): Answer<Point> {
    if d.None? then Unreachable else Ok(Unit(g.root, (d.value.1 as real, d.value.0 as real)))
  }

  lemma UnitLeadsDown(g: Grid, query: Field, c: nat, v: Point, d: (int, int))
    requires ValidGrid(g) && |query| == Size(g) && c < Size(g) && query[c].Fin? && v != (0.0, 0.0)
    requires d in NEIGHBOURS && DownTowards(g, query, c, v, d)
    ensures LeadsDown(g, query, c, Unit(g.root, v))
  {
    NormPositive(g.root, v);
    AheadOfUnit(v, g.root(Dot(v, v)), d);
    assert DownTowards(g, query, c, Unit(g.root, v), d);
  }

  lemma AheadOfUnit(v: Point, norm: real, d: (int, int))
    requires norm > 0.0
    ensures Scale(norm, Ahead((v.0 / norm, v.1 / norm), d)) == Ahead(v, d)
    ensures Ahead(v, d) > 0.0 <==> Ahead((v.0 / norm, v.1 / norm), d) > 0.0
    ensures Ahead(v, d) < 0.0 <==> Ahead((v.0 / norm, v.1 / norm), d) < 0.0
  {
    QuotientTimes(v.0, norm);
    QuotientTimes(v.1, norm);
    Signs(norm, Ahead((v.0 / norm, v.1 / norm), d));
  }

  lemma AgainstGradient(g: Grid, query: Field, c: nat)
    requires ValidGrid(g) && |query| == Size(g) && c < Size(g) && query[c].Fin?
    requires var v := SobelGradient(g, query, c); g.root(Dot(v, v)) > 0.0
    ensures var v := SobelGradient(g, query, c);
            Unit(g.root, (-v.0, -v.1)) != (0.0, 0.0) && LeadsDown(g, query, c, Unit(g.root, (-v.0, -v.1)))
  {
    var v := SobelGradient(g, query, c);
    NormPositive(g.root, v);
    UnitIsZeroIffZero(g.root, (-v.0, -v.1));
    var d := GradientLeadsDown(g, query, c);
    UnitLeadsDown(g, query, c, (-v.0, -v.1), d);
  }

  lemma AlongDescent(g: Grid, query: Field, c: nat, d: (int, int))
    requires ValidGrid(g) && |query| == Size(g) && c < Size(g) && query[c].Fin?
    requires d in NEIGHBOURS && Downhill(g, query, c, d)
    ensures var v := (d.1 as real, d.0 as real);
            Unit(g.root, v) != (0.0, 0.0) && LeadsDown(g, query, c, Unit(g.root, v))
  {
    var v := (d.1 as real, d.0 as real);
    assert v != (0.0, 0.0);
    UnitIsZeroIffZero(g.root, v);
    TowardsItself(d);
    UnitLeadsDown(g, query, c, v, d);
  }

  lemma TowardsItself(d: (int, int))
    requires d in NEIGHBOURS
    ensures Ahead((d.1 as real, d.0 as real), d) > 0.0
  {
  }

  /** Outside the destination the direction is never zero, and leads downhill. */
  method Descend(g: Grid, query: Field, c: nat) returns (a: Answer<Point>)
    requires ValidGrid(g) && |query| == Size(g) && c < Size(g) && query[c].Fin?
    ensures Descends(g, query, c, a)
    ensures !a.NotRoutable? && (a.Ok? ==> a.value != (0.0, 0.0) && LeadsDown(g, query, c, a.value))
    ensures a.Unreachable? ==> forall d :: d in NEIGHBOURS ==> !Downhill(g, query, c, d)
  {
    var gradient := SobelGradient(g, query, c);
    if g.root(Dot(gradient, gradient)) > MIN_GRADIENT {
      AgainstGradient(g, query, c);
      UnitPoints(g.root, (-gradient.0, -gradient.1), gradient, (0.0, 0.0));
      return Ok(Unit(g.root, (-gradient.0, -gradient.1)));
    }
    var d := SteepestDescent(g, query, c);
    if d.Some? {
      AlongDescent(g, query, c, d.value);
      var offset := (d.value.1 as real, d.value.0 as real);
      UnitPoints(g.root, offset, (0.0, 0.0), offset);
    }
    a := Towards(g, d);
  }

  /** The direction from a point: zero in an area's cells, straight to the anchor in a point
      destination's cell, and downhill elsewhere. */
  method Direction(
    w: World, placed: seq<RegionGrid>, spec: GridSpec, sources: seq<Source>, s: Solution, r: nat, p: Point)
    returns (a: Answer<Point>)
    requires ValidWorld(w) && Places(w, placed) && spec.cellSize > 0.0 && Solved(w, placed, sources, s) && r < |w.grids|
    ensures ShapedSolution(w, s)
    ensures a.NotRoutable? <==> forall c: nat :: !StandsFor(spec, placed[r], p, c)
    ensures forall c: nat :: StandsFor(spec, placed[r], p, c) ==>
              PointsThere(w, sources, s, r, p, c, a) && GoesRight(w, sources, s, r, p, c, a)
  {
    SolutionIsShaped(w, placed, sources, s);
    var cell := QueryCell(spec, placed[r], p);
    forall c: nat | StandsFor(spec, placed[r], p, c) ensures cell == Some(c) {
      NearestIsUnique(spec, placed[r], p, None, cell, Some(c));
    }
    if cell.None? {
      return NotRoutable;
    }
    assert StandsFor(spec, placed[r], p, cell.value);
    a := DirectionFrom(w, placed, sources, s, r, p, cell.value);
  }

  /** The answer at cell c: from the first source that has the cell, else from the travel times. */
  ghost predicate PointsThere(
    w: World, sources: seq<Source>, s: Solution, r: nat, p: Point, c: nat, a: Answer<Point>)
    requires ValidWorld(w) && ShapedSolution(w, s) && r < |w.grids| && c < Size(w.grids[r])
  {
    && (forall k: nat :: FirstSource(sources, r, c, k) ==> a.Ok? && PointsInside(sources[k], p, a.value))
    && (!SourceCell(sources, r, c) ==>
          if s.query[r].None? || s.query[r].value[c].Inf? then
            a == Unreachable
          else
            Descends(w.grids[r], s.query[r].value, c, a))
  }

  /** The stored time of cell c of region r is finite. */
  ghost predicate HasTime(w: World, s: Solution, r: nat, c: nat) {
    && r < |w.grids| && r < |s.query| && s.query[r].Some?
    && c < |s.query[r].value| == Size(w.grids[r]) && s.query[r].value[c].Fin?
  }

  /** In an area's cell the direction is zero, in a point's cell it is zero only on the anchor, and
      elsewhere it is not zero and leads downhill; no direction is given only where the cell is not
      reached or nothing around it is earlier. */
  ghost predicate GoesRight(w: World, sources: seq<Source>, s: Solution, r: nat, p: Point, c: nat, a: Answer<Point>) {
    && r < |w.grids| && r < |s.query|
    && if a.Ok? then
         (a.value == (0.0, 0.0) ==> SourceCell(sources, r, c)) &&
         (SourceCell(sources, r, c) ==>
            exists x :: x in sources && Has(x, r, c) &&
              (a.value == (0.0, 0.0) <==> x.kind.Area? || x.kind.anchor == p)) &&
         (!SourceCell(sources, r, c) ==> HasTime(w, s, r, c) && LeadsDown(w.grids[r], s.query[r].value, c, a.value))
       else
         a.Unreachable? && !SourceCell(sources, r, c) &&
         (HasTime(w, s, r, c) ==>
            forall d :: d in NEIGHBOURS ==> !Downhill(w.grids[r], s.query[r].value, c, d))
  }

  /** At a source: there, or straight to the anchor. */
  ghost predicate PointsInside(s: Source, p: Point, v: Point) {
    match s.kind
    case Area => v == (0.0, 0.0)
    case PointAt(anchor) => Points(v, p, anchor)
  }

  function DirectionInside(g: Grid, s: Source, p: Point): Point {
    match s.kind
    case Area => (0.0, 0.0)
    case PointAt(anchor) => Unit(g.root, Minus(anchor, p))
  }

  lemma InsideGoesRight(w: World, sources: seq<Source>, s: Solution, r: nat, p: Point, c: nat, k: nat)
    requires r < |w.grids| && r < |s.query| && Godunov.IsSquareRoot(w.grids[r].root)
    requires FirstSource(sources, r, c, k)
    ensures PointsInside(sources[k], p, DirectionInside(w.grids[r], sources[k], p))
    ensures GoesRight(w, sources, s, r, p, c, Ok(DirectionInside(w.grids[r], sources[k], p)))
  {
    var x := sources[k];
    assert x in sources && Has(x, r, c);
    if x.kind.PointAt? {
      UnitPoints(w.grids[r].root, Minus(x.kind.anchor, p), p, x.kind.anchor);
      UnitIsZeroIffZero(w.grids[r].root, Minus(x.kind.anchor, p));
    }
  }

  method DirectionFrom(
    w: World, placed: seq<RegionGrid>, sources: seq<Source>, s: Solution, r: nat, p: Point, c: nat)
    returns (a: Answer<Point>)
    requires ValidWorld(w) && Places(w, placed) && Solved(w, placed, sources, s) && r < |w.grids| &&
               ShapedSolution(w, s)
    requires c < Size(w.grids[r]) && Walkable(w.grids[r], c)
    ensures !a.NotRoutable? && PointsThere(w, sources, s, r, p, c, a) && GoesRight(w, sources, s, r, p, c, a)
  {
    ZeroIffSourceCell(w, placed, sources, s, r, c);
    var source := FindSource(sources, r, c);
    if source.Some? {
      a := Ok(DirectionInside(w.grids[r], sources[source.value], p));
      InsideGoesRight(w, sources, s, r, p, c, source.value);
      forall k: nat | FirstSource(sources, r, c, k) ensures k == source.value {
        FirstIsOne(sources, r, c, k, source.value);
      }
      return;
    }
    if s.query[r].None? || s.query[r].value[c].Inf? {
      return Unreachable;
    }
    a := Descend(w.grids[r], s.query[r].value, c);
  }

  /** For a destination of area pieces, the direction from a point is zero exactly where its travel time
      is: both tests say that an agent there has arrived. */
  method ZeroTimeIffZeroDirection(
    w: World, placed: seq<RegionGrid>, spec: GridSpec, sources: seq<Source>, s: Solution, r: nat, p: Point)
    returns (time: Answer<Time>, direction: Answer<Point>)
    requires ValidWorld(w) && Places(w, placed) && spec.cellSize > 0.0 && Solved(w, placed, sources, s) && r < |w.grids|
    requires forall x :: x in sources ==> x.kind.Area?
    ensures time == Ok(Fin(0.0)) <==> direction == Ok((0.0, 0.0))
    ensures time.NotRoutable? <==> direction.NotRoutable?
  {
    time := TravelTime(w, placed, spec, sources, s, r, p);
    direction := Direction(w, placed, spec, sources, s, r, p);
    if exists c: nat :: StandsFor(spec, placed[r], p, c) {
      ghost var c: nat :| StandsFor(spec, placed[r], p, c);
      assert time == Ok(Fin(0.0)) <==> SourceCell(sources, r, c);
      assert GoesRight(w, sources, s, r, p, c, direction);
    }
  }

  // ---- Destinations, solved on first use ----

  datatype Destination = Destination(sources: seq<Source>, solution: Option<Solution>)

  datatype Lookup = Found(solution: Solution) | UnknownDestination | NotConverged

  /** Propagating from the sources can use up its budget. */
  ghost predicate Hopeless(w: World, sources: seq<Source>)
    requires ValidWorld(w)
  {
    exists dest :: CellsOf(w, sources, dest) && Exhausted(w, dest)
  }

  method SolveSources(w: World, placed: seq<RegionGrid>, sources: seq<Source>) returns (s: Option<Solution>)
    requires ValidWorld(w) && Places(w, placed) && ValidSources(w, sources)
    ensures s.Some? ==> Solved(w, placed, sources, s.value)
    ensures s.None? ==> Hopeless(w, sources)
  {
    var dest := CellsPerRegion(w, sources);
    ghost var fields, seeds;
    s, fields, seeds := Solve(w, placed, dest);
  }

  class MultiRegionFloorfield {
    const world: World
    const placed: seq<RegionGrid>
    var destinations: seq<Destination>

    /** Every stored solution solves its destination. */
    ghost predicate Valid()
      reads this
    {
      && ValidWorld(world) && Places(world, placed)
      && forall k :: 0 <= k < |destinations| ==>
           && ValidSources(world, destinations[k].sources)
           && (destinations[k].solution.Some? ==>
                Solved(world, placed, destinations[k].sources, destinations[k].solution.value))
    }

    constructor (world: World, placed: seq<RegionGrid>)
      requires ValidWorld(world) && Places(world, placed)
      ensures Valid() && destinations == [] && this.world == world && this.placed == placed
    {
      this.world, this.placed, destinations := world, placed, [];
    }

    method PushDestination(sources: seq<Source>) returns (dest: nat)
      requires Valid() && ValidSources(world, sources)
      modifies this
      ensures Valid() && dest == |old(destinations)|
      ensures destinations == old(destinations) + [Destination(sources, None)]
    {
      dest := |destinations|;
      destinations := destinations + [Destination(sources, None)];
    }

    /** The solution of a destination: computed on first use and kept from then on. */
    method SolutionOf(dest: nat) returns (r: Lookup)
      requires Valid()
      modifies this
      ensures Valid()
      ensures r.UnknownDestination? <==> dest >= |old(destinations)|
      ensures r.Found? ==> Solved(world, placed, old(destinations)[dest].sources, r.solution)
      ensures r.NotConverged? ==>
                old(destinations)[dest].solution.None? && Hopeless(world, old(destinations)[dest].sources)
      ensures destinations ==
              if r.Found? then old(destinations)[dest := old(destinations)[dest].(solution := Some(r.solution))]
              else old(destinations)
      ensures r.Found? && old(destinations)[dest].solution.Some? ==> destinations == old(destinations)
    {
      if dest >= |destinations| {
        return UnknownDestination;
      }
      var d := destinations[dest];
      if d.solution.None? {
        var s := SolveSources(world, placed, d.sources);
        if s.None? {
          return Lookup.NotConverged;
        }
        destinations := destinations[dest := d.(solution := s)];
        return Found(s.value);
      }
      assert destinations == destinations[dest := d];
      r := Found(d.solution.value);
    }
  }
}
