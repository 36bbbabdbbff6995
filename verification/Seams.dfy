// Region grids on one shared lattice, and the rasterisation of a seam into facing pairs of cells
// (RegionGrid, nearest_walkable and seam_pairs in libfloorfield/src/multi_region.rs; GridSpec in
// libfloorfield/src/geometry.rs).
module Seams {
  import opened Wrappers
  import opened Cells
  import opened FastSweeping
  import opened Propagation
  import opened Reals
  import opened Plane
  import Godunov

  type LatticeCell = (int, int)

  /** A lattice shared by several grids. */
  datatype GridSpec = GridSpec(originX: real, originY: real, cellSize: real)

  /** A region's grid and where on the lattice it begins. */
  datatype RegionGrid = RegionGrid(grid: Grid, offset: LatticeCell)

  function FloorCell(spec: GridSpec, p: Point): LatticeCell
    requires spec.cellSize > 0.0
  {
    (((p.0 - spec.originX) / spec.cellSize).Floor, ((p.1 - spec.originY) / spec.cellSize).Floor)
  }

  /** Where a lattice cell is on the grid, if it is on it at all. */
  function Local(g: RegionGrid, lattice: LatticeCell): (c: Option<nat>) {
    var col, row := lattice.0 - g.offset.0, lattice.1 - g.offset.1;
    if 0 <= col < g.grid.width && 0 <= row < g.grid.height then Some(Cell(g.grid.width, row, col)) else None
  }

  function Lattice(g: RegionGrid, c: nat): LatticeCell
    requires c < Size(g.grid)
  {
    CellOfRowCol(g.grid.width, g.grid.height, c);
    (Col(g.grid.width, c) + g.offset.0, Row(g.grid.width, c) + g.offset.1)
  }

  function CellCenter(spec: GridSpec, g: RegionGrid, c: nat): Point
    requires c < Size(g.grid)
  {
    CellOfRowCol(g.grid.width, g.grid.height, c);
    CenterAt(spec, g.offset, Row(g.grid.width, c), Col(g.grid.width, c))
  }

  function CenterAt(spec: GridSpec, offset: LatticeCell, row: nat, col: nat): Point {
    (spec.originX + offset.0 as real * spec.cellSize + col as real * spec.cellSize + spec.cellSize * 0.5,
     spec.originY + offset.1 as real * spec.cellSize + row as real * spec.cellSize + spec.cellSize * 0.5)
  }

  /** Local and lattice indices translate into each other. */
  lemma LocalLatticeInverse(g: RegionGrid, lattice: LatticeCell, c: nat)
    ensures Local(g, lattice) == Some(c) <==> c < Size(g.grid) && Lattice(g, c) == lattice
  {
    var col, row := lattice.0 - g.offset.0, lattice.1 - g.offset.1;
    if 0 <= col < g.grid.width && 0 <= row < g.grid.height {
      InGrid(g.grid.width, g.grid.height, row, col);
      RowColOfCell(g.grid.width, row, col);
    }
    if c < Size(g.grid) {
      CellOfRowCol(g.grid.width, g.grid.height, c);
    }
  }

  // ---- Padding ----

  const HALO_PAD: int := 2

  /** The lattice-aligned grid over the box [min, max], padded by HALO_PAD cells on every side. */
  ghost predicate CoversPadded(spec: GridSpec, g: RegionGrid, min: Point, max: Point)
    requires spec.cellSize > 0.0
  {
    var pad := HALO_PAD as real * spec.cellSize;
    var lo := FloorCell(spec, (min.0 - pad, min.1 - pad));
    var hi := FloorCell(spec, (max.0 + pad, max.1 + pad));
    && g.offset == lo && g.grid.width == hi.0 - lo.0 + 1 && g.grid.height == hi.1 - lo.1 + 1
    && g.grid.cellSize == spec.cellSize
  }

  lemma DivideShifted(x: real, k: int, cs: real)
    requires cs > 0.0
    ensures (x + k as real * cs) / cs == x / cs + k as real
  {
    var q := x / cs;
    assert q * cs == x;
    assert (q + k as real) * cs == x + k as real * cs;
  }

  /** Padding by k cells moves a coordinate's lattice index by exactly k. */
  lemma PadAxis(origin: real, cs: real, lo: real, p: real, hi: real)
    requires cs > 0.0 && lo <= p <= hi
    ensures var pad := HALO_PAD as real * cs;
            var cell := ((p - origin) / cs).Floor;
            ((lo - pad - origin) / cs).Floor <= cell - HALO_PAD && cell + HALO_PAD <= ((hi + pad - origin) / cs).Floor
  {
    DivideShifted(lo - origin, -HALO_PAD, cs);
    DivideShifted(hi - origin, HALO_PAD, cs);
    assert lo - HALO_PAD as real * cs - origin == (lo - origin) + (-HALO_PAD) as real * cs;
    assert hi + HALO_PAD as real * cs - origin == (hi - origin) + HALO_PAD as real * cs;
    QuotientMonotone(lo - origin, p - origin, cs);
    QuotientMonotone(p - origin, hi - origin, cs);
  }

  ghost predicate InBox(p: Point, min: Point, max: Point) {
    min.0 <= p.0 <= max.0 && min.1 <= p.1 <= max.1
  }

  ghost predicate WithinTwo(a: LatticeCell, b: LatticeCell) {
    -2 <= a.0 - b.0 <= 2 && -2 <= a.1 - b.1 <= 2
  }

  /** Every lattice cell within two cells of a point in the box lies on the padded grid. */
  lemma PadIsEnough(spec: GridSpec, g: RegionGrid, min: Point, max: Point, p: Point, lattice: LatticeCell)
    requires spec.cellSize > 0.0 && CoversPadded(spec, g, min, max)
    requires InBox(p, min, max) && WithinTwo(lattice, FloorCell(spec, p))
    ensures Local(g, lattice).Some?
  {
    PadAxis(spec.originX, spec.cellSize, min.0, p.0, max.0);
    PadAxis(spec.originY, spec.cellSize, min.1, p.1, max.1);
  }

  // ---- The nearest walkable cell ----

  /** A directed line: a point on it and a normal. */
  datatype Side = Side(a: Point, n: Point)

  predicate OnSide(side: Option<Side>, x: Point) {
    side.None? ||
    (x.0 - side.value.a.0) * side.value.n.0 + (x.1 - side.value.a.1) * side.value.n.1 > 0.0
  }

  /** A walkable cell within two lattice cells of `centre`, on the given side. */
  predicate Eligible(spec: GridSpec, g: RegionGrid, centre: LatticeCell, side: Option<Side>, c: nat) {
    && c < Size(g.grid) && Walkable(g.grid, c)
    && -2 <= Lattice(g, c).0 - centre.0 <= 2 && -2 <= Lattice(g, c).1 - centre.1 <= 2
    && OnSide(side, CellCenter(spec, g, c))
  }

  /** The scan of the 5 x 5 block around `centre`, row by row, has passed `lattice` by the time it
      reaches row dr and column dc. */
  ghost predicate Passed(centre: LatticeCell, dr: int, dc: int, lattice: LatticeCell) {
    lattice.1 - centre.1 < dr || (lattice.1 - centre.1 == dr && lattice.0 - centre.0 < dc)
  }

  predicate Closer(spec: GridSpec, g: RegionGrid, p: Point, c: nat, best: Option<nat>)
    requires c < Size(g.grid) && (best.Some? ==> best.value < Size(g.grid))
  {
    best.None? ||
    DistanceSquared(CellCenter(spec, g, c), p) < DistanceSquared(CellCenter(spec, g, best.value), p)
  }

  /** b is nearer than c, or as near and not later in the scan. */
  ghost predicate Preferred(spec: GridSpec, g: RegionGrid, p: Point, b: nat, c: nat)
    requires b < Size(g.grid) && c < Size(g.grid)
  {
    var db, dc := DistanceSquared(CellCenter(spec, g, b), p), DistanceSquared(CellCenter(spec, g, c), p);
    db < dc || (db == dc && NotAfter(Lattice(g, b), Lattice(g, c)))
  }

  predicate NotAfter(a: LatticeCell, b: LatticeCell) {
    a.1 < b.1 || (a.1 == b.1 && a.0 <= b.0)
  }

  /** `best` is the nearest eligible cell that the scan has passed, the first of several. */
  ghost predicate NearestPassed(
    spec: GridSpec, g: RegionGrid, p: Point, side: Option<Side>, dr: int, dc: int, best: Option<nat>)
    requires spec.cellSize > 0.0
  {
    var centre := FloorCell(spec, p);
    && (best.Some? ==> Eligible(spec, g, centre, side, best.value) && Passed(centre, dr, dc, Lattice(g, best.value)))
    && forall c: nat :: Eligible(spec, g, centre, side, c) && Passed(centre, dr, dc, Lattice(g, c)) ==>
         best.Some? && Preferred(spec, g, p, best.value, c)
  }

  lemma NearestStep(
    spec: GridSpec, g: RegionGrid, p: Point, side: Option<Side>, dr: int, dc: int, best: Option<nat>,
    best': Option<nat>)
    requires spec.cellSize > 0.0 && -2 <= dr <= 2 && -2 <= dc <= 2
    requires NearestPassed(spec, g, p, side, dr, dc, best)
    requires var centre := FloorCell(spec, p);
             var cell := Local(g, (centre.0 + dc, centre.1 + dr));
             best' == if cell.Some? && Eligible(spec, g, centre, side, cell.value) &&
               Closer(spec, g, p, cell.value, best)
                      then cell else best
    ensures NearestPassed(spec, g, p, side, dr, dc + 1, best')
  {
    var centre := FloorCell(spec, p);
    var neighbour := (centre.0 + dc, centre.1 + dr);
    forall c: nat | Eligible(spec, g, centre, side, c) && Passed(centre, dr, dc + 1, Lattice(g, c))
      ensures best'.Some? && Preferred(spec, g, p, best'.value, c)
    {
      if Passed(centre, dr, dc, Lattice(g, c)) {
        assert Preferred(spec, g, p, best.value, c);
      } else {
        assert Lattice(g, c) == neighbour;
        LocalLatticeInverse(g, neighbour, c);
        if best' == best {
          PassedIsNotAfter(centre, dr, dc, Lattice(g, best.value));
        }
      }
    }
    var cell := Local(g, neighbour);
    if cell.Some? {
      LocalLatticeInverse(g, neighbour, cell.value);
    }
  }

  lemma PassedIsNotAfter(centre: LatticeCell, dr: int, dc: int, lattice: LatticeCell)
    requires Passed(centre, dr, dc, lattice)
    ensures NotAfter(lattice, (centre.0 + dc, centre.1 + dr))
    ensures Passed(centre, dr, dc + 1, lattice)
  {
  }

  lemma NearestNextRow(spec: GridSpec, g: RegionGrid, p: Point, side: Option<Side>, dr: int, best: Option<nat>)
    requires spec.cellSize > 0.0 && NearestPassed(spec, g, p, side, dr, 3, best)
    ensures NearestPassed(spec, g, p, side, dr + 1, -2, best)
  {
  }

  ghost predicate IsNearestWalkable(spec: GridSpec, g: RegionGrid, p: Point, side: Option<Side>, best: Option<nat>)
    requires spec.cellSize > 0.0
  {
    var centre := FloorCell(spec, p);
    var own := Local(g, centre);
    if side.None? && own.Some? && Walkable(g.grid, own.value) then
      best == own
    else
      && (best.Some? ==> Eligible(spec, g, centre, side, best.value))
      && forall c: nat :: Eligible(spec, g, centre, side, c) ==> best.Some? && Preferred(spec, g, p, best.value, c)
  }

  /** There is only one such cell: asking twice gives the same answer. */
  lemma NearestIsUnique(spec: GridSpec, g: RegionGrid, p: Point, side: Option<Side>, a: Option<nat>, b: Option<nat>)
    requires spec.cellSize > 0.0
    requires IsNearestWalkable(spec, g, p, side, a) && IsNearestWalkable(spec, g, p, side, b)
    ensures a == b
  {
    if a != b {
      assert a.Some? && b.Some?;
      assert Preferred(spec, g, p, a.value, b.value) && Preferred(spec, g, p, b.value, a.value);
      LocalLatticeInverse(g, Lattice(g, a.value), a.value);
      LocalLatticeInverse(g, Lattice(g, b.value), b.value);
    }
  }

  /** The cell at row dr and column dc of the scan, if it is nearer than the best so far. */
  method Consider(spec: GridSpec, g: RegionGrid, p: Point, side: Option<Side>, dr: int, dc: int, before: Option<nat>)
    returns (best: Option<nat>)
    requires spec.cellSize > 0.0 && -2 <= dr <= 2 && -2 <= dc <= 2
    requires NearestPassed(spec, g, p, side, dr, dc, before)
    ensures NearestPassed(spec, g, p, side, dr, dc + 1, best)
  {
    best := before;
    var centre := FloorCell(spec, p);
    var neighbour := (centre.0 + dc, centre.1 + dr);
    var cell := Local(g, neighbour);
    if cell.Some? {
      LocalLatticeInverse(g, neighbour, cell.value);
      if Walkable(g.grid, cell.value) && OnSide(side, CellCenter(spec, g, cell.value)) {
        if Closer(spec, g, p, cell.value, before) {
          best := cell;
        }
      }
    }
    NearestStep(spec, g, p, side, dr, dc, before, best);
  }

  /** The walkable cell for a point: the one containing it (unless a side is asked for), else the
      nearest walkable one within two cells, strictly on the given side. */
  method NearestWalkable(spec: GridSpec, g: RegionGrid, p: Point, side: Option<Side>) returns (best: Option<nat>)
    requires spec.cellSize > 0.0
    ensures IsNearestWalkable(spec, g, p, side, best)
  {
    var centre := FloorCell(spec, p);
    if side.None? {
      var own := Local(g, centre);
      if own.Some? && Walkable(g.grid, own.value) {
        return own;
      }
    }
    best := None;
    for dr := -2 to 3
      invariant NearestPassed(spec, g, p, side, dr, -2, best)
    {
      for dc := -2 to 3
        invariant NearestPassed(spec, g, p, side, dr, dc, best)
      {
        best := Consider(spec, g, p, side, dr, dc, best);
      }
      NearestNextRow(spec, g, p, side, dr, best);
    }
  }

  // ---- Rasterising a seam ----

  lemma NormPositive(root: real -> real, d: Point)
    requires Godunov.IsSquareRoot(root)
    ensures root(Dot(d, d)) >= 0.0 && (root(Dot(d, d)) > 0.0 <==> d != (0.0, 0.0))
  {
    DotPositive(d);
    RootPositive(root, Dot(d, d));
  }

  lemma DotPositive(d: Point)
    ensures Dot(d, d) >= 0.0 && (Dot(d, d) > 0.0 <==> d != (0.0, 0.0))
  {
    SquarePositive(d.0);
    SquarePositive(d.1);
    assert Dot(d, d) == Square(d.0) + Square(d.1);
    assert Square(0.0) == 0.0;
  }

  lemma RootPositive(root: real -> real, n: real)
    requires Godunov.IsSquareRoot(root) && n >= 0.0
    ensures root(n) >= 0.0 && (root(n) > 0.0 <==> n > 0.0)
  {
    var r := root(n);
    assert r >= 0.0 && Scale(r, r) == n;
    Signs(r, r);
  }

  function Length(root: real -> real, a: Point, b: Point): real {
    root(Dot(Minus(b, a), Minus(b, a)))
  }

  /** The left side of the line from a to b, which are `len` apart. */
  function LeftOf(a: Point, b: Point, len: real): Side
    requires len > 0.0
  {
    var d := Minus(b, a);
    Side(a, (-d.1 / len, d.0 / len))
  }

  function RightOf(a: Point, b: Point, len: real): Side
    requires len > 0.0
  {
    var left := LeftOf(a, b, len);
    Side(a, (-left.n.0, -left.n.1))
  }

  /** The sides of a line are those that orientation tells apart. */
  lemma SidesByOrientation(a: Point, b: Point, len: real, x: Point)
    requires len > 0.0
    ensures OnSide(Some(LeftOf(a, b, len)), x) <==> Orient(a, b, x) > 0.0
    ensures OnSide(Some(RightOf(a, b, len)), x) <==> Orient(a, b, x) < 0.0
  {
    var d, u, n := Minus(b, a), Minus(x, a), LeftOf(a, b, len).n;
    QuotientTimes(-d.1, len);
    QuotientTimes(d.0, len);
    var v := Scale(u.0, n.0) + Scale(u.1, n.1);
    ScaledSum(len, u.0, n.0, u.1, n.1);
    assert Scale(len, v) == Cross(d, u);
    Signs(len, v);
    assert Scale(u.0, -n.0) + Scale(u.1, -n.1) == -v;
  }

  lemma ScaledSum(len: real, u0: real, n0: real, u1: real, n1: real)
    ensures Scale(len, Scale(u0, n0) + Scale(u1, n1)) == Scale(u0, Scale(len, n0)) + Scale(u1, Scale(len, n1))
  {
  }

  /** How many samples: the fewest, at least one, that are at most half a cell apart. */
  function SampleCount(len: real, cellSize: real): (n: nat)
    requires cellSize > 0.0
    ensures n >= 1
  {
    var ceiling := -((-(len / (cellSize * 0.5))).Floor);
    if ceiling < 1 then 1 else ceiling
  }

  lemma SamplesAreClose(len: real, cellSize: real)
    requires cellSize > 0.0 && len > 0.0
    ensures var n := SampleCount(len, cellSize); len <= Scale(n as real, cellSize * 0.5)
    ensures var n := SampleCount(len, cellSize); n > 1 ==> Scale((n - 1) as real, cellSize * 0.5) < len
  {
    var half := cellSize * 0.5;
    var q, n := len / half, SampleCount(len, cellSize);
    QuotientTimes(len, half);
    assert q <= n as real && (n > 1 ==> (n - 1) as real < q);
    ScaleMonotone(half, q, n as real);
    ScaleMonotone(half, q, (n - 1) as real);
  }

  lemma ScaleMonotone(h: real, x: real, y: real)
    requires h > 0.0
    ensures x <= y <==> Scale(x, h) <= Scale(y, h)
    ensures Scale(x, h) == Scale(h, x)
  {
    Signs(y - x, h);
    assert Scale(y - x, h) == Scale(y, h) - Scale(x, h);
  }

  /** The middle of the k-th of n equal parts. */
  function SampleParameter(n: nat, k: nat): (t: real)
    requires k < n
    ensures 0.0 <= t <= 1.0
  {
    HalfStep(n, k);
    (k as real + 0.5) / n as real
  }

  lemma HalfStep(n: nat, k: nat)
    requires k < n
    ensures 0.0 <= (k as real + 0.5) / n as real <= 1.0
  {
    QuotientTimes(k as real + 0.5, n as real);
    QuotientMonotone(k as real + 0.5, n as real, n as real);
    QuotientBySelf(n as real);
  }

  lemma QuotientBySelf(n: real)
    requires n > 0.0
    ensures n / n == 1.0
  {
    QuotientTimes(n, n);
    assert Scale(n, 1.0) == n;
    Cancel(n, n / n, 1.0);
  }

  function SamplePoint(a: Point, b: Point, n: nat, k: nat): Point
    requires k < n
  {
    Along(a, Minus(b, a), SampleParameter(n, k))
  }

  /** From one cell's centre to the other's at the mean of their speeds. */
  function CrossingTime(spec: GridSpec, from: RegionGrid, to: RegionGrid, near: nat, far: nat): real
    requires near < Size(from.grid) && Walkable(from.grid, near)
    requires far < Size(to.grid) && Walkable(to.grid, far)
  {
    var dist := from.grid.root(DistanceSquared(CellCenter(spec, from, near), CellCenter(spec, to, far)));
    dist / (0.5 * (from.grid.speed[near] + to.grid.speed[far]))
  }

  /** The pair that the k-th sample gives: the nearest walkable cells on either side. */
  ghost predicate SampledPair(spec: GridSpec, from: RegionGrid, to: RegionGrid, a: Point, b: Point, k: nat, q: Pair)
    requires spec.cellSize > 0.0 && Length(from.grid.root, a, b) > 0.0
  {
    var len := Length(from.grid.root, a, b);
    && k < SampleCount(len, spec.cellSize)
    && var p := SamplePoint(a, b, SampleCount(len, spec.cellSize), k);
    && IsNearestWalkable(spec, from, p, Some(LeftOf(a, b, len)), Some(q.near))
    && IsNearestWalkable(spec, to, p, Some(RightOf(a, b, len)), Some(q.far))
    && q.cross == CrossingTime(spec, from, to, q.near, q.far)
  }

  ghost predicate Lists(pairs: seq<Pair>, near: nat, far: nat) {
    exists q :: q in pairs && q.near == near && q.far == far
  }

  ghost predicate NoneTwice(pairs: seq<Pair>) {
    forall i, j :: 0 <= i < j < |pairs| ==> (pairs[i].near, pairs[i].far) != (pairs[j].near, pairs[j].far)
  }

  /** Some of the first n samples gives the pair. */
  ghost predicate Sampled(spec: GridSpec, from: RegionGrid, to: RegionGrid, a: Point, b: Point, n: nat, q: Pair)
    requires spec.cellSize > 0.0 && Length(from.grid.root, a, b) > 0.0
  {
    exists k: nat :: k < n && SampledPair(spec, from, to, a, b, k, q)
  }

  /** The pairs of the first n samples, each once. */
  ghost predicate SampledSoFar(
    spec: GridSpec, from: RegionGrid, to: RegionGrid, a: Point, b: Point, n: nat, pairs: seq<Pair>)
    requires spec.cellSize > 0.0 && Length(from.grid.root, a, b) > 0.0
  {
    NoneTwice(pairs) && forall q {:trigger Sampled(spec, from, to, a, b, n, q)} :: q in pairs <==>
      Sampled(spec, from, to, a, b, n, q)
  }

  /** What a seam from a to b rasterises to: nothing without length, else the pairs of all samples. */
  ghost predicate Rasterises(spec: GridSpec, from: RegionGrid, to: RegionGrid, a: Point, b: Point, pairs: seq<Pair>)
    requires spec.cellSize > 0.0
  {
    var len := Length(from.grid.root, a, b);
    if len > 0.0 then SampledSoFar(spec, from, to, a, b, SampleCount(len, spec.cellSize), pairs) else pairs == []
  }

  /** The cells of a pair determine its crossing time. */
  lemma SamplesAgree(
    spec: GridSpec, from: RegionGrid, to: RegionGrid, a: Point, b: Point, q: Pair, q': Pair, k: nat, k': nat)
    requires spec.cellSize > 0.0 && Length(from.grid.root, a, b) > 0.0
    requires SampledPair(spec, from, to, a, b, k, q) && SampledPair(spec, from, to, a, b, k', q')
    ensures k == k' || (q.near == q'.near && q.far == q'.far) ==> q == q'
  {
    if k == k' {
      var len := Length(from.grid.root, a, b);
      var p := SamplePoint(a, b, SampleCount(len, spec.cellSize), k);
      NearestIsUnique(spec, from, p, Some(LeftOf(a, b, len)), Some(q.near), Some(q'.near));
      NearestIsUnique(spec, to, p, Some(RightOf(a, b, len)), Some(q.far), Some(q'.far));
    }
  }

  lemma SampledOneMore(spec: GridSpec, from: RegionGrid, to: RegionGrid, a: Point, b: Point, n: nat, q: Pair)
    requires spec.cellSize > 0.0 && Length(from.grid.root, a, b) > 0.0
    ensures Sampled(spec, from, to, a, b, n + 1, q) <==>
              Sampled(spec, from, to, a, b, n, q) || SampledPair(spec, from, to, a, b, n, q)
  {
    if k: nat :| k < n && SampledPair(spec, from, to, a, b, k, q) {
      assert k < n + 1;
    }
  }

  /** A sample that lacks a cell on one side, or whose cells are paired already, adds nothing. */
  lemma SampleAddsNothing(
    spec: GridSpec, from: RegionGrid, to: RegionGrid, a: Point, b: Point, k: nat, pairs: seq<Pair>, ca: Option<nat>,
    cb: Option<nat>)
    requires spec.cellSize > 0.0 && Length(from.grid.root, a, b) > 0.0
    requires SampledSoFar(spec, from, to, a, b, k, pairs) && NearestAtSample(spec, from, to, a, b, k, ca, cb)
    requires ca.None? || cb.None? || Lists(pairs, ca.value, cb.value)
    ensures SampledSoFar(spec, from, to, a, b, k + 1, pairs)
  {
    forall q ensures q in pairs <==> Sampled(spec, from, to, a, b, k + 1, q) {
      SampledOneMore(spec, from, to, a, b, k, q);
      if SampledPair(spec, from, to, a, b, k, q) {
        CellsAtSample(spec, from, to, a, b, k, ca, cb, q);
        var x :| x in pairs && x.near == q.near && x.far == q.far;
        assert Sampled(spec, from, to, a, b, k, x);
        var i: nat :| i < k && SampledPair(spec, from, to, a, b, i, x);
        SamplesAgree(spec, from, to, a, b, x, q, i, k);
      }
    }
  }

  lemma SampleAddsPair(
    spec: GridSpec, from: RegionGrid, to: RegionGrid, a: Point, b: Point, k: nat, pairs: seq<Pair>, q: Pair)
    requires spec.cellSize > 0.0 && Length(from.grid.root, a, b) > 0.0
    requires SampledSoFar(spec, from, to, a, b, k, pairs) && SampledPair(spec, from, to, a, b, k, q)
    requires !Lists(pairs, q.near, q.far)
    ensures SampledSoFar(spec, from, to, a, b, k + 1, pairs + [q])
  {
    forall x ensures x in pairs + [q] <==> Sampled(spec, from, to, a, b, k + 1, x) {
      SampledOneMore(spec, from, to, a, b, k, x);
      if SampledPair(spec, from, to, a, b, k, x) {
        SamplesAgree(spec, from, to, a, b, x, q, k, k);
      }
    }
    forall i | 0 <= i < |pairs| ensures (pairs[i].near, pairs[i].far) != (q.near, q.far) {
      assert pairs[i] in pairs;
    }
  }

  /** The nearest walkable cells on either side at the k-th sample. */
  ghost predicate NearestAtSample(
    spec: GridSpec, from: RegionGrid, to: RegionGrid, a: Point, b: Point, k: nat, ca: Option<nat>, cb: Option<nat>)
    requires spec.cellSize > 0.0 && Length(from.grid.root, a, b) > 0.0
  {
    var len := Length(from.grid.root, a, b);
    && k < SampleCount(len, spec.cellSize)
    && var p := SamplePoint(a, b, SampleCount(len, spec.cellSize), k);
    && IsNearestWalkable(spec, from, p, Some(LeftOf(a, b, len)), ca)
    && IsNearestWalkable(spec, to, p, Some(RightOf(a, b, len)), cb)
  }

  lemma CellsAtSample(
    spec: GridSpec, from: RegionGrid, to: RegionGrid, a: Point, b: Point, k: nat, ca: Option<nat>, cb: Option<nat>,
    q: Pair)
    requires spec.cellSize > 0.0 && Length(from.grid.root, a, b) > 0.0
    requires NearestAtSample(spec, from, to, a, b, k, ca, cb) && SampledPair(spec, from, to, a, b, k, q)
    ensures ca == Some(q.near) && cb == Some(q.far)
  {
    var len := Length(from.grid.root, a, b);
    var p := SamplePoint(a, b, SampleCount(len, spec.cellSize), k);
    NearestIsUnique(spec, from, p, Some(LeftOf(a, b, len)), ca, Some(q.near));
    NearestIsUnique(spec, to, p, Some(RightOf(a, b, len)), cb, Some(q.far));
  }

  /** Pair the nearest walkable cells on the two sides of the seam from a to b, at samples at most
      half a cell apart. */
  method SeamPairs(spec: GridSpec, from: RegionGrid, to: RegionGrid, a: Point, b: Point) returns (pairs: seq<Pair>)
    requires spec.cellSize > 0.0 && ValidGrid(from.grid) && ValidGrid(to.grid)
    ensures Rasterises(spec, from, to, a, b, pairs)
  {
    var root := from.grid.root;
    var len := Length(root, a, b);
    NormPositive(root, Minus(b, a));
    pairs := [];
    if len == 0.0 {
      return;
    }
    var samples := SampleCount(len, spec.cellSize);
    var seen: set<(nat, nat)> := {};
    for k := 0 to samples
      invariant SampledSoFar(spec, from, to, a, b, k, pairs)
      invariant forall x: nat, y: nat :: (x, y) in seen <==> Lists(pairs, x, y)
    {
      var p := SamplePoint(a, b, samples, k);
      var ca := NearestWalkable(spec, from, p, Some(LeftOf(a, b, len)));
      var cb := NearestWalkable(spec, to, p, Some(RightOf(a, b, len)));
      if ca.None? || cb.None? || (ca.value, cb.value) in seen {
        SampleAddsNothing(spec, from, to, a, b, k, pairs, ca, cb);
        continue;
      }
      seen := seen + {(ca.value, cb.value)};
      var q := Pair(ca.value, cb.value, CrossingTime(spec, from, to, ca.value, cb.value));
      SampleAddsPair(spec, from, to, a, b, k, pairs, q);
      ListsOneMore(pairs, q);
      pairs := pairs + [q];
    }
  }

  lemma ListsOneMore(pairs: seq<Pair>, q: Pair)
    ensures forall x: nat, y: nat :: Lists(pairs + [q], x, y) <==> Lists(pairs, x, y) || (x == q.near && y == q.far)
  {
    forall x: nat, y: nat ensures Lists(pairs + [q], x, y) <==> Lists(pairs, x, y) || (x == q.near && y == q.far) {
      if Lists(pairs, x, y) {
        var z :| z in pairs && z.near == x && z.far == y;
        assert z in pairs + [q];
      }
      assert q in pairs + [q];
    }
  }

  // ---- What the pairs of a seam are ----

  lemma OnSegment(a: Point, b: Point, t: real, min: Point, max: Point)
    requires 0.0 <= t <= 1.0 && InBox(a, min, max) && InBox(b, min, max)
    ensures InBox(Along(a, Minus(b, a), t), min, max)
  {
    ScaledWithin(t, b.0 - a.0);
    ScaledWithin(t, b.1 - a.1);
  }

  /** Points strictly on opposite sides of a line are a positive distance apart. */
  lemma OppositeSidesApart(a: Point, b: Point, x: Point, y: Point)
    requires Orient(a, b, x) > 0.0 && Orient(a, b, y) < 0.0
    ensures DistanceSquared(x, y) > 0.0
  {
    SquarePositive(x.0 - y.0);
    SquarePositive(x.1 - y.1);
  }

  lemma CrossingTakesTime(root: real -> real, ds: real, speed: real)
    requires Godunov.IsSquareRoot(root) && ds > 0.0 && speed > 0.0
    ensures root(ds) / speed > 0.0
  {
    var r := root(ds);
    assert r >= 0.0 && r * r == ds;
    assert r != 0.0;
  }

  /** Two walkable cells, the near one strictly left of the seam and the far one strictly right of
      it, both within two cells of a point of the seam, with a positive crossing time. */
  ghost predicate FacingPair(spec: GridSpec, from: RegionGrid, to: RegionGrid, a: Point, b: Point, q: Pair)
    requires spec.cellSize > 0.0
  {
    && ValidPair(from.grid, to.grid, q)
    && Orient(a, b, CellCenter(spec, from, q.near)) > 0.0
    && Orient(a, b, CellCenter(spec, to, q.far)) < 0.0
    && exists t: real :: BothNear(spec, from, to, a, b, q, t)
  }

  /** Both cells lie within two cells of the point at parameter t of the seam. */
  ghost predicate BothNear(spec: GridSpec, from: RegionGrid, to: RegionGrid, a: Point, b: Point, q: Pair, t: real)
    requires spec.cellSize > 0.0 && q.near < Size(from.grid) && q.far < Size(to.grid)
  {
    var centre := FloorCell(spec, Along(a, Minus(b, a), t));
    0.0 <= t <= 1.0 && WithinTwo(Lattice(from, q.near), centre) && WithinTwo(Lattice(to, q.far), centre)
  }

  lemma SampledPairsFace(spec: GridSpec, from: RegionGrid, to: RegionGrid, a: Point, b: Point, k: nat, q: Pair)
    requires spec.cellSize > 0.0 && ValidGrid(from.grid) && ValidGrid(to.grid) && Length(from.grid.root, a, b) > 0.0
    requires SampledPair(spec, from, to, a, b, k, q)
    ensures FacingPair(spec, from, to, a, b, q)
  {
    var len := Length(from.grid.root, a, b);
    var pa, pb := CellCenter(spec, from, q.near), CellCenter(spec, to, q.far);
    SidesByOrientation(a, b, len, pa);
    SidesByOrientation(a, b, len, pb);
    OppositeSidesApart(a, b, pa, pb);
    CrossingTakesTime(from.grid.root, DistanceSquared(pa, pb), 0.5 * (from.grid.speed[q.near] + to.grid.speed[q.far]));
    assert BothNear(spec, from, to, a, b, q, SampleParameter(SampleCount(len, spec.cellSize), k));
  }

  /** All pairs of a seam face each other across it. */
  lemma PairsFace(spec: GridSpec, from: RegionGrid, to: RegionGrid, a: Point, b: Point, pairs: seq<Pair>, q: Pair)
    requires spec.cellSize > 0.0 && ValidGrid(from.grid) && ValidGrid(to.grid)
    requires Rasterises(spec, from, to, a, b, pairs) && q in pairs
    ensures FacingPair(spec, from, to, a, b, q)
  {
    var n := SampleCount(Length(from.grid.root, a, b), spec.cellSize);
    assert Sampled(spec, from, to, a, b, n, q);
    var k: nat :| k < n && SampledPair(spec, from, to, a, b, k, q);
    SampledPairsFace(spec, from, to, a, b, k, q);
  }

  /** A seam along the near region's outer ring: its far cells lie on the near region's grid. */
  lemma FarCellIsCovered(
    spec: GridSpec, from: RegionGrid, to: RegionGrid, a: Point, b: Point, q: Pair, min: Point, max: Point)
    requires spec.cellSize > 0.0 && CoversPadded(spec, from, min, max)
    requires InBox(a, min, max) && InBox(b, min, max) && FacingPair(spec, from, to, a, b, q)
    ensures Local(from, Lattice(to, q.far)).Some?
  {
    var t: real :| BothNear(spec, from, to, a, b, q, t);
    OnSegment(a, b, t, min, max);
    PadIsEnough(spec, from, min, max, Along(a, Minus(b, a), t), Lattice(to, q.far));
  }
}
