// The gradient of a travel-time field, against which agents walk (sobel_gradient in
// libfloorfield/src/geometry.rs).
module Gradients {
  import opened Reals
  import opened Plane
  import opened Times
  import opened Relaxation
  import opened FastSweeping
  import opened Queries

  /** The time taken for the neighbour at offset d: without one of its own, that of the centre. */
  function Sample(g: Grid, u: Field, c: nat, d: (int, int)): real
    requires |u| == Size(g) && c < Size(g) && u[c].Fin?
  {
    var n := NeighbourAt(g, c, d);
    if n.Some? && u[n.value].Fin? then u[n.value].t else u[c].t
  }

  /** The times of all eight neighbours, in the order of NEIGHBOURS. */
  function Samples(g: Grid, u: Field, c: nat): (t: seq<real>)
    requires |u| == Size(g) && c < Size(g) && u[c].Fin?
    ensures |t| == 8 && forall k :: 0 <= k < 8 ==> t[k] == Sample(g, u, c, NEIGHBOURS[k])
  {
    seq(8, k requires 0 <= k < 8 => Sample(g, u, c, NEIGHBOURS[k]))
  }

  /** t lists the times of the eight neighbours; one off the grid or without a time counts as the centre. */
  ghost predicate TimesAround(g: Grid, u: Field, c: nat, t: seq<real>)
    requires |u| == Size(g) && c < Size(g) && u[c].Fin?
  {
    && |t| == 8
    && forall k :: 0 <= k < 8 ==>
         match NeighbourAt(g, c, NEIGHBOURS[k])
         case None => t[k] == u[c].t
         case Some(n) => if u[n] == Inf then t[k] == u[c].t else u[n] == Fin(t[k])
  }

  lemma AroundAreSamples(g: Grid, u: Field, c: nat, t: seq<real>)
    requires |u| == Size(g) && c < Size(g) && u[c].Fin?
    ensures TimesAround(g, u, c, t) <==> t == Samples(g, u, c)
  {
    forall k | 0 <= k < 8 ensures TimesAround(g, u, c, t) ==> t[k] == Sample(g, u, c, NEIGHBOURS[k]) {
    }
  }

  /** The right column's times minus the left one's, the middle ones counted twice. */
  function AcrossColumns(t: seq<real>): real
    requires |t| == 8
  {
    (t[2] + 2.0 * t[4] + t[7]) - (t[0] + 2.0 * t[3] + t[5])
  }

  /** The same for the upper row and the lower one. */
  function AcrossRows(t: seq<real>): real
    requires |t| == 8
  {
    (t[5] + 2.0 * t[6] + t[7]) - (t[0] + 2.0 * t[1] + t[2])
  }

  function SobelGradient(g: Grid, u: Field, c: nat): Point
    requires ValidGrid(g) && |u| == Size(g) && c < Size(g)
  {
    if u[c].Inf? then
      (0.0, 0.0)
    else
      var t := Samples(g, u, c);
      (AcrossColumns(t) / (8.0 * g.cellSize), AcrossRows(t) / (8.0 * g.cellSize))
  }

  // ---- Where it points ----

  /** How far one gets along v by going from the centre to the neighbour at offset d (rows, columns). */
  function Ahead(v: Point, d: (int, int)): real {
    d.1 as real * v.0 + d.0 as real * v.1
  }

  /** Times t change by `slope` for every cell's width in any direction from the centre's time. */
  ghost predicate Linear(t: seq<real>, centre: real, h: real, slope: Point)
    requires |t| == 8
  {
    forall k :: 0 <= k < 8 ==> t[k] == centre + Scale(h, Ahead(slope, NEIGHBOURS[k]))
  }

  /** Where times change by the same slope in every direction, that slope is the gradient. */
  lemma LinearIsExact(g: Grid, u: Field, c: nat, t: seq<real>, slope: Point)
    requires ValidGrid(g) && |u| == Size(g) && c < Size(g) && u[c].Fin? && TimesAround(g, u, c, t)
    requires Linear(t, u[c].t, g.cellSize, slope)
    ensures SobelGradient(g, u, c) == slope
  {
    AroundAreSamples(g, u, c, t);
    var h := g.cellSize;
    StencilOfLinear(t, u[c].t, h, slope);
    OneAxis(h, slope.0, AcrossColumns(t));
    OneAxis(h, slope.1, AcrossRows(t));
  }

  function OnPlane(x: real, y: real, d: (int, int)): real {
    d.1 as real * x + d.0 as real * y
  }

  lemma StencilOfLinear(t: seq<real>, centre: real, h: real, slope: Point)
    requires |t| == 8 && Linear(t, centre, h, slope)
    ensures AcrossColumns(t) == 8.0 * Scale(h, slope.0) && AcrossRows(t) == 8.0 * Scale(h, slope.1)
  {
    var x, y := Scale(h, slope.0), Scale(h, slope.1);
    forall k | 0 <= k < 8 ensures t[k] == centre + OnPlane(x, y, NEIGHBOURS[k]) {
      Spread(h, slope, NEIGHBOURS[k]);
    }
    assert NEIGHBOURS == [(-1, -1), (-1, 0), (-1, 1), (0, -1), (0, 1), (1, -1), (1, 0), (1, 1)];
  }

  lemma OneAxis(h: real, slope: real, across: real)
    requires h > 0.0 && across == 8.0 * Scale(h, slope)
    ensures across / (8.0 * h) == slope
  {
    var n := 8.0 * h;
    assert across == Scale(n, slope);
    QuotientTimes(across, n);
    Cancel(n, across / n, slope);
  }

  lemma Spread(p: real, v: Point, d: (int, int))
    requires d in NEIGHBOURS
    ensures Scale(p, Ahead(v, d)) == OnPlane(Scale(p, v.0), Scale(p, v.1), d)
  {
  }

  /** A delay of all times leaves the gradient as it is. */
  lemma GradientIgnoresDelay(g: Grid, u: Field, u': Field, c: nat, delay: real)
    requires ValidGrid(g) && |u| == |u'| == Size(g) && c < Size(g)
    requires forall k :: 0 <= k < |u| ==> u'[k] == Plus(u[k], delay)
    ensures SobelGradient(g, u', c) == SobelGradient(g, u, c)
  {
    if u[c].Fin? {
      forall k | 0 <= k < 8 ensures Samples(g, u', c)[k] == Samples(g, u, c)[k] + delay {
        assert Sample(g, u', c, NEIGHBOURS[k]) == Sample(g, u, c, NEIGHBOURS[k]) + delay;
      }
    }
  }

  /** What a neighbour adds along v: how much later it is, as far as it lies along v. */
  function Pull(t: seq<real>, centre: real, v: Point, k: nat): real
    requires |t| == 8 && k < 8
  {
    Scale(t[k] - centre, Ahead(v, NEIGHBOURS[k]))
  }

  /** All pulls together, those of straight neighbours counted twice. */
  function PullSum(t: seq<real>, centre: real, v: Point): real
    requires |t| == 8
  {
    Pull(t, centre, v, 0) + 2.0 * Pull(t, centre, v, 1) + Pull(t, centre, v, 2) +
    2.0 * Pull(t, centre, v, 3) + 2.0 * Pull(t, centre, v, 4) +
    Pull(t, centre, v, 5) + 2.0 * Pull(t, centre, v, 6) + Pull(t, centre, v, 7)
  }

  /** Along any v, the gradient is what the neighbours add. */
  lemma GradientIsSum(g: Grid, u: Field, c: nat, v: Point)
    requires ValidGrid(g) && |u| == Size(g) && c < Size(g) && u[c].Fin?
    ensures Scale(8.0 * g.cellSize, Dot(SobelGradient(g, u, c), v)) == PullSum(Samples(g, u, c), u[c].t, v)
  {
    var n, t := 8.0 * g.cellSize, Samples(g, u, c);
    var x, y := AcrossColumns(t), AcrossRows(t);
    QuotientTimes(x, n);
    QuotientTimes(y, n);
    Regroup(n, x / n, y / n, v);
    AxesAsSum(t, u[c].t, v);
  }

  lemma Regroup(n: real, x: real, y: real, v: Point)
    ensures Scale(n, Dot((x, y), v)) == Scale(Scale(n, x), v.0) + Scale(Scale(n, y), v.1)
  {
  }

  lemma AxesAsSum(t: seq<real>, centre: real, v: Point)
    requires |t| == 8
    ensures Scale(AcrossColumns(t), v.0) + Scale(AcrossRows(t), v.1) == PullSum(t, centre, v)
  {
    var p := seq(8, k requires 0 <= k < 8 => t[k] - centre);
    ColumnsAsSum(p, AcrossColumns(t), v.0);
    RowsAsSum(p, AcrossRows(t), v.1);
    SpreadPulls(t, centre, v, p);
  }

  /** One axis of the sum: p lists how much later the neighbours are. */
  lemma ColumnsAsSum(p: seq<real>, x: real, v: real)
    requires |p| == 8 && x == (p[2] + 2.0 * p[4] + p[7]) - (p[0] + 2.0 * p[3] + p[5])
    ensures Scale(x, v) == Scale(p[2], v) + 2.0 * Scale(p[4], v) + Scale(p[7], v) -
                             (Scale(p[0], v) + 2.0 * Scale(p[3], v) + Scale(p[5], v))
  {
  }

  lemma RowsAsSum(p: seq<real>, y: real, v: real)
    requires |p| == 8 && y == (p[5] + 2.0 * p[6] + p[7]) - (p[0] + 2.0 * p[1] + p[2])
    ensures Scale(y, v) == Scale(p[5], v) + 2.0 * Scale(p[6], v) + Scale(p[7], v) -
                             (Scale(p[0], v) + 2.0 * Scale(p[1], v) + Scale(p[2], v))
  {
  }

  lemma SpreadPulls(t: seq<real>, centre: real, v: Point, p: seq<real>)
    requires |t| == |p| == 8 && forall k :: 0 <= k < 8 ==> p[k] == t[k] - centre
    ensures PullSum(t, centre, v) ==
            Scale(p[2], v.0) + 2.0 * Scale(p[4], v.0) + Scale(p[7], v.0) -
              (Scale(p[0], v.0) + 2.0 * Scale(p[3], v.0) + Scale(p[5], v.0)) +
            Scale(p[5], v.1) + 2.0 * Scale(p[6], v.1) + Scale(p[7], v.1) -
              (Scale(p[0], v.1) + 2.0 * Scale(p[1], v.1) + Scale(p[2], v.1))
  {
    forall k: nat | k < 8 ensures Pull(t, centre, v, k) == OnPlane(Scale(p[k], v.0), Scale(p[k], v.1), NEIGHBOURS[k]) {
      Spread(p[k], v, NEIGHBOURS[k]);
    }
    assert NEIGHBOURS == [(-1, -1), (-1, 0), (-1, 1), (0, -1), (0, 1), (1, -1), (1, 0), (1, 1)];
  }

  /** An earlier neighbour lies ahead along v, or a later one behind. */
  ghost predicate LeadsDown(g: Grid, u: Field, c: nat, v: Point)
    requires |u| == Size(g) && c < Size(g) && u[c].Fin?
  {
    exists d :: d in NEIGHBOURS && DownTowards(g, u, c, v, d)
  }

  predicate DownTowards(g: Grid, u: Field, c: nat, v: Point, d: (int, int))
    requires |u| == Size(g) && c < Size(g) && u[c].Fin?
  {
    (Ahead(v, d) > 0.0 && Sample(g, u, c, d) < u[c].t) || (Ahead(v, d) < 0.0 && Sample(g, u, c, d) > u[c].t)
  }

  /** A gradient that does not vanish leads downhill, if followed backwards. */
  lemma GradientLeadsDown(g: Grid, u: Field, c: nat) returns (d: (int, int))
    requires ValidGrid(g) && |u| == Size(g) && c < Size(g) && u[c].Fin?
    requires SobelGradient(g, u, c) != (0.0, 0.0)
    ensures d in NEIGHBOURS && DownTowards(g, u, c, Minus((0.0, 0.0), SobelGradient(g, u, c)), d)
  {
    var v, t := SobelGradient(g, u, c), Samples(g, u, c);
    GradientIsSum(g, u, c, v);
    NotZero(8.0 * g.cellSize, v);
    var k := SomePositive(t, u[c].t, v);
    d := NEIGHBOURS[k];
    PulledDown(t[k] - u[c].t, v, d);
  }

  lemma SomePositive(t: seq<real>, centre: real, v: Point) returns (k: nat)
    requires |t| == 8 && PullSum(t, centre, v) > 0.0
    ensures k < 8 && Pull(t, centre, v, k) > 0.0
  {
    k :| k < 8 && Pull(t, centre, v, k) > 0.0;
  }

  lemma PulledDown(later: real, v: Point, d: (int, int))
    requires Scale(later, Ahead(v, d)) > 0.0
    ensures var ahead := Ahead(Minus((0.0, 0.0), v), d);
            (ahead > 0.0 && later < 0.0) || (ahead < 0.0 && later > 0.0)
  {
    Signs(later, Ahead(v, d));
    assert Ahead(Minus((0.0, 0.0), v), d) == -Ahead(v, d);
  }

  lemma NotZero(n: real, v: Point)
    requires n > 0.0 && v != (0.0, 0.0)
    ensures Scale(n, Dot(v, v)) > 0.0
  {
    SquarePositive(v.0);
    SquarePositive(v.1);
    assert Dot(v, v) == Square(v.0) + Square(v.1);
    Signs(n, Dot(v, v));
  }

  // ---- What the weights are for ----

  /** How far neighbour k's time is from that of the plane through `level` at the centre with the given
      slope, squared. */
  function Error(t: seq<real>, level: real, h: real, slope: Point, k: nat): real
    requires |t| == 8 && k < 8
  {
    Square(t[k] - level - Scale(h, Ahead(slope, NEIGHBOURS[k])))
  }

  /** How badly a plane fits the times of the neighbours, each weighted by the inverse of its squared distance:
      the straight ones count twice as much as the diagonal ones. */
  function Misfit(t: seq<real>, level: real, h: real, slope: Point): real
    requires |t| == 8
  {
    Error(t, level, h, slope, 0) + 2.0 * Error(t, level, h, slope, 1) + Error(t, level, h, slope, 2) +
    2.0 * Error(t, level, h, slope, 3) + 2.0 * Error(t, level, h, slope, 4) +
    Error(t, level, h, slope, 5) + 2.0 * Error(t, level, h, slope, 6) + Error(t, level, h, slope, 7)
  }

  lemma ErrorExpands(r: real, a: real)
    ensures Square(r - a) == Square(r) - 2.0 * Scale(r, a) + Square(a)
  {
  }

  /** The error in terms of the pull. */
  lemma ErrorByPull(t: seq<real>, level: real, h: real, v: Point, k: nat)
    requires |t| == 8 && k < 8
    ensures Error(t, level, h, v, k) ==
            Square(t[k] - level) - 2.0 * Scale(h, Pull(t, level, v, k)) + Square(Scale(h, Ahead(v, NEIGHBOURS[k])))
  {
    var r, a := t[k] - level, Ahead(v, NEIGHBOURS[k]);
    ErrorExpands(r, Scale(h, a));
    assert Scale(r, Scale(h, a)) == Scale(h, Scale(r, a));
  }

  /** What is left of the misfit where all times are level. */
  function Flat(t: seq<real>, level: real): real
    requires |t| == 8
  {
    Square(t[0] - level) + 2.0 * Square(t[1] - level) + Square(t[2] - level) +
    2.0 * Square(t[3] - level) + 2.0 * Square(t[4] - level) +
    Square(t[5] - level) + 2.0 * Square(t[6] - level) + Square(t[7] - level)
  }

  lemma SumOfPulls(h: real, t: seq<real>, level: real, v: Point)
    requires |t| == 8
    ensures Scale(h, PullSum(t, level, v)) ==
            Scale(h, Pull(t, level, v, 0)) + 2.0 * Scale(h, Pull(t, level, v, 1)) + Scale(h, Pull(t, level, v, 2)) +
            2.0 * Scale(h, Pull(t, level, v, 3)) + 2.0 * Scale(h, Pull(t, level, v, 4)) +
            Scale(h, Pull(t, level, v, 5)) + 2.0 * Scale(h, Pull(t, level, v, 6)) + Scale(h, Pull(t, level, v, 7))
  {
  }

  /** The weighted squares of a slope along all eight directions. */
  lemma SlopeAround(x: real, y: real)
    ensures Square(-x - y) + 2.0 * Square(-y) + Square(x - y) + 2.0 * Square(-x) + 2.0 * Square(x) +
            Square(y - x) + 2.0 * Square(y) + Square(x + y) == 8.0 * (Square(x) + Square(y))
  {
    ErrorExpands(-x, y);
    ErrorExpands(x, y);
    ErrorExpands(y, x);
    ErrorExpands(x, -y);
    assert Square(-x) == Square(x) && Square(-y) == Square(y);
    assert Scale(-x, y) == -Scale(x, y) && Scale(x, -y) == -Scale(x, y) && Scale(y, x) == Scale(x, y);
  }

  /** What a slope adds to the misfit by itself. */
  function Slant(h: real, v: Point, k: nat): real
    requires k < 8
  {
    Square(Scale(h, Ahead(v, NEIGHBOURS[k])))
  }

  lemma SumOfSlants(h: real, v: Point)
    ensures Slant(h, v, 0) + 2.0 * Slant(h, v, 1) + Slant(h, v, 2) + 2.0 * Slant(h, v, 3) + 2.0 * Slant(h, v, 4) +
            Slant(h, v, 5) + 2.0 * Slant(h, v, 6) + Slant(h, v, 7) ==
            8.0 * (Square(Scale(h, v.0)) + Square(Scale(h, v.1)))
  {
    var x, y := Scale(h, v.0), Scale(h, v.1);
    forall k: nat | k < 8 ensures Slant(h, v, k) == Square(OnPlane(x, y, NEIGHBOURS[k])) {
      Spread(h, v, NEIGHBOURS[k]);
    }
    SlopeAround(x, y);
    assert NEIGHBOURS == [(-1, -1), (-1, 0), (-1, 1), (0, -1), (0, 1), (1, -1), (1, 0), (1, 1)];
  }

  lemma MisfitByPull(t: seq<real>, level: real, h: real, v: Point)
    requires |t| == 8
    ensures Misfit(t, level, h, v) ==
            Flat(t, level) - 2.0 * Scale(h, PullSum(t, level, v)) +
              8.0 * (Square(Scale(h, v.0)) + Square(Scale(h, v.1)))
  {
    forall k: nat | k < 8
      ensures Error(t, level, h, v, k) ==
              Square(t[k] - level) - 2.0 * Scale(h, Pull(t, level, v, k)) + Slant(h, v, k)
    {
      ErrorByPull(t, level, h, v, k);
    }
    SumOfPulls(h, t, level, v);
    SumOfSlants(h, v);
  }

  /** The gradient is the slope of the plane that fits the neighbours' times best, at whatever level it passes
      the centre; every other slope fits worse. */
  lemma GradientFitsBest(g: Grid, u: Field, c: nat, t: seq<real>, level: real, slope: Point)
    requires ValidGrid(g) && |u| == Size(g) && c < Size(g) && u[c].Fin? && TimesAround(g, u, c, t)
    ensures var best := SobelGradient(g, u, c);
            && Misfit(t, level, g.cellSize, best) <= Misfit(t, level, g.cellSize, slope)
            && (Misfit(t, level, g.cellSize, best) == Misfit(t, level, g.cellSize, slope) <==> slope == best)
  {
    AroundAreSamples(g, u, c, t);
    var best, h := SobelGradient(g, u, c), g.cellSize;
    MisfitByPull(t, level, h, best);
    MisfitByPull(t, level, h, slope);
    PullByGradient(g, u, c, level, best);
    PullByGradient(g, u, c, level, slope);
    var p, q := (Scale(h, slope.0), Scale(h, slope.1)), (Scale(h, best.0), Scale(h, best.1));
    ErrorExpands(p.0, q.0);
    ErrorExpands(p.1, q.1);
    ErrorExpands(q.0, q.0);
    ErrorExpands(q.1, q.1);
    SquarePositive(p.0 - q.0);
    SquarePositive(p.1 - q.1);
    if p == q {
      Cancel(h, slope.0, best.0);
      Cancel(h, slope.1, best.1);
    }
  }

  lemma PullByGradient(g: Grid, u: Field, c: nat, level: real, v: Point)
    requires ValidGrid(g) && |u| == Size(g) && c < Size(g) && u[c].Fin?
    ensures var best, h := SobelGradient(g, u, c), g.cellSize;
            Scale(h, PullSum(Samples(g, u, c), level, v)) ==
            8.0 * (Scale(Scale(h, v.0), Scale(h, best.0)) + Scale(Scale(h, v.1), Scale(h, best.1)))
  {
    var best, h, t := SobelGradient(g, u, c), g.cellSize, Samples(g, u, c);
    var x, y := AcrossColumns(t), AcrossRows(t);
    QuotientTimes(x, 8.0 * h);
    QuotientTimes(y, 8.0 * h);
    AxesAsSum(t, level, v);
    assert x == 8.0 * Scale(h, best.0) && y == 8.0 * Scale(h, best.1);
    TwoAxes(h, x, y, v);
    assert Scale(x, Scale(h, v.0)) == 8.0 * Scale(Scale(h, v.0), Scale(h, best.0));
    assert Scale(y, Scale(h, v.1)) == 8.0 * Scale(Scale(h, v.1), Scale(h, best.1));
  }

  lemma TwoAxes(h: real, x: real, y: real, v: Point)
    ensures Scale(h, Scale(x, v.0) + Scale(y, v.1)) == Scale(x, Scale(h, v.0)) + Scale(y, Scale(h, v.1))
  {
  }
}
