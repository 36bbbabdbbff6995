// Where the samples of a seam lie, and what its pairs are in terms of the plane alone: the whole seam
// is covered, and every crossing takes as long as walking from centre to centre (seam_pairs in
// libfloorfield/src/multi_region.rs).
module SeamSamples {
  import opened Wrappers
  import opened Reals
  import opened Plane
  import opened FastSweeping
  import opened Propagation
  import opened Seams
  import Godunov

  /** p is the middle of part k when the segment from a to b is cut into n equal parts. */
  ghost predicate MiddleOfPart(a: Point, b: Point, n: nat, k: nat, p: Point) {
    && Scale(n as real, p.0 - a.0) == Scale(k as real + 0.5, b.0 - a.0)
    && Scale(n as real, p.1 - a.1) == Scale(k as real + 0.5, b.1 - a.1)
  }

  /** n is the least number of parts, at least one, of at most the given size. */
  ghost predicate FewestParts(a: Point, b: Point, size: real, n: nat) {
    && n >= 1
    && DistanceSquared(a, b) <= Square(Scale(n as real, size))
    && (n > 1 ==> Square(Scale((n - 1) as real, size)) < DistanceSquared(a, b))
  }

  /** A walkable cell, within two cells of p, whose centre lies left of the line from a to b. */
  ghost predicate LeftCell(spec: GridSpec, g: RegionGrid, a: Point, b: Point, p: Point, c: nat)
    requires spec.cellSize > 0.0
  {
    && c < Size(g.grid) && Walkable(g.grid, c) && WithinTwo(Lattice(g, c), FloorCell(spec, p))
    && Orient(a, b, CellCenter(spec, g, c)) > 0.0
  }

  /** The nearest of them, the first of several in the order of rows and columns. */
  ghost predicate NearestLeft(spec: GridSpec, g: RegionGrid, a: Point, b: Point, p: Point, c: nat)
    requires spec.cellSize > 0.0
  {
    && LeftCell(spec, g, a, b, p, c)
    && forall d: nat :: LeftCell(spec, g, a, b, p, d) ==> Preferred(spec, g, p, c, d)
  }

  /** Crossing takes as long as the way between the cells' centres at the mean of their speeds. */
  ghost predicate CrossesDirectly(spec: GridSpec, from: RegionGrid, to: RegionGrid, q: Pair)
    requires q.near < Size(from.grid) == |from.grid.speed| && q.far < Size(to.grid) == |to.grid.speed|
  {
    && q.cross > 0.0
    && Square(Scale(q.cross, (from.grid.speed[q.near] + to.grid.speed[q.far]) / 2.0)) ==
         DistanceSquared(CellCenter(spec, from, q.near), CellCenter(spec, to, q.far))
  }

  /** q pairs the cells nearest to p on the two sides of the seam from a to b. (What is right of it is left
      of the line from b to a.) */
  ghost predicate PairsAt(spec: GridSpec, from: RegionGrid, to: RegionGrid, a: Point, b: Point, p: Point, q: Pair)
    requires spec.cellSize > 0.0 && ValidGrid(from.grid) && ValidGrid(to.grid)
  {
    && NearestLeft(spec, from, a, b, p, q.near) && NearestLeft(spec, to, b, a, p, q.far)
    && CrossesDirectly(spec, from, to, q)
  }

  lemma SampleIsMiddle(a: Point, b: Point, n: nat, k: nat, p: Point)
    requires k < n
    ensures MiddleOfPart(a, b, n, k, p) <==> p == SamplePoint(a, b, n, k)
  {
    var m, t := n as real, SampleParameter(n, k);
    QuotientTimes(k as real + 0.5, m);
    assert Scale(m, t) == k as real + 0.5;
    ScaleTwice(m, t, b.0 - a.0);
    ScaleTwice(m, t, b.1 - a.1);
    if MiddleOfPart(a, b, n, k, p) {
      Cancel(m, p.0 - a.0, Scale(t, b.0 - a.0));
      Cancel(m, p.1 - a.1, Scale(t, b.1 - a.1));
    }
  }

  lemma LengthIsDistance(root: real -> real, a: Point, b: Point)
    requires Godunov.IsSquareRoot(root)
    ensures Length(root, a, b) >= 0.0 && Square(Length(root, a, b)) == DistanceSquared(a, b)
    ensures Length(root, a, b) > 0.0 <==> a != b
  {
    var d := Minus(b, a);
    NormPositive(root, d);
    DotPositive(d);
    assert Square(d.0) == Square(a.0 - b.0) && Square(d.1) == Square(a.1 - b.1);
  }

  lemma SquaresCompare(x: real, y: real)
    requires x >= 0.0 && y >= 0.0
    ensures x <= y <==> Square(x) <= Square(y)
  {
    if x <= y {
      SquareMonotone(x, y);
    } else {
      SquareMonotone(y, x);
    }
  }

  lemma CountIsFewest(spec: GridSpec, root: real -> real, a: Point, b: Point)
    requires spec.cellSize > 0.0 && Godunov.IsSquareRoot(root) && a != b
    ensures Length(root, a, b) > 0.0
    ensures FewestParts(a, b, spec.cellSize * 0.5, SampleCount(Length(root, a, b), spec.cellSize))
  {
    LengthIsDistance(root, a, b);
    var len, half := Length(root, a, b), spec.cellSize * 0.5;
    var n := SampleCount(len, spec.cellSize);
    SamplesAreClose(len, spec.cellSize);
    SquaresCompare(len, Scale(n as real, half));
    if n > 1 {
      Signs((n - 1) as real, half);
      SquaresCompare(len, Scale((n - 1) as real, half));
    }
  }

  lemma OtherSide(a: Point, b: Point, x: Point)
    ensures Orient(b, a, x) == -Orient(a, b, x)
  {
  }

  lemma LeftCells(spec: GridSpec, g: RegionGrid, a: Point, b: Point, len: real, p: Point, c: nat)
    requires spec.cellSize > 0.0 && len > 0.0
    ensures LeftCell(spec, g, a, b, p, c) <==> Eligible(spec, g, FloorCell(spec, p), Some(LeftOf(a, b, len)), c)
    ensures LeftCell(spec, g, b, a, p, c) <==> Eligible(spec, g, FloorCell(spec, p), Some(RightOf(a, b, len)), c)
  {
    if c < Size(g.grid) {
      SidesByOrientation(a, b, len, CellCenter(spec, g, c));
      OtherSide(a, b, CellCenter(spec, g, c));
    }
  }

  lemma NearestOnSides(spec: GridSpec, g: RegionGrid, a: Point, b: Point, len: real, p: Point, c: nat)
    requires spec.cellSize > 0.0 && len > 0.0
    ensures NearestLeft(spec, g, a, b, p, c) <==> IsNearestWalkable(spec, g, p, Some(LeftOf(a, b, len)), Some(c))
    ensures NearestLeft(spec, g, b, a, p, c) <==> IsNearestWalkable(spec, g, p, Some(RightOf(a, b, len)), Some(c))
  {
    forall d: nat {
      LeftCells(spec, g, a, b, len, p, d);
    }
  }

  /** The crossing time is the only one that does so. */
  lemma CrossesIff(spec: GridSpec, from: RegionGrid, to: RegionGrid, q: Pair)
    requires ValidGrid(from.grid) && ValidGrid(to.grid)
    requires q.near < Size(from.grid) && Walkable(from.grid, q.near)
    requires q.far < Size(to.grid) && Walkable(to.grid, q.far)
    requires DistanceSquared(CellCenter(spec, from, q.near), CellCenter(spec, to, q.far)) > 0.0
    ensures CrossesDirectly(spec, from, to, q) <==> q.cross == CrossingTime(spec, from, to, q.near, q.far)
  {
    var d := DistanceSquared(CellCenter(spec, from, q.near), CellCenter(spec, to, q.far));
    var r, s := from.grid.root(d), (from.grid.speed[q.near] + to.grid.speed[q.far]) / 2.0;
    RootPositive(from.grid.root, d);
    assert Square(r) == d;
    var time := r / s;
    QuotientTimes(r, s);
    Signs(s, time);
    assert Scale(time, s) == Scale(s, time) == r;
    assert time == CrossingTime(spec, from, to, q.near, q.far);
    if CrossesDirectly(spec, from, to, q) {
      Signs(q.cross, s);
      SquaresCompare(Scale(q.cross, s), r);
      SquaresCompare(r, Scale(q.cross, s));
      assert Scale(s, q.cross) == Scale(q.cross, s);
      Cancel(s, q.cross, time);
    }
  }

  lemma SampledPairIff(
    spec: GridSpec, from: RegionGrid, to: RegionGrid, a: Point, b: Point, k: nat, p: Point, q: Pair)
    requires spec.cellSize > 0.0 && ValidGrid(from.grid) && ValidGrid(to.grid) && Length(from.grid.root, a, b) > 0.0
    requires k < SampleCount(Length(from.grid.root, a, b), spec.cellSize)
    requires MiddleOfPart(a, b, SampleCount(Length(from.grid.root, a, b), spec.cellSize), k, p)
    ensures SampledPair(spec, from, to, a, b, k, q) <==> PairsAt(spec, from, to, a, b, p, q)
  {
    var len := Length(from.grid.root, a, b);
    SampleIsMiddle(a, b, SampleCount(len, spec.cellSize), k, p);
    NearestOnSides(spec, from, a, b, len, p, q.near);
    NearestOnSides(spec, to, a, b, len, p, q.far);
    if NearestLeft(spec, from, a, b, p, q.near) && NearestLeft(spec, to, b, a, p, q.far) {
      var x, y := CellCenter(spec, from, q.near), CellCenter(spec, to, q.far);
      OtherSide(a, b, y);
      OppositeSidesApart(a, b, x, y);
      CrossesIff(spec, from, to, q);
    }
  }

  /** The pairs of a seam cut into n parts: those at the middles of the parts, and no others. */
  ghost predicate PairsOfParts(
    spec: GridSpec, from: RegionGrid, to: RegionGrid, a: Point, b: Point, n: nat, pairs: seq<Pair>)
    requires spec.cellSize > 0.0 && ValidGrid(from.grid) && ValidGrid(to.grid)
  {
    forall q :: q in pairs <==>
      exists k: nat, p: Point :: k < n && MiddleOfPart(a, b, n, k, p) && PairsAt(spec, from, to, a, b, p, q)
  }

  /** A seam with some length is cut into the fewest parts of at most half a cell, and its pairs are those
      at the middles of the parts. */
  lemma PairsAtMiddles(spec: GridSpec, from: RegionGrid, to: RegionGrid, a: Point, b: Point, pairs: seq<Pair>)
    returns (n: nat)
    requires spec.cellSize > 0.0 && ValidGrid(from.grid) && ValidGrid(to.grid) && a != b
    requires Rasterises(spec, from, to, a, b, pairs)
    ensures FewestParts(a, b, spec.cellSize * 0.5, n)
    ensures PairsOfParts(spec, from, to, a, b, n, pairs)
  {
    CountIsFewest(spec, from.grid.root, a, b);
    n := SampleCount(Length(from.grid.root, a, b), spec.cellSize);
    forall q ensures q in pairs <==>
      exists k: nat, p: Point :: k < n && MiddleOfPart(a, b, n, k, p) && PairsAt(spec, from, to, a, b, p, q) {
      assert q in pairs <==> Sampled(spec, from, to, a, b, n, q);
      if k: nat :| k < n && SampledPair(spec, from, to, a, b, k, q) {
        var p := SamplePoint(a, b, n, k);
        SampleIsMiddle(a, b, n, k, p);
        SampledPairIff(spec, from, to, a, b, k, p, q);
      }
      if k: nat, p: Point :| k < n && MiddleOfPart(a, b, n, k, p) && PairsAt(spec, from, to, a, b, p, q) {
        SampledPairIff(spec, from, to, a, b, k, p, q);
      }
    }
  }

  // ---- Nothing of the seam is left out ----

  lemma PartOf(t: real, n: nat) returns (k: nat)
    requires 0.0 <= t <= 1.0 && n >= 1
    ensures k < n && k as real <= Scale(n as real, t) <= k as real + 1.0
  {
    ScaledWithin(t, n as real);
    var x := Scale(n as real, t);
    assert x == Scale(t, n as real);
    k := if x.Floor == n then n - 1 else x.Floor;
  }

  lemma ProductOfSquares(x: real, y: real)
    ensures Square(Scale(x, y)) == Scale(Square(x), Square(y))
  {
    assert (x * y) * (x * y) == (x * x) * (y * y);
  }

  /** A fraction e of a way, where n * e is at most a half and the way at most n * h, is at most h / 2. */
  lemma FractionIsShort(n: real, e: real, h: real, d: real)
    requires n > 0.0 && -0.5 <= Scale(n, e) <= 0.5 && 0.0 <= d <= Square(Scale(n, h))
    ensures Scale(Square(e), d) <= Square(h / 2.0)
  {
    SquarePositive(e);
    SquarePositive(h);
    NotLess(Square(e), d, Square(Scale(n, h)));
    ProductOfSquares(n, h);
    ProductOfSquares(n, e);
    assert Scale(Square(e), Scale(Square(n), Square(h))) == Scale(Scale(Square(n), Square(e)), Square(h));
    var x := if Scale(n, e) >= 0.0 then Scale(n, e) else -Scale(n, e);
    SquareMonotone(x, 0.5);
    assert Square(x) == Square(Scale(n, e));
    NotLess(Square(h), Square(x), Square(0.5));
    assert Scale(Square(x), Square(h)) == Scale(Square(h), Square(x));
    assert Scale(Square(h), Square(0.5)) == Square(h / 2.0);
  }

  lemma NotLess(x: real, y: real, z: real)
    requires x >= 0.0 && y <= z
    ensures Scale(x, y) <= Scale(x, z)
  {
    Signs(x, z - y);
    assert Scale(x, z - y) == Scale(x, z) - Scale(x, y);
  }

  /** Every parameter lies no farther than half a part from some sample. */
  lemma SampleNearby(n: nat, t: real) returns (k: nat)
    requires 0.0 <= t <= 1.0 && n >= 1
    ensures k < n && 0.0 <= SampleParameter(n, k) <= 1.0
    ensures -0.5 <= Scale(n as real, SampleParameter(n, k) - t) <= 0.5
  {
    k := PartOf(t, n);
    var s := SampleParameter(n, k);
    QuotientTimes(k as real + 0.5, n as real);
    assert Scale(n as real, s - t) == Scale(n as real, s) - Scale(n as real, t);
  }

  /** Two points of one line. */
  lemma DistanceAlong(a: Point, d: Point, s: real, t: real)
    ensures DistanceSquared(Along(a, d, s), Along(a, d, t)) == Scale(Square(s - t), Square(d.0) + Square(d.1))
  {
    ProductOfSquares(s - t, d.0);
    ProductOfSquares(s - t, d.1);
    assert Scale(s, d.0) - Scale(t, d.0) == Scale(s - t, d.0);
    assert Scale(s, d.1) - Scale(t, d.1) == Scale(s - t, d.1);
  }

  /** The middle of a part is no farther than half a part from any point of it. */
  lemma MiddleIsNear(a: Point, b: Point, n: nat, s: real, t: real, size: real)
    requires n >= 1 && -0.5 <= Scale(n as real, s - t) <= 0.5
    requires DistanceSquared(a, b) <= Square(Scale(n as real, size))
    ensures DistanceSquared(Along(a, Minus(b, a), s), Along(a, Minus(b, a), t)) <= Square(size / 2.0)
  {
    var d := Minus(b, a);
    DistanceAlong(a, d, s, t);
    SquarePositive(d.0);
    SquarePositive(d.1);
    assert Square(d.0) == Square(a.0 - b.0) && Square(d.1) == Square(a.1 - b.1);
    FractionIsShort(n as real, s - t, size, DistanceSquared(a, b));
  }

  /** Within a quarter of a cell of every point of a seam, at a point of the seam, the nearest cells on its
      two sides are paired. */
  lemma SeamIsCovered(
    spec: GridSpec, from: RegionGrid, to: RegionGrid, a: Point, b: Point, pairs: seq<Pair>, t: real)
    returns (p: Point, s: real)
    requires spec.cellSize > 0.0 && ValidGrid(from.grid) && ValidGrid(to.grid) && a != b
    requires Rasterises(spec, from, to, a, b, pairs) && 0.0 <= t <= 1.0
    ensures 0.0 <= s <= 1.0 && p == Along(a, Minus(b, a), s)
    ensures DistanceSquared(p, Along(a, Minus(b, a), t)) <= Square(spec.cellSize / 4.0)
    ensures forall q :: PairsAt(spec, from, to, a, b, p, q) ==> q in pairs
  {
    var n := PairsAtMiddles(spec, from, to, a, b, pairs);
    var k := SampleNearby(n, t);
    s := SampleParameter(n, k);
    p := SamplePoint(a, b, n, k);
    SampleIsMiddle(a, b, n, k, p);
    MiddleIsNear(a, b, n, s, t, spec.cellSize * 0.5);
    assert spec.cellSize * 0.5 / 2.0 == spec.cellSize / 4.0;
  }
}
