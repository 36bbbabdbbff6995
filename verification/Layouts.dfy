// Small region graphs worked out by hand: the grids they are built into, and times that need no sweeping.
module Layouts {
  import opened Cells
  import opened Times
  import opened Relaxation
  import opened FastSweeping
  import opened Propagation
  import opened Seams
  import opened Plane
  import opened RegionGraphs

  /** A grid of unit cells on a lattice anchored at zero. */
  ghost predicate UnitGrid(g: RegionGrid, offset: LatticeCell, width: nat, height: nat) {
    && g.offset == offset && g.grid.width == width > 0 && g.grid.height == height > 0
    && |g.grid.speed| == Size(g.grid)
  }

  const UNIT: GridSpec := GridSpec(0.0, 0.0, 1.0)

  predicate InCell(p: Point, lattice: LatticeCell) {
    && lattice.0 as real <= p.0 < (lattice.0 + 1) as real
    && lattice.1 as real <= p.1 < (lattice.1 + 1) as real
  }

  lemma UnitFloor(p: Point, lattice: LatticeCell)
    requires InCell(p, lattice)
    ensures FloorCell(UNIT, p) == lattice
  {
    assert (p.0 - 0.0) / 1.0 == p.0 && (p.1 - 0.0) / 1.0 == p.1;
  }

  /** The grid that a region is given: it is padded by two cells around the lattice cells that the
      corners of the region's box fall into. */
  lemma GridOfRegion(
    g: RegionGraph, placed: seq<RegionGrid>, r: nat, min: Point, max: Point, first: LatticeCell, last: LatticeCell)
    requires PlacedOver(UNIT, g, placed, r)
    requires IsBoundingBox(g.regions[r].outer, |g.regions[r].outer|, min, max)
    requires InCell(min, first) && InCell(max, last) && first.0 <= last.0 && first.1 <= last.1
    ensures UnitGrid(placed[r], (first.0 - 2, first.1 - 2), last.0 - first.0 + 5, last.1 - first.1 + 5)
  {
    var lo, hi :| CoversPadded(UNIT, placed[r], lo, hi) &&
      IsBoundingBox(g.regions[r].outer, |g.regions[r].outer|, lo, hi);
    SameBox(g.regions[r].outer, lo, hi, min, max);
    UnitFloor((lo.0 - 2.0, lo.1 - 2.0), (first.0 - 2, first.1 - 2));
    UnitFloor((hi.0 + 2.0, hi.1 + 2.0), (last.0 + 2, last.1 + 2));
  }

  /** Row, column, lattice cell and centre of cell c. */
  lemma UnitCell(g: RegionGrid, offset: LatticeCell, width: nat, height: nat, c: nat)
    requires UnitGrid(g, offset, width, height) && c < width * height
    ensures c < Size(g.grid)
    ensures Row(width, c) == c / width && Col(width, c) == c % width && c / width < height
    ensures Lattice(g, c) == (offset.0 + c % width, offset.1 + c / width)
    ensures CellCenter(UNIT, g, c) ==
            ((offset.0 + c % width) as real + 0.5, (offset.1 + c / width) as real + 0.5)
  {
    RowMajor(width, height, 0);
    DivMod(width, height, c);
    CellOfRowCol(width, height, c);
  }

  lemma UnitSize(g: RegionGrid, offset: LatticeCell, width: nat, height: nat)
    requires UnitGrid(g, offset, width, height)
    ensures Size(g.grid) == |g.grid.speed| == width * height
  {
    RowMajor(width, height, 0);
  }

  /** Seeds alone are the solution if no walkable cell is later than a neighbour. */
  lemma SeedsAlone(g: Grid, seeds: Seeds)
    requires ValidGrid(g) && SeedsFit(g, seeds)
    requires forall c: nat, n: nat :: c < Size(g) && Walkable(g, c) && n < Size(g) && Neighbors(g, c, n) ==>
               Le(SeedField(g, seeds)[c], SeedField(g, seeds)[n])
    ensures Solves(Sweeping(g), SeedField(g, seeds), SeedField(g, seeds))
  {
    var u, p := SeedField(g, seeds), Sweeping(g);
    SweepingIsCausal(g);
    forall c | 0 <= c < |u| ensures u[c] == Min(u[c], p.up(u, c)) {
      if Candidate(g, u, c).Fin? {
        var n := CandidateAboveNeighbor(g, u, c);
      }
    }
    EquationIsGreatest(p, u, u);
  }

  /** The pairs of a seam with two samples. */
  lemma TwoSamples(spec: GridSpec, from: RegionGrid, to: RegionGrid, a: Point, b: Point, pairs: seq<Pair>, q: Pair)
    requires spec.cellSize > 0.0 && Rasterises(spec, from, to, a, b, pairs)
    requires Length(from.grid.root, a, b) > 0.0 && SampleCount(Length(from.grid.root, a, b), spec.cellSize) == 2
    ensures q in pairs <==> SampledPair(spec, from, to, a, b, 0, q) || SampledPair(spec, from, to, a, b, 1, q)
  {
    assert q in pairs <==> Sampled(spec, from, to, a, b, 2, q);
    assert SampledPair(spec, from, to, a, b, 0, q) ==> Sampled(spec, from, to, a, b, 2, q);
    assert SampledPair(spec, from, to, a, b, 1, q) ==> Sampled(spec, from, to, a, b, 2, q);
    if Sampled(spec, from, to, a, b, 2, q) {
      var k: nat :| k < 2 && SampledPair(spec, from, to, a, b, k, q);
      assert k == 0 || k == 1;
    }
  }

  /** Few cells are not too many. */
  lemma SmallEnough(o: Outline, min: Point, max: Point, first: LatticeCell, last: LatticeCell)
    requires IsBoundingBox(o.outer, |o.outer|, min, max)
    requires InCell(min, first) && InCell(max, last) && first.0 <= last.0 && first.1 <= last.1
    requires Count(last.0 - first.0 + 5, last.1 - first.1 + 5) <= MAX_CELLS_PER_REGION
    ensures !TooLarge(UNIT, o)
  {
    UnitFloor((min.0 - 2.0, min.1 - 2.0), (first.0 - 2, first.1 - 2));
    UnitFloor((max.0 + 2.0, max.1 + 2.0), (last.0 + 2, last.1 + 2));
    assert PaddedExtent(UNIT, min, max) == (last.0 - first.0 + 5, last.1 - first.1 + 5);
    TooLargeByBox(UNIT, o, min, max);
  }

  lemma GlobalBy(w: World, dest: seq<seq<nat>>, slack: real, v: seq<Field>)
    requires ValidWorld(w) && ValidDestination(w, dest) && FieldsFit(w, v)
    requires forall r :: 0 <= r < |v| ==> SubSolution(Sweeping(w.grids[r]), v[r])
    requires forall r, c :: 0 <= r < |v| && c in dest[r] ==> Le(v[r][c], Fin(0.0))
    requires forall r: nat, y: nat, q: Pair :: Crosses(w, r, y, q) ==>
               Le(v[y][q.far], Plus(v[r][q.near], q.cross + slack))
    ensures GlobalSubSolution(w, dest, slack, v)
  {
  }
}
