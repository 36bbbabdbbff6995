// Two strips side by side, each cut by walls into blocks that overlap those of the other: every way up
// leads from block to block across the one seam between the strips, once for each block. There are more
// crossings than the propagation's budget allows for two regions (compare MultiRegionFloorfield::solve in
// libfloorfield/src/multi_region.rs).
module Combs {
  import opened Wrappers
  import opened Cells
  import opened Reals
  import opened Plane
  import opened Times
  import opened FastSweeping
  import opened Propagation
  import opened Seams
  import opened SeamSamples
  import opened Halo
  import opened Queries
  import opened RegionGraphs
  import opened Layouts
  import opened Budgets
  import Godunov

  // ---- The strips ----

  /** The left strip's wall in row 16 i + 8: it leaves a passage along the seam, narrower than a cell. */
  function LeftWall(i: nat): Ring {
    var y := (16 * i) as real;
    [(0.0, y + 9.0), (0.75, y + 9.0), (0.75, y + 8.0), (0.0, y + 8.0)]
  }

  /** The first n of them, from the top. */
  function LeftWalls(n: nat): Ring {
    if n == 0 then [] else LeftWall(n - 1) + LeftWalls(n - 1)
  }

  /** The right strip's wall in row 16 i. */
  function RightWall(i: nat): Ring {
    var y := (16 * i) as real;
    [(2.0, y), (1.25, y), (1.25, y + 1.0), (2.0, y + 1.0)]
  }

  /** Those in rows 16 to 16 n, from below. */
  function RightWalls(n: nat): Ring {
    if n == 0 then [] else RightWalls(n - 1) + RightWall(n)
  }

  function Top(blocks: nat): real {
    (16 * blocks) as real
  }

  /** Both outlines begin with the edge that they share. */
  function LeftStrip(blocks: nat): Outline {
    Outline([(1.0, 0.0), (1.0, Top(blocks)), (0.0, Top(blocks))] + LeftWalls(blocks) + [(0.0, 0.0)], [])
  }

  function RightStrip(blocks: nat): Outline
    requires blocks > 0
  {
    Outline([(1.0, Top(blocks)), (1.0, 0.0), (2.0, 0.0)] + RightWalls(blocks - 1) + [(2.0, Top(blocks))], [])
  }

  function Strips(blocks: nat): RegionGraph
    requires blocks > 0
  {
    RegionGraph([LeftStrip(blocks), RightStrip(blocks)], [SeamEdge(0, 1, 0, 0), SeamEdge(1, 0, 0, 0)])
  }

  /** No wall of region r covers the centres in row i. */
  predicate Open(r: nat, i: nat) {
    if r == 0 then i % 16 != 8 else i % 16 != 0 || i == 0
  }

  /** The strip without its walls. */
  predicate InStrip(blocks: nat, r: nat, p: Point) {
    && 0.0 < p.1 < Top(blocks)
    && if r == 0 then 0.0 < p.0 < 1.0 && (p.0 > 0.75 || Open(0, p.1.Floor))
       else 1.0 < p.0 < 2.0 && (p.0 < 1.25 || Open(1, p.1.Floor))
  }

  /** Speeds are positive strictly inside the strips, whatever the influence of their walls. */
  ghost predicate SpeedsInStrips(blocks: nat, speedAt: (nat, Point) -> real) {
    forall r: nat, p: Point {:trigger speedAt(r, p)} :: r < 2 ==> (speedAt(r, p) > 0.0 <==> InStrip(blocks, r, p))
  }

  lemma {:induction false} LeftWallsInBox(n: nat)
    ensures forall p :: p in LeftWalls(n) ==> InBox(p, (0.0, 0.0), (1.0, Top(n)))
  {
    if n > 0 {
      LeftWallsInBox(n - 1);
      forall p | p in LeftWall(n - 1) ensures InBox(p, (0.0, 0.0), (1.0, Top(n))) {
      }
    }
  }

  lemma {:induction false} RightWallsInBox(n: nat)
    ensures forall p :: p in RightWalls(n) ==> InBox(p, (1.0, 0.0), (2.0, Top(n + 1)))
  {
    if n > 0 {
      RightWallsInBox(n - 1);
      forall p | p in RightWall(n) ensures InBox(p, (1.0, 0.0), (2.0, Top(n + 1))) {
      }
    }
  }

  lemma AllInBox(first: Ring, walls: Ring, last: Point, min: Point, max: Point)
    requires forall p :: p in first ==> InBox(p, min, max)
    requires forall p :: p in walls ==> InBox(p, min, max)
    requires InBox(last, min, max)
    ensures forall p :: p in first + walls + [last] ==> InBox(p, min, max)
  {
  }

  lemma BoxOfLeft(blocks: nat)
    ensures var left := LeftStrip(blocks).outer; IsBoundingBox(left, |left|, (0.0, 0.0), (1.0, Top(blocks)))
    ensures var left := LeftStrip(blocks).outer; left[|left| - 1] == (0.0, 0.0)
  {
    LeftWallsInBox(blocks);
    var first: Ring := [(1.0, 0.0), (1.0, Top(blocks)), (0.0, Top(blocks))];
    var left := first + LeftWalls(blocks) + [(0.0, 0.0)];
    assert left[0] == (1.0, 0.0) && left[1] == (1.0, Top(blocks)) && left[|left| - 1] == (0.0, 0.0);
    AllInBox(first, LeftWalls(blocks), (0.0, 0.0), (0.0, 0.0), (1.0, Top(blocks)));
    BoxByMembers(left, (0.0, 0.0), (1.0, Top(blocks)), |left| - 1, 1);
  }

  lemma BoxOfRight(blocks: nat)
    requires blocks > 0
    ensures var right := RightStrip(blocks).outer; IsBoundingBox(right, |right|, (1.0, 0.0), (2.0, Top(blocks)))
  {
    RightWallsInBox(blocks - 1);
    var first: Ring := [(1.0, Top(blocks)), (1.0, 0.0), (2.0, 0.0)];
    var right := first + RightWalls(blocks - 1) + [(2.0, Top(blocks))];
    assert right[0] == (1.0, Top(blocks)) && right[1] == (1.0, 0.0) && right[|right| - 1] == (2.0, Top(blocks));
    AllInBox(first, RightWalls(blocks - 1), (2.0, Top(blocks)), (1.0, 0.0), (2.0, Top(blocks)));
    BoxByMembers(right, (1.0, 0.0), (2.0, Top(blocks)), 1, |right| - 1);
  }

  /** A box all points lie in, two opposite corners of which are among them. */
  lemma BoxByMembers(ring: Ring, min: Point, max: Point, i: nat, j: nat)
    requires forall p :: p in ring ==> InBox(p, min, max)
    requires i < |ring| && j < |ring| && ring[i] == min && ring[j] == max
    ensures IsBoundingBox(ring, |ring|, min, max)
  {
    forall k | 0 <= k < |ring| ensures InBox(ring[k], min, max) {
      assert ring[k] in ring;
    }
  }

  lemma StripsAreValid(blocks: nat)
    requires blocks > 0
    ensures var g := Strips(blocks);
            && ValidGraph(g) && ValidSeam(g, g.seams[0]) && ValidSeam(g, g.seams[1])
            && EdgeOf(g.regions[0], g.seams[0]) == Some(((1.0, 0.0), (1.0, Top(blocks))))
            && EdgeOf(g.regions[1], g.seams[1]) == Some(((1.0, Top(blocks)), (1.0, 0.0)))
  {
    var g := Strips(blocks);
    assert Reverses(g.seams[0], g.seams[1]) && Reverses(g.seams[1], g.seams[0]);
    assert LedBack(g, g.seams[0]) && LedBack(g, g.seams[1]);
  }

  lemma OriginOfStrips(blocks: nat, origin: Point)
    requires blocks > 0 && IsOrigin(Strips(blocks), 2, origin)
    ensures origin == (0.0, 0.0)
  {
    BoxOfLeft(blocks);
    BoxOfRight(blocks);
    var left := LeftStrip(blocks).outer;
    OriginOfTwo(Strips(blocks), origin, Top(blocks), |left| - 1);
  }

  lemma OriginOfTwo(g: RegionGraph, origin: Point, top: real, k: nat)
    requires |g.regions| == 2 && IsOrigin(g, 2, origin)
    requires var left := g.regions[0].outer;
             IsBoundingBox(left, |left|, (0.0, 0.0), (1.0, top)) && k < |left| && left[k] == (0.0, 0.0)
    requires var right := g.regions[1].outer; IsBoundingBox(right, |right|, (1.0, 0.0), (2.0, top))
    ensures origin == (0.0, 0.0)
  {
    var left, right := g.regions[0].outer, g.regions[1].outer;
    assert origin.0 <= left[k].0 && origin.1 <= left[k].1;
    NothingBelow(left, (0.0, 0.0), (1.0, top));
    NothingBelow(right, (1.0, 0.0), (2.0, top));
    var r :| 0 <= r < 2 && HasX(g.regions[r].outer, origin.0);
    assert r == 0 || r == 1;
    var s :| 0 <= s < 2 && HasY(g.regions[s].outer, origin.1);
    assert s == 0 || s == 1;
  }

  lemma NothingBelow(ring: Ring, min: Point, max: Point)
    requires IsBoundingBox(ring, |ring|, min, max)
    ensures forall x :: HasX(ring, x) ==> min.0 <= x
    ensures forall y :: HasY(ring, y) ==> min.1 <= y
  {
    forall i | 0 <= i < |ring| ensures min.0 <= ring[i].0 && min.1 <= ring[i].1 {
      assert InBox(ring[i], min, max);
    }
  }

  // ---- The grids ----

  /** The cell in row i of either strip. */
  function CellIn(i: nat): nat {
    6 * i + 14
  }

  function OffsetOf(r: nat): LatticeCell {
    if r == 0 then (-2, -2) else (-1, -2)
  }

  /** The grid of a strip: one column of its cells is walkable, except at the walls. */
  ghost predicate IsStrip(blocks: nat, r: nat, g: RegionGrid) {
    && r < 2 && ValidGrid(g.grid) && UnitGrid(g, OffsetOf(r), 6, 16 * blocks + 5)
    && forall c: nat :: Walkable(g.grid, c) <==> exists i: nat :: c == CellIn(i) && i < 16 * blocks && Open(r, i)
  }

  lemma StripCell(blocks: nat, r: nat, g: RegionGrid, i: nat)
    requires r < 2 && UnitGrid(g, OffsetOf(r), 6, 16 * blocks + 5) && i < 16 * blocks
    ensures CellIn(i) < Size(g.grid) == |g.grid.speed|
    ensures Lattice(g, CellIn(i)) == (r, i)
    ensures CellCenter(UNIT, g, CellIn(i)) == (r as real + 0.5, i as real + 0.5)
    ensures Row(6, CellIn(i)) == i + 2 && Col(6, CellIn(i)) == 2
  {
    UnitSize(g, OffsetOf(r), 6, 16 * blocks + 5);
    UnitCell(g, OffsetOf(r), 6, 16 * blocks + 5, CellIn(i));
    assert CellIn(i) / 6 == i + 2 && CellIn(i) % 6 == 2;
  }

  lemma WalkableInStrip(blocks: nat, speedAt: (nat, Point) -> real, g: RegionGrid, r: nat, c: nat)
    requires SpeedsInStrips(blocks, speedAt) && r < 2 && UnitGrid(g, OffsetOf(r), 6, 16 * blocks + 5)
    requires HoldsSpeeds(UNIT, g, r, speedAt)
    ensures Walkable(g.grid, c) <==> exists i: nat :: c == CellIn(i) && i < 16 * blocks && Open(r, i)
  {
    UnitSize(g, OffsetOf(r), 6, 16 * blocks + 5);
    if c < Size(g.grid) {
      UnitCell(g, OffsetOf(r), 6, 16 * blocks + 5, c);
      var p := CellCenter(UNIT, g, c);
      assert Walkable(g.grid, c) <==> InStrip(blocks, r, p);
      assert p.1.Floor == c / 6 - 2;
      if InStrip(blocks, r, p) {
        assert c % 6 == 2 && c == CellIn(c / 6 - 2);
      }
    }
    forall i: nat | c == CellIn(i) && i < 16 * blocks ensures c < Size(g.grid) && c / 6 == i + 2 && c % 6 == 2 {
      StripCell(blocks, r, g, i);
    }
  }

  lemma ShapeOfStrip(blocks: nat, placed: seq<RegionGrid>, r: nat)
    requires blocks > 0 && r < 2 && PlacedOver(UNIT, Strips(blocks), placed, r)
    ensures UnitGrid(placed[r], OffsetOf(r), 6, 16 * blocks + 5)
  {
    var g, rows := Strips(blocks), 16 * blocks;
    if r == 0 {
      BoxOfLeft(blocks);
      GridOfRegion(g, placed, 0, (0.0, 0.0), (1.0, Top(blocks)), (0, 0), (1, rows));
    } else {
      BoxOfRight(blocks);
      GridOfRegion(g, placed, 1, (1.0, 0.0), (2.0, Top(blocks)), (1, 0), (2, rows));
    }
  }

  lemma StripGrid(blocks: nat, speedAt: (nat, Point) -> real, placed: seq<RegionGrid>, r: nat)
    requires blocks > 0 && SpeedsInStrips(blocks, speedAt) && r < 2 && r < |placed|
    requires PlacedOver(UNIT, Strips(blocks), placed, r) && HoldsSpeeds(UNIT, placed[r], r, speedAt)
    ensures IsStrip(blocks, r, placed[r])
  {
    ShapeOfStrip(blocks, placed, r);
    forall c: nat
      ensures Walkable(placed[r].grid, c) <==> exists i: nat :: c == CellIn(i) && i < 16 * blocks && Open(r, i)
    {
      WalkableInStrip(blocks, speedAt, placed[r], r, c);
    }
  }

  // ---- Blocks ----

  /** How many crossings lie before the block of row i: the blocks of both strips count in turn. */
  function Block(r: nat, i: nat): nat {
    if r == 0 then 2 * ((i + 8) / 16) else 2 * (i / 16) + 1
  }

  function Blocks(): (nat, nat) -> nat {
    (r: nat, c: nat) => if c < 14 then 0 else Block(r, (c - 14) / 6)
  }

  lemma BlockOfCell(r: nat, i: nat)
    ensures Blocks()(r, CellIn(i)) == Block(r, i)
  {
    assert (CellIn(i) - 14) / 6 == i;
  }

  /** Walls separate the blocks of a strip. */
  lemma SameBlock(r: nat, i: nat)
    requires Open(r, i) && Open(r, i + 1)
    ensures Block(r, i) == Block(r, i + 1)
  {
  }

  /** Facing cells are at most one block apart. */
  lemma NextBlock(r: nat, i: nat, y: nat, k: nat)
    requires r + y == 1 && -4 <= i - k <= 4
    ensures Block(y, k) <= Block(r, i) + 1
  {
  }

  lemma CellsBeside(blocks: nat, r: nat, g: RegionGrid, c: nat, n: nat)
    requires IsStrip(blocks, r, g) && Adjacent(g.grid, c, n)
    ensures Blocks()(r, c) == Blocks()(r, n)
  {
    var i: nat :| c == CellIn(i) && i < 16 * blocks && Open(r, i);
    var k: nat :| n == CellIn(k) && k < 16 * blocks && Open(r, k);
    StripCell(blocks, r, g, i);
    StripCell(blocks, r, g, k);
    var d := DirectNeighbourDirection(g.grid, c, n);
    NeighbourIsThere(g.grid, c, d, n);
    assert k == i + d.0 && d.1 == 0;
    BlockOfCell(r, i);
    BlockOfCell(r, k);
    if k == i + 1 {
      SameBlock(r, i);
    } else {
      assert i == k + 1;
      SameBlock(r, k);
    }
  }

  // ---- The seam ----

  /** The seam's edge, seen from region r. */
  function EdgeFrom(blocks: nat, r: nat): (Point, Point) {
    if r == 0 then ((1.0, 0.0), (1.0, Top(blocks))) else ((1.0, Top(blocks)), (1.0, 0.0))
  }

  lemma CellsFacing(blocks: nat, r: nat, from: RegionGrid, to: RegionGrid, pairs: seq<Pair>, q: Pair)
    requires r < 2 && blocks > 0 && IsStrip(blocks, r, from) && IsStrip(blocks, 1 - r, to)
    requires Rasterises(UNIT, from, to, EdgeFrom(blocks, r).0, EdgeFrom(blocks, r).1, pairs) && q in pairs
    ensures Blocks()(1 - r, q.far) <= Blocks()(r, q.near) + 1
  {
    var a, b := EdgeFrom(blocks, r).0, EdgeFrom(blocks, r).1;
    PairsFace(UNIT, from, to, a, b, pairs, q);
    var t: real :| BothNear(UNIT, from, to, a, b, q, t);
    var i: nat :| q.near == CellIn(i) && i < 16 * blocks && Open(r, i);
    var k: nat :| q.far == CellIn(k) && k < 16 * blocks && Open(1 - r, k);
    StripCell(blocks, r, from, i);
    StripCell(blocks, 1 - r, to, k);
    NextBlock(r, i, 1 - r, k);
    BlockOfCell(r, i);
    BlockOfCell(1 - r, k);
  }

  /** A point of the seam, in the middle half of row i. */
  predicate InRow(p: Point, i: nat) {
    p.0 == 1.0 && i as real + 0.25 <= p.1 <= i as real + 0.75
  }

  lemma SideOfStrip(blocks: nat, r: nat, y: real)
    requires r < 2 && blocks > 0
    ensures var a, b := EdgeFrom(blocks, r).0, EdgeFrom(blocks, r).1;
            Orient(a, b, (r as real + 0.5, y)) > 0.0 && Orient(b, a, (r as real + 0.5, y)) < 0.0
  {
    Signs(0.5, Top(blocks));
    assert Scale(0.5, Top(blocks)) == 0.5 * Top(blocks);
  }

  /** At a point of the seam in row i, the nearest cell is the strip's cell in that row. */
  lemma NearestInRow(blocks: nat, r: nat, g: RegionGrid, p: Point, i: nat)
    requires IsStrip(blocks, r, g) && blocks > 0 && InRow(p, i) && i < 16 * blocks && Open(r, i)
    ensures NearestLeft(UNIT, g, EdgeFrom(blocks, r).0, EdgeFrom(blocks, r).1, p, CellIn(i))
  {
    var a, b := EdgeFrom(blocks, r).0, EdgeFrom(blocks, r).1;
    StripCell(blocks, r, g, i);
    SideOfStrip(blocks, r, i as real + 0.5);
    UnitFloor(p, (1, i));
    assert LeftCell(UNIT, g, a, b, p, CellIn(i));
    forall d: nat | LeftCell(UNIT, g, a, b, p, d) ensures Preferred(UNIT, g, p, CellIn(i), d) {
      var k: nat :| d == CellIn(k) && k < 16 * blocks && Open(r, k);
      StripCell(blocks, r, g, k);
      if k != i {
        FartherRow(p.1 - (i as real + 0.5), p.1 - (k as real + 0.5));
      }
    }
  }

  lemma FartherRow(x: real, y: real)
    requires -0.25 <= x <= 0.25 && (y >= 0.75 || y <= -0.75)
    ensures Square(x) < Square(y) && Square(-x) == Square(x) && Square(-y) == Square(y)
  {
    SquareMonotone(if x >= 0.0 then x else -x, 0.25);
    SquareMonotone(0.25, 0.75);
    SquareMonotone(0.75, if y >= 0.0 then y else -y);
  }

  /** Where row i is along the seam. */
  function RowAt(blocks: nat, r: nat, i: nat): real
    requires blocks > 0
  {
    var t := (i as real + 0.5) / Top(blocks);
    if r == 0 then t else 1.0 - t
  }

  lemma RowOnSeam(blocks: nat, r: nat, i: nat)
    requires blocks > 0 && i < 16 * blocks && r < 2
    ensures 0.0 <= RowAt(blocks, r, i) <= 1.0
    ensures var a, b := EdgeFrom(blocks, r).0, EdgeFrom(blocks, r).1;
            Along(a, Minus(b, a), RowAt(blocks, r, i)) == (1.0, i as real + 0.5)
  {
    var h, y := Top(blocks), i as real + 0.5;
    QuotientTimes(y, h);
    QuotientTimes(h - y, h);
    var t := y / h;
    assert Scale(t, h) == y && Scale(1.0 - t, -h) == y - h && Scale(t, 0.0) == 0.0 && Scale(1.0 - t, 0.0) == 0.0;
    Signs(h, 1.0 - t);
    assert Scale(h, 1.0 - t) == h - y;
  }

  lemma WithinQuarter(p: Point, t: real, y: real)
    requires p.0 == 1.0 && DistanceSquared(p, (1.0, y)) <= Square(0.25)
    ensures -0.25 <= p.1 - y <= 0.25
  {
    var d := p.1 - y;
    var x := if d >= 0.0 then d else -d;
    assert Square(0.0) == 0.0 && Square(x) == Square(d);
    SquaresCompare(x, 0.25);
  }

  /** A point near the middle of row i on the seam whose nearest cells are paired. */
  lemma PointInRow(
    blocks: nat, r: nat, from: RegionGrid, to: RegionGrid, pairs: seq<Pair>, i: nat) returns (p: Point)
    requires r < 2 && blocks > 0 && ValidGrid(from.grid) && ValidGrid(to.grid) && i < 16 * blocks
    requires Rasterises(UNIT, from, to, EdgeFrom(blocks, r).0, EdgeFrom(blocks, r).1, pairs)
    ensures InRow(p, i)
    ensures forall q ::
              PairsAt(UNIT, from, to, EdgeFrom(blocks, r).0, EdgeFrom(blocks, r).1, p, q) ==> q in pairs
  {
    var a, b := EdgeFrom(blocks, r).0, EdgeFrom(blocks, r).1;
    RowOnSeam(blocks, r, i);
    var s;
    p, s := SeamIsCovered(UNIT, from, to, a, b, pairs, RowAt(blocks, r, i));
    assert Scale(s, 0.0) == 0.0;
    WithinQuarter(p, s, i as real + 0.5);
  }

  /** The cells of row i face each other across the seam. */
  lemma CellsInRow(blocks: nat, r: nat, from: RegionGrid, to: RegionGrid, i: nat)
    requires r < 2 && IsStrip(blocks, r, from) && IsStrip(blocks, 1 - r, to) && i < 16 * blocks
    ensures CellIn(i) < Size(from.grid) && CellIn(i) < Size(to.grid)
    ensures DistanceSquared(CellCenter(UNIT, from, CellIn(i)), CellCenter(UNIT, to, CellIn(i))) == 1.0
  {
    StripCell(blocks, r, from, i);
    StripCell(blocks, 1 - r, to, i);
    assert Square(0.0) == 0.0 && Square(1.0) == 1.0 && Square(-1.0) == 1.0;
  }

  /** Where both strips are open, the seam pairs their cells. */
  lemma PairInRow(
    blocks: nat, r: nat, from: RegionGrid, to: RegionGrid, pairs: seq<Pair>, i: nat) returns (q: Pair)
    requires r < 2 && blocks > 0 && IsStrip(blocks, r, from) && IsStrip(blocks, 1 - r, to)
    requires Rasterises(UNIT, from, to, EdgeFrom(blocks, r).0, EdgeFrom(blocks, r).1, pairs)
    requires i < 16 * blocks && Open(r, i) && Open(1 - r, i)
    ensures q in pairs && q.near == CellIn(i) && q.far == CellIn(i)
  {
    var p := PointInRow(blocks, r, from, to, pairs, i);
    NearestInRow(blocks, r, from, p, i);
    NearestInRow(blocks, 1 - r, to, p, i);
    CellsInRow(blocks, r, from, to, i);
    q := Pair(CellIn(i), CellIn(i), CrossingTime(UNIT, from, to, CellIn(i), CellIn(i)));
    CrossesIff(UNIT, from, to, q);
    assert PairsAt(UNIT, from, to, EdgeFrom(blocks, r).0, EdgeFrom(blocks, r).1, p, q);
  }

  // ---- The world ----

  /** What the strips are built into. */
  ghost predicate IsComb(blocks: nat, w: World, placed: seq<RegionGrid>) {
    && blocks > 0 && ValidWorld(w) && Places(w, placed) && |w.grids| == |w.seams| == 2
    && IsStrip(blocks, 0, placed[0]) && IsStrip(blocks, 1, placed[1])
    && (forall s :: 0 <= s < 2 ==>
          w.seams[s].to == 1 - s &&
          Rasterises(UNIT, placed[s], placed[1 - s], EdgeFrom(blocks, s).0, EdgeFrom(blocks, s).1, w.seams[s].pairs))
    && forall r: nat, s: nat :: r < 2 ==> (s in w.outSeams[r] <==> s == r)
  }

  lemma SeamOfStrips(blocks: nat, placed: seq<RegionGrid>, seams: seq<Seam>, s: nat)
    requires blocks > 0 && |placed| == |seams| == 2 && s < 2
    requires SeamDone(UNIT, Strips(blocks), placed, seams, s)
    ensures seams[s].to == 1 - s
    ensures Rasterises(UNIT, placed[s], placed[1 - s], EdgeFrom(blocks, s).0, EdgeFrom(blocks, s).1, seams[s].pairs)
  {
    StripsAreValid(blocks);
    var g := Strips(blocks);
    assert g.seams[s] == if s == 0 then SeamEdge(0, 1, 0, 0) else SeamEdge(1, 0, 0, 0);
  }

  lemma SeamsOf(g: RegionGraph, outSeams: seq<seq<nat>>, r: nat, s: nat)
    requires |g.seams| == 2 && Sorted(g, outSeams, 2) && r < |g.regions|
    ensures s in outSeams[r] <==> s < 2 && g.seams[s].from == r
  {
  }

  lemma SeamsFromStrips(blocks: nat, outSeams: seq<seq<nat>>)
    requires blocks > 0 && Sorted(Strips(blocks), outSeams, 2)
    ensures |outSeams| == 2 && forall r: nat, s: nat :: r < 2 ==> (s in outSeams[r] <==> s == r)
  {
    var g := Strips(blocks);
    assert g.seams[0].from == 0 && g.seams[1].from == 1 && |g.regions| == 2;
    forall r: nat, s: nat | r < 2 ensures s in outSeams[r] <==> s == r {
      assert s in outSeams[r] <==> s < 2 && g.seams[s].from == r by {
        SeamsOf(g, outSeams, r, s);
      }
    }
  }

  lemma BuiltIsComb(blocks: nat, spec: GridSpec, speedAt: (nat, Point) -> real, w: World, placed: seq<RegionGrid>)
    requires blocks > 0 && IsBuilt(spec, Strips(blocks), speedAt, w, placed) && spec.cellSize == 1.0
    requires SpeedsInStrips(blocks, speedAt)
    ensures spec == UNIT && IsComb(blocks, w, placed)
  {
    var g := Strips(blocks);
    assert |g.regions| == |g.seams| == 2;
    OriginOfStrips(blocks, (spec.originX, spec.originY));
    assert PlacedOver(UNIT, g, placed, 0) && PlacedOver(UNIT, g, placed, 1);
    StripGrid(blocks, speedAt, placed, 0);
    StripGrid(blocks, speedAt, placed, 1);
    SeamsFromStrips(blocks, w.outSeams);
    forall s: nat | s < 2
      ensures w.seams[s].to == 1 - s && Rasterises(UNIT, placed[s], placed[1 - s], EdgeFrom(blocks, s).0,
                EdgeFrom(blocks, s).1, w.seams[s].pairs)
    {
      assert SeamDone(spec, g, placed, w.seams, s);
      SeamOfStrips(blocks, placed, w.seams, s);
    }
  }

  /** A cell at the bottom of the left strip. */
  const BOTTOM: seq<seq<nat>> := [[14], []]

  lemma BottomIsValid(blocks: nat, w: World, placed: seq<RegionGrid>)
    requires IsComb(blocks, w, placed)
    ensures ValidDestination(w, BOTTOM)
  {
    assert CellIn(0) == 14;
    StripCell(blocks, 0, placed[0], 0);
    assert Walkable(w.grids[0], 14) by {
      assert 14 == CellIn(0) && 0 < 16 * blocks && Open(0, 0);
    }
  }

  lemma BlocksCount(blocks: nat, w: World, placed: seq<RegionGrid>)
    requires IsComb(blocks, w, placed)
    ensures ValidDestination(w, BOTTOM) && Counts(w, BOTTOM, Blocks())
  {
    BottomIsValid(blocks, w, placed);
    var level := Blocks();
    assert level(0, CellIn(0)) == 0 by {
      BlockOfCell(0, 0);
    }
    forall r: nat, c: nat, n: nat | r < |w.grids| && Adjacent(w.grids[r], c, n) ensures level(r, c) == level(r, n) {
      CellsBeside(blocks, r, placed[r], c, n);
    }
    forall r: nat, y: nat, q: Pair | Crosses(w, r, y, q) ensures level(y, q.far) <= level(r, q.near) + 1 {
      CellsFacing(blocks, r, placed[r], placed[1 - r], w.seams[r].pairs, q);
    }
  }

  // ---- The way up ----

  /** The strip in which the way up arrives in row i. */
  function StripAt(i: nat): nat {
    if 5 <= i % 16 <= 12 then 1 else 0
  }

  /** One row further up, across the seam first if need be. */
  function RowUp(i: nat): seq<(nat, nat)>
    requires i > 0
  {
    (if StripAt(i) != StripAt(i - 1) then [(StripAt(i), CellIn(i - 1))] else []) + [(StripAt(i), CellIn(i))]
  }

  /** Row by row, crossing the seam where the other strip has to be used next. */
  function WayUp(i: nat): seq<(nat, nat)> {
    if i == 0 then [(0, CellIn(0))]
    else
      WayUp(i - 1) + RowUp(i)
  }

  lemma WayEnds(i: nat)
    ensures |WayUp(i)| > 0 && WayUp(i)[|WayUp(i)| - 1] == (StripAt(i), CellIn(i))
  {
  }

  lemma OpenOnWay(i: nat)
    ensures Open(StripAt(i), i)
    ensures i > 0 ==> Open(StripAt(i), i - 1) && Open(StripAt(i - 1), i - 1)
  {
  }

  lemma RowAbove(blocks: nat, w: World, placed: seq<RegionGrid>, r: nat, i: nat)
    requires IsComb(blocks, w, placed) && r < 2 && i + 1 < 16 * blocks && Open(r, i) && Open(r, i + 1)
    ensures Onward(w, (r, CellIn(i)), (r, CellIn(i + 1)))
  {
    var g := placed[r].grid;
    StripCell(blocks, r, placed[r], i);
    StripCell(blocks, r, placed[r], i + 1);
    CellOfRowCol(6, g.height, CellIn(i));
    CellOfRowCol(6, g.height, CellIn(i + 1));
    assert Adjacent(g, CellIn(i + 1), CellIn(i));
  }

  lemma CrossInRow(blocks: nat, w: World, placed: seq<RegionGrid>, r: nat, i: nat)
    requires IsComb(blocks, w, placed) && r < 2 && i < 16 * blocks && Open(r, i) && Open(1 - r, i)
    ensures Onward(w, (r, CellIn(i)), (1 - r, CellIn(i)))
  {
    var q := PairInRow(blocks, r, placed[r], placed[1 - r], w.seams[r].pairs, i);
    assert r in w.outSeams[r];
    assert Crosses(w, r, 1 - r, q);
  }

  lemma WayOneMore(w: World, dest: seq<seq<nat>>, way: seq<(nat, nat)>, b: (nat, nat))
    requires ValidWorld(w) && ValidDestination(w, dest) && IsWay(w, dest, way) && Onward(w, way[|way| - 1], b)
    ensures IsWay(w, dest, way + [b])
  {
    var way' := way + [b];
    forall k | 0 <= k < |way'| - 1 ensures Onward(w, way'[k], way'[k + 1]) {
      if k < |way| - 1 {
        assert Onward(w, way[k], way[k + 1]);
      }
    }
  }

  lemma OneRowUp(blocks: nat, w: World, placed: seq<RegionGrid>, way: seq<(nat, nat)>, i: nat)
    requires IsComb(blocks, w, placed) && ValidDestination(w, BOTTOM) && 0 < i < 16 * blocks
    requires IsWay(w, BOTTOM, way) && way[|way| - 1] == (StripAt(i - 1), CellIn(i - 1))
    ensures IsWay(w, BOTTOM, way + RowUp(i))
  {
    var r, way' := StripAt(i), way;
    OpenOnWay(i);
    if r != StripAt(i - 1) {
      CrossInRow(blocks, w, placed, StripAt(i - 1), i - 1);
      WayOneMore(w, BOTTOM, way, (r, CellIn(i - 1)));
      way' := way + [(r, CellIn(i - 1))];
    }
    RowAbove(blocks, w, placed, r, i - 1);
    WayOneMore(w, BOTTOM, way', (r, CellIn(i)));
    assert way + RowUp(i) == way' + [(r, CellIn(i))];
  }

  lemma {:induction false} WayLeadsUp(blocks: nat, w: World, placed: seq<RegionGrid>, i: nat)
    requires IsComb(blocks, w, placed) && ValidDestination(w, BOTTOM) && i < 16 * blocks
    ensures IsWay(w, BOTTOM, WayUp(i))
  {
    if i > 0 {
      WayLeadsUp(blocks, w, placed, i - 1);
      WayEnds(i - 1);
      OneRowUp(blocks, w, placed, WayUp(i - 1), i);
    }
  }

  // ---- The budget runs out ----

  /** With 150 blocks or more in a strip, no run within the budget converges, although a way leads to the top:
      the promise that the budget only ends pathological exchanges of ever smaller improvements fails here. */
  lemma CombsExceedBudget(blocks: nat, w: World, placed: seq<RegionGrid>)
    requires IsComb(blocks, w, placed) && blocks >= 150
    ensures ValidDestination(w, BOTTOM) && WayToTop(blocks, w)
    ensures forall states, order :: IsRun(w, BOTTOM, states, order) && |order| <= Budget(w) ==> !Clean(states[|order|])
  {
    var top := 16 * blocks - 1;
    BlocksCount(blocks, w, placed);
    WayLeadsUp(blocks, w, placed, top);
    WayEnds(top);
    TopIsFar(blocks, w);
    BudgetRunsOut(w, BOTTOM, Blocks(), WayUp(top));
  }

  ghost predicate WayToTop(blocks: nat, w: World)
    requires blocks > 0 && ValidWorld(w) && ValidDestination(w, BOTTOM)
  {
    exists way :: IsWay(w, BOTTOM, way) && way[|way| - 1] == (0, CellIn(16 * blocks - 1))
  }

  lemma TopIsFar(blocks: nat, w: World)
    requires blocks >= 150 && |w.grids| == |w.seams| == 2
    ensures var top := 16 * blocks - 1; StripAt(top) == 0 && Blocks()(0, CellIn(top)) == 2 * blocks >= Budget(w)
  {
    BlockOfCell(0, 16 * blocks - 1);
  }

  /** So the propagation on these strips reports that it did not converge, in whatever order it pops regions. */
  method PropagateUp(blocks: nat, ghost speedAt: (nat, Point) -> real, w: World, placed: seq<RegionGrid>)
    returns (result: Result)
    requires blocks >= 150 && IsBuilt(UNIT, Strips(blocks), speedAt, w, placed) && SpeedsInStrips(blocks, speedAt)
    ensures result.NotConverged?
  {
    BuiltIsComb(blocks, UNIT, speedAt, w, placed);
    CombsExceedBudget(blocks, w, placed);
    ghost var seeds, states, order;
    result, seeds, states, order := Propagate(w, BOTTOM);
  }

  /** The graph of the strips is accepted, and its grids are not too large. */
  method BuildStrips(blocks: nat, wallInfluence: real, speedAt: (nat, Point) -> real, root: real -> real)
    returns (w: World, placed: seq<RegionGrid>)
    requires Godunov.IsSquareRoot(root) && wallInfluence > 0.0 && 0 < blocks <= 1_000_000
    requires SpeedsInStrips(blocks, speedAt)
    ensures IsBuilt(UNIT, Strips(blocks), speedAt, w, placed) && IsComb(blocks, w, placed)
  {
    var field;
    ghost var spec;
    field, spec := Build(Strips(blocks), 1.0, wallInfluence, speedAt, root);
    StripsAreValid(blocks);
    OriginOfStrips(blocks, (spec.originX, spec.originY));
    StripsAreSmall(blocks);
    w, placed := field.value.0, field.value.1;
    BuiltIsComb(blocks, spec, speedAt, w, placed);
  }

  lemma StripsAreSmall(blocks: nat)
    requires 0 < blocks <= 1_000_000
    ensures !TooLarge(UNIT, LeftStrip(blocks)) && !TooLarge(UNIT, RightStrip(blocks))
  {
    var rows := 16 * blocks;
    BoxOfLeft(blocks);
    BoxOfRight(blocks);
    RowMajor(6, rows + 5, 0);
    SmallEnough(LeftStrip(blocks), (0.0, 0.0), (1.0, Top(blocks)), (0, 0), (1, rows));
    SmallEnough(RightStrip(blocks), (1.0, 0.0), (2.0, Top(blocks)), (1, 0), (2, rows));
  }
}
