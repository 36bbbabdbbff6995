// From a region graph to the grids and seams that the propagation runs on (validate_graph and
// directed_seams in libfloorfield/src/region_graph.rs, MultiRegionFloorfield::new in
// libfloorfield/src/multi_region.rs).
module RegionGraphs {
  import opened Wrappers
  import opened Cells
  import opened FastSweeping
  import opened Propagation
  import opened Seams
  import opened Halo
  import opened Reals
  import opened Plane
  import Godunov

  type Ring = seq<Point>

  datatype Outline = Outline(outer: Ring, holes: seq<Ring>)

  /** A way from one region into another, through an edge of the former: rings count from the outer one,
      holes follow in order. */
  datatype SeamEdge = SeamEdge(from: nat, to: nat, ring: nat, index: nat)

  datatype RegionGraph = RegionGraph(regions: seq<Outline>, seams: seq<SeamEdge>)

  // ---- Checking a graph ----

  /** Where a seam's edge begins and ends, if there is such an edge. After its last point a ring goes on to
      its first. */
  function EdgeOf(o: Outline, s: SeamEdge): Option<(Point, Point)> {
    if s.ring > |o.holes| then None
    else
      var ring := if s.ring == 0 then o.outer else o.holes[s.ring - 1];
      if s.index < |ring| then Some((ring[s.index], ring[if s.index + 1 == |ring| then 0 else s.index + 1])) else None
  }

  predicate ValidOutline(o: Outline) {
    |o.outer| >= 3 && forall k :: 0 <= k < |o.holes| ==> |o.holes[k]| >= 3
  }

  predicate ValidSeam(g: RegionGraph, s: SeamEdge) {
    && s.from < |g.regions| && s.to < |g.regions| && s.from != s.to
    && var e := EdgeOf(g.regions[s.from], s); e.Some? && e.value.0 != e.value.1
  }

  predicate SameEnds(a: SeamEdge, b: SeamEdge) {
    a.from == b.from && a.to == b.to
  }

  predicate Reverses(a: SeamEdge, b: SeamEdge) {
    a.from == b.to && a.to == b.from
  }

  /** Some seam leads back. */
  ghost predicate LedBack(g: RegionGraph, s: SeamEdge) {
    exists l :: 0 <= l < |g.seams| && Reverses(s, g.seams[l])
  }

  /** At least one region, proper rings, and seams between distinct regions through edges of some
      length, each with its reverse and none twice. */
  ghost predicate ValidGraph(g: RegionGraph) {
    && g.regions != []
    && (forall r {:trigger ValidOutline(g.regions[r])} :: 0 <= r < |g.regions| ==> ValidOutline(g.regions[r]))
    && (forall k {:trigger ValidSeam(g, g.seams[k])} :: 0 <= k < |g.seams| ==> ValidSeam(g, g.seams[k]))
    && (forall k, l {:trigger SameEnds(g.seams[k], g.seams[l])} :: 0 <= k < l < |g.seams| ==>
         !SameEnds(g.seams[k], g.seams[l]))
    && forall k {:trigger LedBack(g, g.seams[k])} :: 0 <= k < |g.seams| ==> LedBack(g, g.seams[k])
  }

  /** The directions that the first n seams give. */
  ghost predicate DirectionsOf(g: RegionGraph, n: nat, directed: set<(nat, nat)>)
    requires n <= |g.seams|
  {
    forall from: nat, to: nat :: (from, to) in directed <==> exists k :: 0 <= k < n && Leads(g.seams[k], from, to)
  }

  predicate Leads(s: SeamEdge, from: nat, to: nat) {
    s.from == from && s.to == to
  }

  lemma OneMoreDirection(g: RegionGraph, n: nat, directed: set<(nat, nat)>)
    requires n < |g.seams| && DirectionsOf(g, n, directed)
    ensures DirectionsOf(g, n + 1, directed + {(g.seams[n].from, g.seams[n].to)})
  {
    assert Leads(g.seams[n], g.seams[n].from, g.seams[n].to);
  }

  lemma GivenTwice(g: RegionGraph, n: nat, directed: set<(nat, nat)>)
    requires n < |g.seams| && DirectionsOf(g, n, directed)
    ensures (g.seams[n].from, g.seams[n].to) in directed <==> exists k :: 0 <= k < n && SameEnds(g.seams[k], g.seams[n])
  {
    if (g.seams[n].from, g.seams[n].to) in directed {
      var k :| 0 <= k < n && Leads(g.seams[k], g.seams[n].from, g.seams[n].to);
      assert SameEnds(g.seams[k], g.seams[n]);
    }
    if k :| 0 <= k < n && SameEnds(g.seams[k], g.seams[n]) {
      assert Leads(g.seams[k], g.seams[n].from, g.seams[n].to);
    }
  }

  lemma LedBackByDirections(g: RegionGraph, directed: set<(nat, nat)>, k: nat)
    requires DirectionsOf(g, |g.seams|, directed) && k < |g.seams|
    ensures LedBack(g, g.seams[k]) <==> (g.seams[k].to, g.seams[k].from) in directed
  {
    if LedBack(g, g.seams[k]) {
      var l :| 0 <= l < |g.seams| && Reverses(g.seams[k], g.seams[l]);
      assert Leads(g.seams[l], g.seams[k].to, g.seams[k].from);
    }
    if (g.seams[k].to, g.seams[k].from) in directed {
      var l :| 0 <= l < |g.seams| && Leads(g.seams[l], g.seams[k].to, g.seams[k].from);
      assert Reverses(g.seams[k], g.seams[l]);
    }
  }

  /** Some seam does not lead back exactly if some direction lacks its reverse. */
  lemma MissingReverse(g: RegionGraph, directed: set<(nat, nat)>)
    requires DirectionsOf(g, |g.seams|, directed)
    ensures (forall d :: d in directed ==> (d.1, d.0) in directed) <==>
            forall k {:trigger LedBack(g, g.seams[k])} :: 0 <= k < |g.seams| ==> LedBack(g, g.seams[k])
  {
    forall k: nat | k < |g.seams| ensures LedBack(g, g.seams[k]) <==> (g.seams[k].to, g.seams[k].from) in directed
      ensures (g.seams[k].from, g.seams[k].to) in directed
    {
      LedBackByDirections(g, directed, k);
      assert Leads(g.seams[k], g.seams[k].from, g.seams[k].to);
    }
    forall d | d in directed ensures exists k :: 0 <= k < |g.seams| && d == (g.seams[k].from, g.seams[k].to) {
      assert (d.0, d.1) in directed;
      var k :| 0 <= k < |g.seams| && Leads(g.seams[k], d.0, d.1);
    }
  }

  /** All rings of an outline, the outer one first. */
  ghost function Rings(o: Outline): seq<Ring> {
    [o.outer] + o.holes
  }

  /** From a to b is the edge that the seam names, in the ring closed by its first point. */
  ghost predicate IsEdge(o: Outline, s: SeamEdge, a: Point, b: Point) {
    && s.ring < |Rings(o)| && s.index < |Rings(o)[s.ring]|
    && var ring := Rings(o)[s.ring];
       var closed := ring + [ring[0]];
       a == closed[s.index] && b == closed[s.index + 1]
  }

  lemma EdgeOfIff(o: Outline, s: SeamEdge, a: Point, b: Point)
    ensures EdgeOf(o, s) == Some((a, b)) <==> IsEdge(o, s, a, b)
  {
  }

  /** The seam leads from one region to another, through an edge of some length. */
  ghost predicate IsSeam(g: RegionGraph, s: SeamEdge) {
    && s.from < |g.regions| && s.to < |g.regions| && s.from != s.to
    && exists a, b :: IsEdge(g.regions[s.from], s, a, b) && a != b
  }

  /** What is asked of a graph, in one place: a region, three points to a ring, seams between two regions, none
      twice between the same two, and each with one that leads back. */
  ghost predicate Documented(g: RegionGraph) {
    && |g.regions| > 0
    && (forall o, ring :: o in g.regions && ring in Rings(o) ==> |ring| > 2)
    && (forall s :: s in g.seams ==> IsSeam(g, s))
    && (forall k, l :: 0 <= k < |g.seams| && 0 <= l < |g.seams| && k != l ==>
          (g.seams[k].from, g.seams[k].to) != (g.seams[l].from, g.seams[l].to))
    && forall s {:trigger HasReturn(g, s)} :: s in g.seams ==> HasReturn(g, s)
  }

  ghost predicate HasReturn(g: RegionGraph, s: SeamEdge) {
    exists back :: back in g.seams && back.from == s.to && back.to == s.from
  }

  lemma SeamIff(g: RegionGraph, s: SeamEdge)
    ensures ValidSeam(g, s) <==> IsSeam(g, s)
  {
    if s.from < |g.regions| {
      var o := g.regions[s.from];
      forall a, b ensures EdgeOf(o, s) == Some((a, b)) <==> IsEdge(o, s, a, b) {
        EdgeOfIff(o, s, a, b);
      }
      if ValidSeam(g, s) {
        var e := EdgeOf(o, s).value;
        assert EdgeOf(o, s) == Some((e.0, e.1));
      }
    }
  }

  lemma OutlineIff(o: Outline)
    ensures ValidOutline(o) <==> forall ring :: ring in Rings(o) ==> |ring| > 2
  {
    if forall ring :: ring in Rings(o) ==> |ring| > 2 {
      assert Rings(o)[0] == o.outer;
      forall k | 0 <= k < |o.holes| ensures |o.holes[k]| >= 3 {
        assert Rings(o)[k + 1] == o.holes[k];
      }
    }
  }

  lemma ValidIsDocumented(g: RegionGraph)
    requires ValidGraph(g)
    ensures Documented(g)
  {
    forall o | o in g.regions ensures forall ring :: ring in Rings(o) ==> |ring| > 2 {
      var r :| 0 <= r < |g.regions| && g.regions[r] == o;
      assert ValidOutline(g.regions[r]);
      OutlineIff(o);
    }
    forall s | s in g.seams
      ensures IsSeam(g, s) && HasReturn(g, s)
    {
      var k :| 0 <= k < |g.seams| && g.seams[k] == s;
      assert ValidSeam(g, g.seams[k]) && LedBack(g, g.seams[k]);
      SeamIff(g, s);
      var l :| 0 <= l < |g.seams| && Reverses(s, g.seams[l]);
      assert g.seams[l] in g.seams;
    }
    forall k, l | 0 <= k < |g.seams| && 0 <= l < |g.seams| && k != l
      ensures (g.seams[k].from, g.seams[k].to) != (g.seams[l].from, g.seams[l].to)
    {
      assert !SameEnds(g.seams[if k < l then k else l], g.seams[if k < l then l else k]);
    }
  }

  lemma SeamOfDocumented(g: RegionGraph, k: nat)
    requires Documented(g) && k < |g.seams|
    ensures ValidSeam(g, g.seams[k]) && LedBack(g, g.seams[k])
  {
    var s := g.seams[k];
    assert s in g.seams && IsSeam(g, s) && HasReturn(g, s);
    SeamIff(g, s);
    var back :| back in g.seams && back.from == s.to && back.to == s.from;
    var l :| 0 <= l < |g.seams| && g.seams[l] == back;
    assert Reverses(s, g.seams[l]);
  }

  lemma OutlineOfDocumented(g: RegionGraph, r: nat)
    requires Documented(g) && r < |g.regions|
    ensures ValidOutline(g.regions[r])
  {
    assert g.regions[r] in g.regions;
    OutlineIff(g.regions[r]);
  }

  lemma DocumentedIsValid(g: RegionGraph)
    requires Documented(g)
    ensures ValidGraph(g)
  {
    forall r | 0 <= r < |g.regions| ensures ValidOutline(g.regions[r]) {
      OutlineOfDocumented(g, r);
    }
    forall k | 0 <= k < |g.seams| ensures ValidSeam(g, g.seams[k]) && LedBack(g, g.seams[k]) {
      SeamOfDocumented(g, k);
    }
  }

  method ValidateGraph(g: RegionGraph) returns (valid: bool)
    ensures valid <==> ValidGraph(g)
    ensures valid <==> Documented(g)
  {
    if ValidGraph(g) {
      ValidIsDocumented(g);
    }
    if Documented(g) {
      DocumentedIsValid(g);
    }
    if g.regions == [] {
      return false;
    }
    for r := 0 to |g.regions|
      invariant forall x :: 0 <= x < r ==> ValidOutline(g.regions[x])
    {
      if !ValidOutline(g.regions[r]) {
        return false;
      }
    }
    valid := ValidateSeams(g);
  }

  /** Every seam on its own, then that none is given twice and each has its reverse. */
  method ValidateSeams(g: RegionGraph) returns (valid: bool)
    ensures valid <==>
              && (forall k {:trigger ValidSeam(g, g.seams[k])} :: 0 <= k < |g.seams| ==> ValidSeam(g, g.seams[k]))
              && (forall k, l {:trigger SameEnds(g.seams[k], g.seams[l])} ::
                    0 <= k < l < |g.seams| ==> !SameEnds(g.seams[k], g.seams[l]))
              && forall k {:trigger LedBack(g, g.seams[k])} :: 0 <= k < |g.seams| ==> LedBack(g, g.seams[k])
  {
    var directed: set<(nat, nat)> := {};
    for k := 0 to |g.seams|
      invariant forall x {:trigger ValidSeam(g, g.seams[x])} :: 0 <= x < k ==> ValidSeam(g, g.seams[x])
      invariant forall x, y {:trigger SameEnds(g.seams[x], g.seams[y])} :: 0 <= x < y < k ==>
                  !SameEnds(g.seams[x], g.seams[y])
      invariant DirectionsOf(g, k, directed)
    {
      var s := g.seams[k];
      if !ValidSeam(g, s) {
        return false;
      }
      GivenTwice(g, k, directed);
      if (s.from, s.to) in directed {
        return false;
      }
      OneMoreDirection(g, k, directed);
      directed := directed + {(s.from, s.to)};
    }
    MissingReverse(g, directed);
    valid := forall d :: d in directed ==> (d.1, d.0) in directed;
  }

  /** One region opens into another. */
  ghost predicate OpensInto(g: RegionGraph, a: nat, b: nat) {
    exists k :: 0 <= k < |g.seams| && Leads(g.seams[k], a, b)
  }

  lemma OpensBothWays(g: RegionGraph, a: nat, b: nat)
    requires ValidGraph(g) && OpensInto(g, a, b)
    ensures OpensInto(g, b, a) && a != b
  {
    var k :| 0 <= k < |g.seams| && Leads(g.seams[k], a, b);
    assert ValidSeam(g, g.seams[k]) && LedBack(g, g.seams[k]);
    var l :| 0 <= l < |g.seams| && Reverses(g.seams[k], g.seams[l]);
    assert Leads(g.seams[l], b, a);
  }

  // ---- Grids ----

  /** The smallest axis-aligned box around the first n points. */
  ghost predicate IsBoundingBox(ring: Ring, n: nat, min: Point, max: Point) {
    && 0 < n <= |ring|
    && (forall i :: 0 <= i < n ==> InBox(ring[i], min, max))
    && (exists i :: 0 <= i < n && ring[i].0 == min.0) && (exists i :: 0 <= i < n && ring[i].1 == min.1)
    && (exists i :: 0 <= i < n && ring[i].0 == max.0) && exists i :: 0 <= i < n && ring[i].1 == max.1
  }

  lemma BoxOneMore(ring: Ring, n: nat, min: Point, max: Point)
    requires n < |ring| && IsBoundingBox(ring, n, min, max)
    ensures IsBoundingBox(
              ring, n + 1, (Least(min.0, ring[n].0), Least(min.1, ring[n].1)),
                (Greatest(max.0, ring[n].0), Greatest(max.1, ring[n].1)))
  {
    forall i | 0 <= i < n ensures InBox(ring[i], min, max) {
    }
  }

  /** Axis-aligned bounds of a ring. */
  method BoundingBox(ring: Ring) returns (min: Point, max: Point)
    requires ring != []
    ensures IsBoundingBox(ring, |ring|, min, max) && min.0 <= max.0 && min.1 <= max.1
  {
    min, max := ring[0], ring[0];
    for k := 1 to |ring|
      invariant IsBoundingBox(ring, k, min, max)
    {
      BoxOneMore(ring, k, min, max);
      var p := ring[k];
      min := (Least(min.0, p.0), Least(min.1, p.1));
      max := (Greatest(max.0, p.0), Greatest(max.1, p.1));
    }
    assert InBox(ring[0], min, max);
  }

  const MAX_CELLS_PER_REGION: nat := 100_000_000

  /** How many lattice cells from lo to hi. */
  function Extent(lo: int, hi: int): nat {
    if lo <= hi then hi - lo + 1 else 0
  }

  /** The extents, in cells, of the padded grid over the box [min, max]. */
  function PaddedExtent(spec: GridSpec, min: Point, max: Point): (nat, nat)
    requires spec.cellSize > 0.0
  {
    var pad := HALO_PAD as real * spec.cellSize;
    var lo := FloorCell(spec, (min.0 - pad, min.1 - pad));
    var hi := FloorCell(spec, (max.0 + pad, max.1 + pad));
    (Extent(lo.0, hi.0), Extent(lo.1, hi.1))
  }

  /** Region o would need more cells than allowed. */
  ghost predicate TooLarge(spec: GridSpec, o: Outline)
    requires spec.cellSize > 0.0
  {
    exists min, max :: IsBoundingBox(o.outer, |o.outer|, min, max) &&
      var e := PaddedExtent(spec, min, max); Count(e.0, e.1) > MAX_CELLS_PER_REGION
  }

  lemma CoverIsNotEmpty(origin: real, cs: real, min: real, max: real)
    requires cs > 0.0 && min <= max
    ensures var pad := HALO_PAD as real * cs; ((min - pad - origin) / cs).Floor <= ((max + pad - origin) / cs).Floor
  {
    PadAxis(origin, cs, min, min, max);
  }

  lemma SameBox(ring: Ring, min: Point, max: Point, lo: Point, hi: Point)
    requires IsBoundingBox(ring, |ring|, min, max) && IsBoundingBox(ring, |ring|, lo, hi)
    ensures lo == min && hi == max
  {
    forall i | 0 <= i < |ring| ensures InBox(ring[i], min, max) && InBox(ring[i], lo, hi) {
    }
  }

  lemma TooLargeByBox(spec: GridSpec, o: Outline, min: Point, max: Point)
    requires spec.cellSize > 0.0 && IsBoundingBox(o.outer, |o.outer|, min, max)
    ensures TooLarge(spec, o) <==> Count(PaddedExtent(spec, min, max).0,
              PaddedExtent(spec, min, max).1) > MAX_CELLS_PER_REGION
  {
    if TooLarge(spec, o) {
      var lo, hi :| IsBoundingBox(o.outer, |o.outer|, lo, hi) &&
        var e := PaddedExtent(spec, lo, hi); Count(e.0, e.1) > MAX_CELLS_PER_REGION;
      SameBox(o.outer, min, max, lo, hi);
    }
  }

  /** The padded grid over a region's outer ring, with the speed at every cell's centre; none if it
      has too many cells. */
  method RegionGridOf(
    spec: GridSpec, o: Outline, speedAt: Point -> real, root: real -> real)
    returns (g: Option<RegionGrid>, ghost min: Point, ghost max: Point)
    requires spec.cellSize > 0.0 && ValidOutline(o) && Godunov.IsSquareRoot(root)
    ensures IsBoundingBox(o.outer, |o.outer|, min, max)
    ensures g.None? <==> TooLarge(spec, o)
    ensures g.Some? ==>
              && ValidGrid(g.value.grid) && CoversPadded(spec, g.value, min, max)
              && Size(g.value.grid) <= MAX_CELLS_PER_REGION
    ensures g.Some? ==> forall c: nat :: c < Size(g.value.grid) ==>
              g.value.grid.speed[c] == speedAt(CellCenter(spec, g.value, c))
  {
    var lower, upper := BoundingBox(o.outer);
    min, max := lower, upper;
    var pad := HALO_PAD as real * spec.cellSize;
    var lo := FloorCell(spec, (lower.0 - pad, lower.1 - pad));
    var hi := FloorCell(spec, (upper.0 + pad, upper.1 + pad));
    CoverIsNotEmpty(spec.originX, spec.cellSize, lower.0, upper.0);
    CoverIsNotEmpty(spec.originY, spec.cellSize, lower.1, upper.1);
    var width, height := Extent(lo.0, hi.0), Extent(lo.1, hi.1);
    TooLargeByBox(spec, o, lower, upper);
    if Count(width, height) > MAX_CELLS_PER_REGION {
      return None, min, max;
    }
    var blank := RegionGrid(Grid(width, height, spec.cellSize, [], root), lo);
    var speed := SpeedField(spec, blank, speedAt);
    g := Some(RegionGrid(Grid(width, height, spec.cellSize, speed, root), lo));
    forall c: nat | c < Size(g.value.grid) ensures g.value.grid.speed[c] == speedAt(CellCenter(spec, g.value, c)) {
      CentersIgnoreSpeed(spec, blank, g.value, c);
      assert speed[c] == speedAt(CellCenter(spec, blank, c));
    }
  }

  function SpeedField(spec: GridSpec, blank: RegionGrid, speedAt: Point -> real): (speed: seq<real>)
    ensures |speed| == Size(blank.grid)
    ensures forall c: nat {:trigger speed[c]} :: c < |speed| ==> speed[c] == speedAt(CellCenter(spec, blank, c))
  {
    seq(Size(blank.grid), c requires 0 <= c < Size(blank.grid) => speedAt(CellCenter(spec, blank, c)))
  }

  /** Where a grid's cells are does not depend on its speeds. */
  lemma CentersIgnoreSpeed(spec: GridSpec, blank: RegionGrid, g: RegionGrid, c: nat)
    requires c < Size(blank.grid) && g == RegionGrid(blank.grid.(speed := g.grid.speed), blank.offset)
    ensures c < Size(g.grid) && CellCenter(spec, g, c) == CellCenter(spec, blank, c)
  {
    CellOfRowCol(g.grid.width, g.grid.height, c);
  }

  // ---- The whole field ----

  /** Region r's grid is the padded one over its outline. */
  ghost predicate PlacedOver(spec: GridSpec, g: RegionGraph, placed: seq<RegionGrid>, r: nat)
    requires spec.cellSize > 0.0
  {
    && r < |placed| && r < |g.regions| && ValidGrid(placed[r].grid)
    && exists min, max ::
         CoversPadded(spec, placed[r], min, max) && IsBoundingBox(g.regions[r].outer, |g.regions[r].outer|, min, max)
  }

  /** Seam s, rasterised across its edge. If that is on the outer ring, every far cell lies on the
      near region's grid, where its halo goes. */
  ghost predicate Rasterised(spec: GridSpec, g: RegionGraph, placed: seq<RegionGrid>, s: SeamEdge, seam: Seam)
    requires spec.cellSize > 0.0 && ValidSeam(g, s) && |placed| == |g.regions|
  {
    var e := EdgeOf(g.regions[s.from], s).value;
    && seam.to == s.to
    && Rasterises(spec, placed[s.from], placed[s.to], e.0, e.1, seam.pairs)
    && (s.ring == 0 ==> AllCovered(placed[s.from], placed[s.to], seam.pairs))
  }

  ghost predicate AllCovered(from: RegionGrid, to: RegionGrid, pairs: seq<Pair>) {
    forall q :: q in pairs ==> q.far < Size(to.grid) && Local(from, Lattice(to, q.far)).Some?
  }

  ghost predicate AllValid(from: RegionGrid, to: RegionGrid, pairs: seq<Pair>) {
    forall q {:trigger ValidPair(from.grid, to.grid, q)} :: q in pairs ==> ValidPair(from.grid, to.grid, q)
  }

  method Rasterise(spec: GridSpec, g: RegionGraph, placed: seq<RegionGrid>, s: SeamEdge) returns (seam: Seam)
    requires spec.cellSize > 0.0 && ValidSeam(g, s) && |placed| == |g.regions|
    requires PlacedOver(spec, g, placed, s.from) && PlacedOver(spec, g, placed, s.to)
    ensures Rasterised(spec, g, placed, s, seam)
    ensures AllValid(placed[s.from], placed[s.to], seam.pairs)
  {
    var e := EdgeOf(g.regions[s.from], s).value;
    var pairs := SeamPairs(spec, placed[s.from], placed[s.to], e.0, e.1);
    seam := Seam(s.to, pairs);
    forall q | q in pairs ensures FacingPair(spec, placed[s.from], placed[s.to], e.0, e.1, q) {
      PairsFace(spec, placed[s.from], placed[s.to], e.0, e.1, pairs, q);
    }
    if s.ring == 0 {
      OuterPairsCovered(spec, g, placed, s, pairs);
    }
  }

  lemma OuterPairsCovered(spec: GridSpec, g: RegionGraph, placed: seq<RegionGrid>, s: SeamEdge, pairs: seq<Pair>)
    requires spec.cellSize > 0.0 && ValidSeam(g, s) && |placed| == |g.regions| && s.ring == 0
    requires PlacedOver(spec, g, placed, s.from)
    requires var e := EdgeOf(g.regions[s.from], s).value;
             forall q :: q in pairs ==> FacingPair(spec, placed[s.from], placed[s.to], e.0, e.1, q)
    ensures AllCovered(placed[s.from], placed[s.to], pairs)
  {
    var e := EdgeOf(g.regions[s.from], s).value;
    var outer := g.regions[s.from].outer;
    var min, max :| CoversPadded(spec, placed[s.from], min, max) && IsBoundingBox(outer, |outer|, min, max);
    assert InBox(e.0, min, max) && InBox(e.1, min, max);
    forall q | q in pairs ensures q.far < Size(placed[s.to].grid) &&
      Local(placed[s.from], Lattice(placed[s.to], q.far)).Some? {
      FarCellIsCovered(spec, placed[s.from], placed[s.to], e.0, e.1, q, min, max);
    }
  }

  /** outSeams[r] lists exactly the seams that leave region r. */
  ghost predicate Sorted(g: RegionGraph, outSeams: seq<seq<nat>>, n: nat)
    requires n <= |g.seams|
  {
    && |outSeams| == |g.regions|
    && forall r, s: nat {:trigger s in outSeams[r]} :: 0 <= r < |outSeams| ==>
         (s in outSeams[r] <==> s < n && g.seams[s].from == r)
  }

  /** The least coordinates of the outer rings of the first n regions. */
  ghost predicate IsOrigin(g: RegionGraph, n: nat, origin: Point) {
    && n <= |g.regions|
    && (forall r, i :: 0 <= r < n && 0 <= i < |g.regions[r].outer| ==>
          origin.0 <= g.regions[r].outer[i].0 && origin.1 <= g.regions[r].outer[i].1)
    && (exists r :: 0 <= r < |g.regions| && HasX(g.regions[r].outer, origin.0))
    && exists r :: 0 <= r < |g.regions| && HasY(g.regions[r].outer, origin.1)
  }

  ghost predicate HasX(ring: Ring, x: real) {
    exists i :: 0 <= i < |ring| && ring[i].0 == x
  }

  ghost predicate HasY(ring: Ring, y: real) {
    exists i :: 0 <= i < |ring| && ring[i].1 == y
  }

  /** The lower left corner of all outer rings. */
  method OriginOf(g: RegionGraph) returns (origin: Point)
    requires ValidGraph(g)
    ensures IsOrigin(g, |g.regions|, origin)
  {
    assert ValidOutline(g.regions[0]);
    origin := g.regions[0].outer[0];
    assert HasX(g.regions[0].outer, origin.0) && HasY(g.regions[0].outer, origin.1);
    for k := 0 to |g.regions|
      invariant IsOrigin(g, k, origin)
    {
      assert ValidOutline(g.regions[k]);
      var min, max := BoundingBox(g.regions[k].outer);
      OriginOneMore(g, k, origin, min, max);
      origin := (Least(origin.0, min.0), Least(origin.1, min.1));
    }
  }

  lemma OriginOneMore(g: RegionGraph, k: nat, origin: Point, min: Point, max: Point)
    requires k < |g.regions| && IsOrigin(g, k, origin)
    requires IsBoundingBox(g.regions[k].outer, |g.regions[k].outer|, min, max)
    ensures IsOrigin(g, k + 1, (Least(origin.0, min.0), Least(origin.1, min.1)))
  {
    var ring := g.regions[k].outer;
    forall i | 0 <= i < |ring| ensures min.0 <= ring[i].0 && min.1 <= ring[i].1 {
      assert InBox(ring[i], min, max);
    }
    assert HasX(ring, min.0) && HasY(ring, min.1);
  }

  /** Region r's grid holds the speed at every cell's centre. */
  ghost predicate HoldsSpeeds(spec: GridSpec, grid: RegionGrid, r: nat, speedAt: (nat, Point) -> real) {
    forall c: nat :: c < Size(grid.grid) && c < |grid.grid.speed| ==>
      grid.grid.speed[c] == speedAt(r, CellCenter(spec, grid, c))
  }

  method PlaceRegions(
    spec: GridSpec, g: RegionGraph, speedAt: (nat, Point) -> real, root: real -> real)
    returns (placed: seq<RegionGrid>, ok: bool)
    requires spec.cellSize > 0.0 && ValidGraph(g) && Godunov.IsSquareRoot(root)
    ensures ok <==> forall r :: 0 <= r < |g.regions| ==> !TooLarge(spec, g.regions[r])
    ensures ok ==> |placed| == |g.regions| && forall r: nat :: r < |placed| ==> PlacedOver(spec, g, placed, r)
    ensures ok ==> forall r: nat :: r < |placed| ==> HoldsSpeeds(spec, placed[r], r, speedAt)
  {
    placed := [];
    for r := 0 to |g.regions|
      invariant |placed| == r && forall x: nat :: x < r ==> PlacedOver(spec, g, placed, x)
      invariant forall x: nat :: x < r ==> HoldsSpeeds(spec, placed[x], x, speedAt)
      invariant forall x :: 0 <= x < r ==> !TooLarge(spec, g.regions[x])
    {
      var grid, min, max := RegionGridOf(spec, g.regions[r], p => speedAt(r, p), root);
      if grid.None? {
        return placed, false;
      }
      ghost var before := placed;
      placed := placed + [grid.value];
      forall x: nat | x < r + 1 ensures PlacedOver(spec, g, placed, x) {
        assert x < r ==> PlacedOver(spec, g, before, x) && placed[x] == before[x];
      }
    }
    ok := true;
  }

  lemma SortedOneMore(g: RegionGraph, outSeams: seq<seq<nat>>, k: nat)
    requires k < |g.seams| && ValidSeam(g, g.seams[k]) && Sorted(g, outSeams, k)
    ensures var from := g.seams[k].from; Sorted(g, outSeams[from := outSeams[from] + [k]], k + 1)
  {
  }

  lemma OneMoreDone(spec: GridSpec, g: RegionGraph, placed: seq<RegionGrid>, seams: seq<Seam>, seam: Seam)
    requires spec.cellSize > 0.0 && |placed| == |g.regions|
    requires forall s {:trigger SeamDone(spec, g, placed, seams, s)} :: 0 <= s < |seams| ==>
               SeamDone(spec, g, placed, seams, s)
    requires |seams| < |g.seams| && ValidSeam(g, g.seams[|seams|])
    requires Rasterised(spec, g, placed, g.seams[|seams|], seam)
    requires AllValid(placed[g.seams[|seams|].from], placed[g.seams[|seams|].to], seam.pairs)
    ensures forall s {:trigger SeamDone(spec, g, placed, seams + [seam], s)} ::
              0 <= s < |seams| + 1 ==> SeamDone(spec, g, placed, seams + [seam], s)
  {
    forall s | 0 <= s < |seams| + 1 ensures SeamDone(spec, g, placed, seams + [seam], s) {
      assert s < |seams| ==> SeamDone(spec, g, placed, seams, s);
    }
  }

  method RasteriseAll(
    spec: GridSpec, g: RegionGraph, placed: seq<RegionGrid>) returns (seams: seq<Seam>, outSeams: seq<seq<nat>>)
    requires spec.cellSize > 0.0 && ValidGraph(g) && |placed| == |g.regions|
    requires forall r: nat :: r < |placed| ==> PlacedOver(spec, g, placed, r)
    ensures |seams| == |g.seams| && Sorted(g, outSeams, |g.seams|)
    ensures forall s {:trigger SeamDone(spec, g, placed, seams, s)} :: 0 <= s < |seams| ==>
              SeamDone(spec, g, placed, seams, s)
  {
    seams := [];
    outSeams := seq(|g.regions|, _ => []);
    for k := 0 to |g.seams|
      invariant |seams| == k && Sorted(g, outSeams, k)
      invariant forall s {:trigger SeamDone(spec, g, placed, seams, s)} :: 0 <= s < k ==>
                  SeamDone(spec, g, placed, seams, s)
    {
      var from := g.seams[k].from;
      assert ValidSeam(g, g.seams[k]);
      SortedOneMore(g, outSeams, k);
      outSeams := outSeams[from := outSeams[from] + [k]];
      var seam := Rasterise(spec, g, placed, g.seams[k]);
      OneMoreDone(spec, g, placed, seams, seam);
      seams := seams + [seam];
    }
  }

  /** Seam s has been rasterised. */
  ghost predicate SeamDone(spec: GridSpec, g: RegionGraph, placed: seq<RegionGrid>, seams: seq<Seam>, s: int)
    requires spec.cellSize > 0.0 && |placed| == |g.regions|
  {
    && 0 <= s < |g.seams| && s < |seams| && ValidSeam(g, g.seams[s])
    && Rasterised(spec, g, placed, g.seams[s], seams[s])
    && AllValid(placed[g.seams[s].from], placed[g.seams[s].to], seams[s].pairs)
  }

  /** Every region's grid lies over it and holds its speeds. */
  ghost predicate IsPlaced(spec: GridSpec, g: RegionGraph, placed: seq<RegionGrid>, speedAt: (nat, Point) -> real)
    requires spec.cellSize > 0.0
  {
    && |placed| == |g.regions|
    && forall r: nat :: r < |placed| ==> PlacedOver(spec, g, placed, r) && HoldsSpeeds(spec, placed[r], r, speedAt)
  }

  /** World w, with its grids so placed, is what the graph is built into. */
  ghost predicate IsBuilt(
    spec: GridSpec, g: RegionGraph, speedAt: (nat, Point) -> real, w: World, placed: seq<RegionGrid>)
  {
    && spec.cellSize > 0.0 && ValidGraph(g) && IsOrigin(g, |g.regions|, (spec.originX, spec.originY))
    && ValidWorld(w) && Places(w, placed)
    && |w.seams| == |g.seams| && Sorted(g, w.outSeams, |g.seams|)
    && IsPlaced(spec, g, placed, speedAt)
    && forall s :: 0 <= s < |g.seams| ==> SeamDone(spec, g, placed, w.seams, s)
  }

  /** Build the grids and seams of a checked graph. The result meets everything that solving a
      destination relies on. */
  method Build(g: RegionGraph, cellSize: real, wallInfluence: real, speedAt: (nat, Point) -> real, root: real -> real)
    returns (field: Option<(World, seq<RegionGrid>)>, ghost spec: GridSpec)
    requires Godunov.IsSquareRoot(root)
    ensures cellSize > 0.0 ==> spec.cellSize == cellSize
    ensures cellSize > 0.0 && ValidGraph(g) ==> IsOrigin(g, |g.regions|, (spec.originX, spec.originY))
    ensures field.Some? <==>
              ValidGraph(g) && cellSize > 0.0 && wallInfluence > 0.0 && forall r :: 0 <= r < |g.regions| ==>
                  !TooLarge(spec, g.regions[r])
    ensures field.Some? ==> IsBuilt(spec, g, speedAt, field.value.0, field.value.1)
  {
    spec := GridSpec(0.0, 0.0, if cellSize > 0.0 then cellSize else 1.0);
    var valid := ValidateGraph(g);
    if !valid || cellSize <= 0.0 {
      return None, spec;
    }
    var origin := OriginOf(g);
    var lattice := GridSpec(origin.0, origin.1, cellSize);
    spec := lattice;
    if wallInfluence <= 0.0 {
      return None, spec;
    }
    var placed, ok := PlaceRegions(lattice, g, speedAt, root);
    if !ok {
      return None, spec;
    }
    var seams, outSeams := RasteriseAll(lattice, g, placed);
    var grids := seq(|placed|, r requires 0 <= r < |placed| => placed[r].grid);
    var w := World(grids, seams, outSeams);
    BuiltIsValid(spec, g, placed, w);
    field := Some((w, placed));
  }

  lemma BuiltIsValid(spec: GridSpec, g: RegionGraph, placed: seq<RegionGrid>, w: World)
    requires spec.cellSize > 0.0 && ValidGraph(g) && |placed| == |g.regions| && Places(w, placed)
    requires forall r: nat :: r < |placed| ==> PlacedOver(spec, g, placed, r)
    requires |w.seams| == |g.seams| && Sorted(g, w.outSeams, |g.seams|)
    requires forall s {:trigger SeamDone(spec, g, placed, w.seams, s)} :: 0 <= s < |g.seams| ==>
               SeamDone(spec, g, placed, w.seams, s)
    ensures ValidWorld(w)
  {
    forall r | 0 <= r < |w.grids| ensures ValidGrid(w.grids[r]) {
      assert PlacedOver(spec, g, placed, r);
    }
    forall r, s | 0 <= r < |w.grids| && s in w.outSeams[r]
      ensures s < |w.seams| && w.seams[s].to < |w.grids| && w.seams[s].to != r
      ensures forall q :: q in w.seams[s].pairs ==> ValidPair(w.grids[r], w.grids[w.seams[s].to], q)
    {
      assert 0 <= s < |g.seams| && g.seams[s].from == r;
      SeamIsValid(spec, g, placed, w, s);
    }
  }

  lemma SeamIsValid(spec: GridSpec, g: RegionGraph, placed: seq<RegionGrid>, w: World, s: nat)
    requires spec.cellSize > 0.0 && |placed| == |g.regions| && Places(w, placed)
    requires SeamDone(spec, g, placed, w.seams, s)
    ensures g.seams[s].from < |w.grids|
    ensures s < |w.seams| && w.seams[s].to < |w.grids| && w.seams[s].to != g.seams[s].from
    ensures forall q :: q in w.seams[s].pairs ==>
              ValidPair(w.grids[g.seams[s].from], w.grids[w.seams[s].to], q)
  {
  }
}
