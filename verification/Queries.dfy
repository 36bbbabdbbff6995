// A destination solved from end to end, and what its queries can rely on: steepest_descent,
// travel_time and the engine's exact-zero test (libfloorfield/src/multi_region.rs,
// libsimulator/src/floorfield_routing_engine.cpp).
module Queries {
  import opened Wrappers
  import opened Reals
  import opened Cells
  import opened Times
  import opened Relaxation
  import opened FastSweeping
  import opened TravelTimes
  import opened Propagation
  import opened SeedOrigins
  import opened Seams
  import opened Halo

  datatype Solution = Solution(query: seq<Option<Field>>, halo: seq<set<nat>>)

  /** A stored solution: converged fields, each with its halo. */
  ghost predicate IsSolution(
    w: World, placed: seq<RegionGrid>, dest: seq<seq<nat>>, s: Solution, fields: seq<Option<Field>>,
    seeds: seq<Seeds>)
    requires ValidWorld(w) && ValidDestination(w, dest) && Places(w, placed)
  {
    && Converges(w, dest, fields, seeds) && Originated(w, dest, Labels(fields, seeds))
    && PlainFields(w, fields)
    && |s.query| == |s.halo| == |w.grids|
    && forall r :: 0 <= r < |w.grids| ==> HasHalo(w, placed, fields, r, s.query[r], s.halo[r])
  }

  /** The solution that some fields and seeds amount to. */
  ghost predicate SolvedBySome(w: World, placed: seq<RegionGrid>, dest: seq<seq<nat>>, s: Solution)
    requires ValidWorld(w) && ValidDestination(w, dest) && Places(w, placed)
  {
    exists fields, seeds :: IsSolution(w, placed, dest, s, fields, seeds)
  }

  lemma SolvedByThese(
    w: World, placed: seq<RegionGrid>, dest: seq<seq<nat>>, s: Solution, fields: seq<Option<Field>>,
    seeds: seq<Seeds>)
    requires ValidWorld(w) && ValidDestination(w, dest) && Places(w, placed) &&
               IsSolution(w, placed, dest, s, fields, seeds)
    ensures SolvedBySome(w, placed, dest, s)
  {
  }

  method Solve(w: World, placed: seq<RegionGrid>, dest: seq<seq<nat>>)
    returns (solution: Option<Solution>, ghost fields: seq<Option<Field>>, ghost seeds: seq<Seeds>)
    requires ValidWorld(w) && ValidDestination(w, dest) && Places(w, placed)
    ensures solution.Some? ==> IsSolution(w, placed, dest, solution.value, fields, seeds)
    ensures solution.Some? ==> SolvedBySome(w, placed, dest, solution.value)
    ensures solution.None? ==> Exhausted(w, dest)
  {
    var result;
    ghost var states, order;
    result, seeds, states, order := Propagate(w, dest);
    if result.NotConverged? {
      assert IsRun(w, dest, states, order) && |order| == Budget(w) && !Clean(states[|order|]);
      return None, [], seeds;
    }
    fields := result.fields;
    RunAccounts(w, dest, states, order, |order|);
    ConvergedFieldsArePlain(w, dest, result.fields, seeds);
    var query, halo := WriteHalos(w, placed, result.fields);
    solution := Some(Solution(query, halo));
    SolvedByThese(w, placed, dest, solution.value, fields, seeds);
  }

  /** The stored time of a walkable cell, 0 exactly at the destination's source cells: the exact
      comparison with zero that decides whether an agent is there cannot misfire. */
  lemma ZeroTimeIffSource(
    w: World, placed: seq<RegionGrid>, dest: seq<seq<nat>>, s: Solution, fields: seq<Option<Field>>,
    seeds: seq<Seeds>, r: nat, c: nat)
    requires ValidWorld(w) && ValidDestination(w, dest) && Places(w, placed)
    requires IsSolution(w, placed, dest, s, fields, seeds)
    requires r < |w.grids| && c < Size(w.grids[r]) && Walkable(w.grids[r], c)
    ensures s.query[r].Some? ==> |s.query[r].value| == Size(w.grids[r])
    ensures (s.query[r].Some? && s.query[r].value[c] == Fin(0.0)) <==> c in dest[r]
  {
    var v := TimesOf(w, fields);
    assert v[r][c] == Fin(0.0) <==> c in dest[r];
    if fields[r].Some? {
      HaloAgreesOnWalkable(w, placed, fields, r, s.query[r].value, s.halo[r]);
    }
  }

  // ---- Steepest descent ----

  const NEIGHBOURS: seq<(int, int)> := [(-1, -1), (-1, 0), (-1, 1), (0, -1), (0, 1), (1, -1), (1, 0), (1, 1)]

  /** The cell at offset `d` (rows, columns) from cell c, if it is on the grid. */
  function NeighbourAt(g: Grid, c: nat, d: (int, int)): (n: Option<nat>)
    requires c < Size(g)
    ensures n.Some? ==> n.value < Size(g)
  {
    CellOfRowCol(g.width, g.height, c);
    var i, j := Row(g.width, c) + d.0, Col(g.width, c) + d.1;
    if 0 <= i < g.height && 0 <= j < g.width then
      InGrid(g.width, g.height, i, j);
      Some(Cell(g.width, i, j))
    else
      None
  }

  /** Offsets count rows and columns. */
  lemma NeighbourIsThere(g: Grid, c: nat, d: (int, int), n: nat)
    requires c < Size(g)
    ensures g.width > 0
    ensures NeighbourAt(g, c, d) == Some(n) <==>
              n < Size(g) && Row(g.width, n) == Row(g.width, c) + d.0 && Col(g.width, n) == Col(g.width, c) + d.1
  {
    CellOfRowCol(g.width, g.height, c);
    IsCellAt(g, Row(g.width, c) + d.0, Col(g.width, c) + d.1, n);
  }

  lemma IsCellAt(g: Grid, i: int, j: int, n: nat)
    requires g.width > 0
    ensures (0 <= i < g.height && 0 <= j < g.width && n == Cell(g.width, i, j)) <==>
              (n < Size(g) && Row(g.width, n) == i && Col(g.width, n) == j)
  {
    if 0 <= i < g.height && 0 <= j < g.width {
      InGrid(g.width, g.height, i, j);
      RowColOfCell(g.width, i, j);
    }
    if n < Size(g) {
      CellOfRowCol(g.width, g.height, n);
    }
  }

  function NormSquared(d: (int, int)): int {
    d.0 * d.0 + d.1 * d.1
  }

  /** Distance to the neighbour at offset d, in cells. */
  function Norm(g: Grid, d: (int, int)): real {
    g.root(NormSquared(d) as real)
  }

  lemma NormIsPositive(g: Grid, d: (int, int))
    requires ValidGrid(g) && d in NEIGHBOURS
    ensures Norm(g, d) > 0.0
  {
    assert NormSquared(d) == 1 || NormSquared(d) == 2;
    var x := NormSquared(d) as real;
    assert g.root(x) >= 0.0 && g.root(x) * g.root(x) == x;
  }

  /** How fast the travel time drops towards a neighbour; 0 if it does not drop. */
  function Rate(g: Grid, query: Field, c: nat, d: (int, int)): real
    requires ValidGrid(g) && |query| == Size(g) && c < Size(g) && query[c].Fin? && Norm(g, d) > 0.0
  {
    var n := NeighbourAt(g, c, d);
    if n.Some? && query[n.value].Fin? && query[n.value].t < query[c].t then
      (query[c].t - query[n.value].t) / Norm(g, d)
    else
      0.0
  }

  /** A direction in which the stored time strictly drops. */
  ghost predicate Downhill(g: Grid, query: Field, c: nat, d: (int, int))
    requires |query| == Size(g) && c < Size(g)
  {
    var n := NeighbourAt(g, c, d);
    n.Some? && Lt(query[n.value], query[c])
  }

  lemma RatePositiveIffDownhill(g: Grid, query: Field, c: nat, d: (int, int))
    requires ValidGrid(g) && |query| == Size(g) && c < Size(g) && query[c].Fin? && Norm(g, d) > 0.0
    ensures Rate(g, query, c, d) >= 0.0
    ensures Rate(g, query, c, d) > 0.0 <==> Downhill(g, query, c, d)
  {
    if Downhill(g, query, c, d) {
      Quotient(query[c].t - query[NeighbourAt(g, c, d).value].t, Norm(g, d));
    }
  }

  lemma Quotient(x: real, y: real)
    requires x > 0.0 && y > 0.0
    ensures x / y > 0.0
  {
  }

  ghost predicate ValidDirections(g: Grid, around: seq<(int, int)>) {
    forall i :: 0 <= i < |around| ==> Norm(g, around[i]) > 0.0
  }

  /** Along direction m the time drops faster than along any direction before it, and at least as
      fast as along the others of the first k. */
  ghost predicate SteepestAt(g: Grid, query: Field, c: nat, around: seq<(int, int)>, k: nat, m: nat)
    requires ValidGrid(g) && |query| == Size(g) && c < Size(g) && query[c].Fin?
    requires ValidDirections(g, around) && k <= |around|
  {
    && m < k && Downhill(g, query, c, around[m])
    && forall i :: 0 <= i < k ==>
         && Rate(g, query, c, around[i]) <= Rate(g, query, c, around[m])
         && (i < m ==> Rate(g, query, c, around[i]) < Rate(g, query, c, around[m]))
  }

  /** The steepest of the first k directions, the first of several; none if all of them are level or
      uphill. */
  ghost predicate Steepest(g: Grid, query: Field, c: nat, around: seq<(int, int)>, k: nat, best: Option<(int, int)>)
    requires ValidGrid(g) && |query| == Size(g) && c < Size(g) && query[c].Fin?
    requires ValidDirections(g, around) && k <= |around|
  {
    if best.None? then
      forall i :: 0 <= i < k ==> !Downhill(g, query, c, around[i])
    else
      exists m: nat :: m < k && around[m] == best.value && SteepestAt(g, query, c, around, k, m)
  }

  lemma SteepestStep(
    g: Grid, query: Field, c: nat, around: seq<(int, int)>, k: nat, best: Option<(int, int)>,
    best': Option<(int, int)>)
    requires ValidGrid(g) && |query| == Size(g) && c < Size(g) && query[c].Fin?
    requires ValidDirections(g, around) && k < |around|
    requires Steepest(g, query, c, around, k, best)
    requires var rate := Rate(g, query, c, around[k]);
             best' == if rate > 0.0 && (best.None? || rate > Rate(g, query, c, best.value)) then Some(around[k])
               else best
    ensures Steepest(g, query, c, around, k + 1, best')
  {
    forall i | 0 <= i <= k
      ensures Rate(g, query, c, around[i]) >= 0.0 &&
                (Rate(g, query, c, around[i]) > 0.0 <==> Downhill(g, query, c, around[i]))
    {
      RatePositiveIffDownhill(g, query, c, around[i]);
    }
    if best.Some? {
      var m: nat :| m < k && around[m] == best.value && SteepestAt(g, query, c, around, k, m);
      assert SteepestAt(g, query, c, around, k + 1, if best' == best then m else k);
    } else if best'.Some? {
      assert SteepestAt(g, query, c, around, k + 1, k);
    }
  }

  /** By how much the stored time drops in that direction. */
  ghost function Drop(g: Grid, query: Field, c: nat, d: (int, int)): real
    requires |query| == Size(g) && c < Size(g) && query[c].Fin? && Downhill(g, query, c, d)
  {
    query[c].t - query[NeighbourAt(g, c, d).value].t
  }

  /** The square of the distance to a neighbour, in cells. */
  ghost function Apart(d: (int, int)): real {
    Square(d.0 as real) + Square(d.1 as real)
  }

  /** Rates compare as drops per distance do: here squared and multiplied out. */
  lemma RatesCompare(g: Grid, query: Field, c: nat, d: (int, int), e: (int, int))
    requires ValidGrid(g) && |query| == Size(g) && c < Size(g) && query[c].Fin? && Norm(g, d) > 0.0 && Norm(g, e) > 0.0
    requires Downhill(g, query, c, d) && Downhill(g, query, c, e)
    ensures Rate(g, query, c, e) <= Rate(g, query, c, d) <==>
              Scale(Square(Drop(g, query, c, e)), Apart(d)) <= Scale(Square(Drop(g, query, c, d)), Apart(e))
  {
    NormIsDistance(g, d);
    NormIsDistance(g, e);
    QuotientsCompare(Drop(g, query, c, e), Norm(g, e), Drop(g, query, c, d), Norm(g, d));
    ProductsCompare(Drop(g, query, c, e), Norm(g, d), Drop(g, query, c, d), Norm(g, e));
  }

  lemma NormIsDistance(g: Grid, d: (int, int))
    requires ValidGrid(g)
    ensures Square(Norm(g, d)) == Apart(d)
  {
    var x, y := d.0 as real, d.1 as real;
    SquarePositive(x);
    SquarePositive(y);
    assert NormSquared(d) as real == Square(x) + Square(y);
  }

  lemma ProductsCompare(y: real, m: real, x: real, n: real)
    requires x > 0.0 && y > 0.0 && m > 0.0 && n > 0.0
    ensures Scale(y, m) <= Scale(x, n) <==> Scale(Square(y), Square(m)) <= Scale(Square(x), Square(n))
  {
    Signs(x, n);
    Signs(y, m);
    if Scale(y, m) <= Scale(x, n) {
      SquareMonotone(Scale(y, m), Scale(x, n));
    } else {
      SquareMonotone(Scale(x, n), Scale(y, m));
    }
    ProductSquared(y, m);
    ProductSquared(x, n);
  }

  lemma ProductSquared(x: real, y: real)
    ensures Square(Scale(x, y)) == Scale(Square(x), Square(y))
  {
    assert (x * y) * (x * y) == (x * x) * (y * y);
  }

  lemma QuotientsCompare(y: real, n: real, x: real, m: real)
    requires m > 0.0 && n > 0.0
    ensures y / n <= x / m <==> Scale(y, m) <= Scale(x, n)
  {
    QuotientTimes(y, n);
    QuotientTimes(x, m);
    var p, q := y / n, x / m;
    var k := Scale(m, n);
    Signs(m, n);
    assert Scale(y, m) == Scale(k, p) && Scale(x, n) == Scale(k, q) by {
      ScaleTwice(m, n, p);
      ScaleTwice(n, m, q);
      assert Scale(n, m) == k;
    }
    Signs(k, q - p);
    Signs(k, p - q);
    assert Scale(k, q - p) == Scale(k, q) - Scale(k, p) && Scale(k, p - q) == Scale(k, p) - Scale(k, q);
  }

  /** The steepest direction is the one with the greatest drop per distance, the first of several. */
  lemma SteepestPerDistance(g: Grid, query: Field, c: nat, k: nat, m: nat, i: nat)
    requires ValidGrid(g) && |query| == Size(g) && c < Size(g) && query[c].Fin?
    requires ValidDirections(g, NEIGHBOURS) && k <= |NEIGHBOURS| && SteepestAt(g, query, c, NEIGHBOURS, k, m)
    requires i < k && Downhill(g, query, c, NEIGHBOURS[i])
    ensures var d, e := NEIGHBOURS[m], NEIGHBOURS[i];
            && Scale(Square(Drop(g, query, c, e)), Apart(d)) <= Scale(Square(Drop(g, query, c, d)), Apart(e))
            && (i < m ==> Scale(Square(Drop(g, query, c, e)), Apart(d)) < Scale(Square(Drop(g, query, c, d)), Apart(e)))
  {
    var d, e := NEIGHBOURS[m], NEIGHBOURS[i];
    assert d in NEIGHBOURS && e in NEIGHBOURS;
    RatesCompare(g, query, c, d, e);
    RatesCompare(g, query, c, e, d);
  }

  /** There is only one such direction. */
  lemma SteepestIsUnique(
    g: Grid, query: Field, c: nat, around: seq<(int, int)>, k: nat, a: Option<(int, int)>, b: Option<(int, int)>)
    requires ValidGrid(g) && |query| == Size(g) && c < Size(g) && query[c].Fin?
    requires ValidDirections(g, around) && k <= |around|
    requires Steepest(g, query, c, around, k, a) && Steepest(g, query, c, around, k, b)
    ensures a == b
  {
    if a.Some? && b.Some? {
      var m: nat :| m < k && around[m] == a.value && SteepestAt(g, query, c, around, k, m);
      var n: nat :| n < k && around[n] == b.value && SteepestAt(g, query, c, around, k, n);
    }
  }

  /** The direction of the greatest rate; none if nothing around is earlier. */
  method SteepestAmong(g: Grid, query: Field, c: nat, around: seq<(int, int)>) returns (best: Option<(int, int)>)
    requires ValidGrid(g) && |query| == Size(g) && c < Size(g) && query[c].Fin?
    requires ValidDirections(g, around)
    ensures Steepest(g, query, c, around, |around|, best)
    ensures best.None? <==> forall d :: d in around ==> !Downhill(g, query, c, d)
  {
    best := None;
    for k := 0 to |around|
      invariant Steepest(g, query, c, around, k, best)
    {
      ghost var before := best;
      var rate := Rate(g, query, c, around[k]);
      if rate > 0.0 && (best.None? || rate > Rate(g, query, c, best.value)) {
        best := Some(around[k]);
      }
      SteepestStep(g, query, c, around, k, before, best);
    }
  }

  lemma NeighboursAreValid(g: Grid)
    requires ValidGrid(g)
    ensures ValidDirections(g, NEIGHBOURS)
  {
    forall i | 0 <= i < |NEIGHBOURS| ensures Norm(g, NEIGHBOURS[i]) > 0.0 {
      NormIsPositive(g, NEIGHBOURS[i]);
    }
  }

  /** Over the eight-neighbourhood. */
  method SteepestDescent(g: Grid, query: Field, c: nat) returns (best: Option<(int, int)>)
    requires ValidGrid(g) && |query| == Size(g) && c < Size(g) && query[c].Fin?
    ensures ValidDirections(g, NEIGHBOURS) && Steepest(g, query, c, NEIGHBOURS, |NEIGHBOURS|, best)
    ensures best.None? <==> forall d :: d in NEIGHBOURS ==> !Downhill(g, query, c, d)
  {
    NeighboursAreValid(g);
    best := SteepestAmong(g, query, c, NEIGHBOURS);
  }

  /** The four direct neighbours are among the eight. */
  lemma DirectNeighbourDirection(g: Grid, c: nat, n: nat) returns (d: (int, int))
    requires c < Size(g) && n < Size(g) && Neighbors(g, c, n)
    ensures d in NEIGHBOURS && NeighbourAt(g, c, d) == Some(n)
  {
    CellOfRowCol(g.width, g.height, c);
    var i, j := Row(g.width, c), Col(g.width, c);
    if j > 0 && n == Cell(g.width, i, j - 1) {
      d := NEIGHBOURS[3];
    } else if j + 1 < g.width && n == Cell(g.width, i, j + 1) {
      d := NEIGHBOURS[4];
    } else if i > 0 && n == Cell(g.width, i - 1, j) {
      d := NEIGHBOURS[1];
    } else {
      d := NEIGHBOURS[6];
    }
  }

  /** No spurious minima: at a reached walkable cell that does not hold its own seed, some
      direction leads downhill, with or without the halo. Hence `SteepestDescent` finds one. */
  lemma DownhillExists(
    w: World, placed: seq<RegionGrid>, dest: seq<seq<nat>>, s: Solution, fields: seq<Option<Field>>,
    seeds: seq<Seeds>, r: nat, c: nat) returns (d: (int, int))
    requires ValidWorld(w) && ValidDestination(w, dest) && Places(w, placed)
    requires IsSolution(w, placed, dest, s, fields, seeds)
    requires r < |w.grids| && s.query[r].Some? && c < |s.query[r].value| == Size(w.grids[r])
    requires Walkable(w.grids[r], c) && s.query[r].value[c].Fin?
    requires c !in seeds[r] || s.query[r].value[c] != Fin(seeds[r][c])
    ensures d in NEIGHBOURS && Downhill(w.grids[r], s.query[r].value, c, d)
  {
    var g := w.grids[r];
    var v := TimesOf(w, fields);
    HaloAgreesOnWalkable(w, placed, fields, r, s.query[r].value, s.halo[r]);
    var n := EarlierNeighbor(g, SeedField(g, seeds[r]), v[r], c);
    assert Walkable(g, n);
    d := DirectNeighbourDirection(g, c, n);
  }
}
