// Descending across seams: where the halo leads on, and where it does not (steepest_descent and the last
// phase of MultiRegionFloorfield::solve in libfloorfield/src/multi_region.rs).
module SeamDescent {
  import opened Wrappers
  import opened Times
  import opened Relaxation
  import opened FastSweeping
  import opened Propagation
  import opened SeedOrigins
  import opened Seams
  import opened Halo
  import opened Queries

  /** Cell h is the neighbour of cell c in direction d, an obstacle of region y's grid, and where region
      r's cell near lies. */
  ghost predicate HaloNeighbour(
    w: World, placed: seq<RegionGrid>, r: nat, near: nat, y: nat, c: nat, d: (int, int), h: nat)
    requires ValidWorld(w) && Places(w, placed)
  {
    && r < |w.grids| && near < Size(w.grids[r]) && y < |w.grids| && c < Size(w.grids[y])
    && d in NEIGHBOURS && NeighbourAt(w.grids[y], c, d) == Some(h)
    && !Walkable(w.grids[y], h) && Lattice(placed[y], h) == Lattice(placed[r], near)
  }

  /** Back across the seam there is a pair with q's near cell as its far cell, and that cell touches q's
      far cell from an obstacle cell of region y's grid. */
  ghost predicate Adjoins(w: World, placed: seq<RegionGrid>, r: nat, y: nat, q: Pair)
    requires ValidWorld(w) && Places(w, placed)
  {
    && (exists back: Pair :: Crosses(w, y, r, back) && back.far == q.near)
    && exists d, h :: HaloNeighbour(w, placed, r, q.near, y, q.far, d, h)
  }

  ghost predicate AllAdjoin(w: World, placed: seq<RegionGrid>)
    requires ValidWorld(w) && Places(w, placed)
  {
    forall r: nat, y: nat, q: Pair :: Crosses(w, r, y, q) ==> Adjoins(w, placed, r, y, q)
  }

  /** The halo holds, at such a neighbour, a time no later than the near cell's own. */
  lemma HaloHoldsNearTime(
    w: World, placed: seq<RegionGrid>, fields: seq<Option<Field>>, query: Field, halo: set<nat>, r: nat, y: nat,
    q: Pair, d: (int, int), h: nat)
    requires ValidWorld(w) && Places(w, placed) && PlainFields(w, fields)
    requires Crosses(w, r, y, q) && Adjoins(w, placed, r, y, q) && HaloNeighbour(w, placed, r, q.near, y, q.far, d, h)
    requires fields[r].Some? && fields[y].Some? && HasHalo(w, placed, fields, y, Some(query), halo)
    ensures h < |query| && Le(query[h], fields[r].value[q.near])
  {
    var back: Pair :| Crosses(w, y, r, back) && back.far == q.near;
    var wr := Write(Lattice(placed[r], back.far), fields[r].value[back.far]);
    assert Offers(w, placed, fields, y, r, back, wr);
    assert CallsFor(w, placed, fields, y, wr);
    LocalLatticeInverse(placed[y], wr.lattice, h);
    var writes: set<Write> :| AreWritesOf(w, placed, fields, y, writes) &&
      Written(placed[y], fields[y].value, writes, query, halo);
    assert CellWritten(placed[y], fields[y].value, writes, query, halo, h);
  }

  /** At a cell that holds a seed carried across such a pair, the halo leads on. */
  lemma DownhillAcross(
    w: World, placed: seq<RegionGrid>, dest: seq<seq<nat>>, s: Solution, fields: seq<Option<Field>>,
    seeds: seq<Seeds>, r: nat, y: nat, q: Pair, c: nat) returns (d: (int, int))
    requires ValidWorld(w) && ValidDestination(w, dest) && Places(w, placed)
    requires IsSolution(w, placed, dest, s, fields, seeds)
    requires y < |w.grids| && s.query[y].Some? && c < |s.query[y].value| == Size(w.grids[y])
    requires c in seeds[y] && s.query[y].value[c] == Fin(seeds[y][c])
    requires Accounts(w, Labels(fields, seeds), r, y, q, c) && ValidPair(w.grids[r], w.grids[y], q) &&
               Adjoins(w, placed, r, y, q)
    ensures d in NEIGHBOURS && Downhill(w.grids[y], s.query[y].value, c, d)
  {
    var e, h :| HaloNeighbour(w, placed, r, q.near, y, q.far, e, h);
    HaloHoldsNearTime(w, placed, fields, s.query[y].value, s.halo[y], r, y, q, e, h);
    d := e;
  }

  /** If all pairs of the world adjoin, some direction leads downhill from every reached walkable cell
      outside the destination. */
  lemma AlwaysDownhill(
    w: World, placed: seq<RegionGrid>, dest: seq<seq<nat>>, s: Solution, fields: seq<Option<Field>>,
    seeds: seq<Seeds>, y: nat, c: nat) returns (d: (int, int))
    requires ValidWorld(w) && ValidDestination(w, dest) && Places(w, placed) && AllAdjoin(w, placed)
    requires IsSolution(w, placed, dest, s, fields, seeds)
    requires y < |w.grids| && s.query[y].Some? && c < |s.query[y].value| == Size(w.grids[y])
    requires Walkable(w.grids[y], c) && s.query[y].value[c].Fin? && c !in dest[y]
    ensures d in NEIGHBOURS && Downhill(w.grids[y], s.query[y].value, c, d)
  {
    if c in seeds[y] && s.query[y].value[c] == Fin(seeds[y][c]) {
      var l := Labels(fields, seeds);
      assert Accounted(w, l, y, c);
      var r: nat, q: Pair :| Accounts(w, l, r, y, q, c);
      CrossingFits(w, r, y, q);
      d := DownhillAcross(w, placed, dest, s, fields, seeds, r, y, q, c);
    } else {
      d := DownhillExists(w, placed, dest, s, fields, seeds, y, c);
    }
  }

  lemma CrossingFits(w: World, r: nat, y: nat, q: Pair)
    requires ValidWorld(w) && Crosses(w, r, y, q)
    ensures r < |w.grids| && y < |w.grids| && ValidPair(w.grids[r], w.grids[y], q)
  {
  }

  /** So steepest descent finds a direction there. */
  lemma DescentNeverStuck(
    w: World, placed: seq<RegionGrid>, dest: seq<seq<nat>>, s: Solution, fields: seq<Option<Field>>,
    seeds: seq<Seeds>, y: nat, c: nat, best: Option<(int, int)>)
    requires ValidWorld(w) && ValidDestination(w, dest) && Places(w, placed) && AllAdjoin(w, placed)
    requires IsSolution(w, placed, dest, s, fields, seeds)
    requires y < |w.grids| && s.query[y].Some? && c < |s.query[y].value| == Size(w.grids[y])
    requires Walkable(w.grids[y], c) && s.query[y].value[c].Fin? && c !in dest[y]
    requires ValidDirections(w.grids[y], NEIGHBOURS)
    requires Steepest(w.grids[y], s.query[y].value, c, NEIGHBOURS, |NEIGHBOURS|, best)
    ensures best.Some?
  {
    var d := AlwaysDownhill(w, placed, dest, s, fields, seeds, y, c);
    var i :| 0 <= i < |NEIGHBOURS| && NEIGHBOURS[i] == d;
  }

  // ---- All the way to the destination ----

  /** A cell of a region. */
  datatype Spot = Spot(region: nat, cell: nat)

  /** The spot is a walkable cell, and its stored time is finite. */
  ghost predicate IsReached(w: World, s: Solution, a: Spot) {
    && a.region < |w.grids| && a.region < |s.query| && s.query[a.region].Some?
    && a.cell < |s.query[a.region].value| == Size(w.grids[a.region])
    && Walkable(w.grids[a.region], a.cell) && s.query[a.region].value[a.cell].Fin?
  }

  ghost function TimeAt(w: World, s: Solution, a: Spot): Time
    requires IsReached(w, s, a)
  {
    s.query[a.region].value[a.cell]
  }

  /** From spot a, the neighbour in direction d is earlier: b if that is walkable; if it is in the halo, b is
      where it lies in a region across a seam, at the very time that the halo holds. */
  ghost predicate StepsTo(w: World, placed: seq<RegionGrid>, s: Solution, a: Spot, d: (int, int), n: nat, b: Spot)
    requires ValidWorld(w) && Places(w, placed)
  {
    && IsReached(w, s, a) && IsReached(w, s, b)
    && d in NEIGHBOURS && NeighbourAt(w.grids[a.region], a.cell, d) == Some(n)
    && Lt(s.query[a.region].value[n], TimeAt(w, s, a)) && TimeAt(w, s, b) == s.query[a.region].value[n]
    && if Walkable(w.grids[a.region], n) then
         b == Spot(a.region, n)
       else
         && (exists q: Pair :: Crosses(w, a.region, b.region, q) && q.far == b.cell)
         && Lattice(placed[b.region], b.cell) == Lattice(placed[a.region], n)
  }

  ghost predicate StepsDown(w: World, placed: seq<RegionGrid>, s: Solution, a: Spot, b: Spot)
    requires ValidWorld(w) && Places(w, placed)
  {
    exists d, n :: StepsTo(w, placed, s, a, d, n, b)
  }

  /** Every region has its halo. */
  ghost predicate HaveHalos(w: World, placed: seq<RegionGrid>, fields: seq<Option<Field>>, s: Solution)
    requires ValidWorld(w) && Places(w, placed) && PlainFields(w, fields)
  {
    && |s.query| == |s.halo| == |w.grids|
    && forall r :: 0 <= r < |w.grids| ==> HasHalo(w, placed, fields, r, s.query[r], s.halo[r])
  }

  /** A halo cell's time is that of a walkable cell across a seam, in the same place. */
  lemma HaloIsAcross(
    w: World, placed: seq<RegionGrid>, fields: seq<Option<Field>>, s: Solution, r: nat, n: nat)
    returns (b: Spot, q: Pair)
    requires ValidWorld(w) && Places(w, placed) && PlainFields(w, fields) && HaveHalos(w, placed, fields, s)
    requires r < |w.grids| && s.query[r].Some? && n < |s.query[r].value| == Size(w.grids[r])
    requires !Walkable(w.grids[r], n) && s.query[r].value[n].Fin?
    ensures IsReached(w, s, b) && TimeAt(w, s, b) == s.query[r].value[n]
    ensures Crosses(w, r, b.region, q) && q.far == b.cell
    ensures Lattice(placed[b.region], b.cell) == Lattice(placed[r], n)
  {
    assert HasHalo(w, placed, fields, r, s.query[r], s.halo[r]);
    var writes: set<Write> :| AreWritesOf(w, placed, fields, r, writes) &&
      Written(placed[r], fields[r].value, writes, s.query[r].value, s.halo[r]);
    assert CellWritten(placed[r], fields[r].value, writes, s.query[r].value, s.halo[r], n);
    var wr :| wr in writes && Local(placed[r], wr.lattice) == Some(n) && s.query[r].value[n] == wr.value;
    assert CallsFor(w, placed, fields, r, wr);
    var y: nat, p: Pair :| Offers(w, placed, fields, r, y, p, wr);
    b, q := Spot(y, p.far), p;
    CrossingFits(w, r, y, q);
    LocalLatticeInverse(placed[r], wr.lattice, n);
    assert HasHalo(w, placed, fields, y, s.query[y], s.halo[y]);
    HaloAgreesOnWalkable(w, placed, fields, y, s.query[y].value, s.halo[y]);
  }

  /** Every direction that leads downhill is a step down. */
  lemma StepAlong(
    w: World, placed: seq<RegionGrid>, fields: seq<Option<Field>>, s: Solution, a: Spot, d: (int, int))
    returns (b: Spot)
    requires ValidWorld(w) && Places(w, placed) && PlainFields(w, fields) && HaveHalos(w, placed, fields, s)
    requires IsReached(w, s, a) && d in NEIGHBOURS
    requires Downhill(w.grids[a.region], s.query[a.region].value, a.cell, d)
    ensures StepsDown(w, placed, s, a, b)
  {
    var n := NeighbourAt(w.grids[a.region], a.cell, d).value;
    if Walkable(w.grids[a.region], n) {
      b := Spot(a.region, n);
    } else {
      var q;
      b, q := HaloIsAcross(w, placed, fields, s, a.region, n);
    }
    assert StepsTo(w, placed, s, a, d, n, b);
  }

  /** If all pairs of the world adjoin, a step down can be taken from every reached spot outside the
      destination. */
  lemma StepExists(
    w: World, placed: seq<RegionGrid>, dest: seq<seq<nat>>, s: Solution, fields: seq<Option<Field>>,
    seeds: seq<Seeds>, a: Spot) returns (b: Spot)
    requires ValidWorld(w) && ValidDestination(w, dest) && Places(w, placed) && AllAdjoin(w, placed)
    requires IsSolution(w, placed, dest, s, fields, seeds)
    requires IsReached(w, s, a) && a.cell !in dest[a.region]
    ensures StepsDown(w, placed, s, a, b)
  {
    var d := AlwaysDownhill(w, placed, dest, s, fields, seeds, a.region, a.cell);
    b := StepAlong(w, placed, fields, s, a, d);
  }

  /** A walk from spot to spot, each step down. */
  ghost predicate Descent(w: World, placed: seq<RegionGrid>, s: Solution, path: seq<Spot>)
    requires ValidWorld(w) && Places(w, placed)
  {
    && path != [] && IsReached(w, s, path[0])
    && forall i {:trigger StepAt(w, placed, s, path, i)} :: 0 <= i < |path| - 1 ==> StepAt(w, placed, s, path, i)
  }

  ghost predicate StepAt(w: World, placed: seq<RegionGrid>, s: Solution, path: seq<Spot>, i: int)
    requires ValidWorld(w) && Places(w, placed) && 0 <= i < |path| - 1
  {
    StepsDown(w, placed, s, path[i], path[i + 1])
  }

  /** All spots earlier than t. */
  ghost function EarlierSpots(s: Solution, t: Time): set<Spot> {
    set r, c | 0 <= r < |s.query| && s.query[r].Some? && 0 <= c < |s.query[r].value| && Lt(s.query[r].value[c], t) ::
      Spot(r, c)
  }

  lemma FewerEarlier(w: World, placed: seq<RegionGrid>, s: Solution, a: Spot, b: Spot)
    requires ValidWorld(w) && Places(w, placed) && StepsDown(w, placed, s, a, b)
    ensures IsReached(w, s, a) && IsReached(w, s, b) && Lt(TimeAt(w, s, b), TimeAt(w, s, a))
    ensures |EarlierSpots(s, TimeAt(w, s, b))| < |EarlierSpots(s, TimeAt(w, s, a))|
  {
    var fewer, more := EarlierSpots(s, TimeAt(w, s, b)), EarlierSpots(s, TimeAt(w, s, a));
    assert b in more && b !in fewer;
    assert fewer <= more;
    CardinalityOfSubset(fewer, more);
  }

  lemma DescentOn(w: World, placed: seq<RegionGrid>, s: Solution, path: seq<Spot>, b: Spot)
    requires ValidWorld(w) && Places(w, placed) && Descent(w, placed, s, path)
    requires StepsDown(w, placed, s, path[|path| - 1], b)
    ensures Descent(w, placed, s, path + [b])
  {
    var p := path + [b];
    forall i | 0 <= i < |p| - 1 ensures StepAt(w, placed, s, p, i) {
      assert i < |path| - 1 ==> StepAt(w, placed, s, path, i);
    }
  }

  /** If all pairs of the world adjoin, steps down lead from every reached spot into the destination, across
      as many seams as it takes. */
  lemma DescentReachesDestination(
    w: World, placed: seq<RegionGrid>, dest: seq<seq<nat>>, s: Solution, fields: seq<Option<Field>>,
    seeds: seq<Seeds>, a: Spot) returns (path: seq<Spot>)
    requires ValidWorld(w) && ValidDestination(w, dest) && Places(w, placed) && AllAdjoin(w, placed)
    requires IsSolution(w, placed, dest, s, fields, seeds) && IsReached(w, s, a)
    ensures Descent(w, placed, s, path) && path[0] == a
    ensures var end := path[|path| - 1]; end.region < |dest| && end.cell in dest[end.region]
  {
    var b := a;
    path := [a];
    while b.cell !in dest[b.region]
      invariant Descent(w, placed, s, path) && path[0] == a && path[|path| - 1] == b && IsReached(w, s, b)
      decreases |EarlierSpots(s, TimeAt(w, s, b))|
    {
      var c := StepExists(w, placed, dest, s, fields, seeds, b);
      FewerEarlier(w, placed, s, b, c);
      DescentOn(w, placed, s, path, c);
      b, path := c, path + [c];
    }
  }

  /** Whichever steps down are taken, there are no more of them than spots earlier than the first: no
      descent goes on for ever, and by `StepExists` it can only end in the destination. */
  lemma AnyDescentEnds(w: World, placed: seq<RegionGrid>, s: Solution, path: seq<Spot>)
    requires ValidWorld(w) && Places(w, placed) && Descent(w, placed, s, path)
    ensures |path| - 1 <= |EarlierSpots(s, TimeAt(w, s, path[0]))|
  {
    var n := |path| - 1;
    for i := 0 to n
      invariant IsReached(w, s, path[i])
      invariant i + |EarlierSpots(s, TimeAt(w, s, path[i]))| <= |EarlierSpots(s, TimeAt(w, s, path[0]))|
    {
      assert StepAt(w, placed, s, path, i);
      FewerEarlier(w, placed, s, path[i], path[i + 1]);
    }
  }
}
