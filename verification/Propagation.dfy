// Label-correcting propagation of travel times over regions joined by seams
// (MultiRegionFloorfield::solve in libfloorfield/src/multi_region.rs).
module Propagation {
  import opened Wrappers
  import opened Times
  import opened Relaxation
  import opened FastSweeping
  import opened TravelTimes

  /** Two cells on either side of a seam, and how long the way between their centres takes. */
  datatype Pair = Pair(near: nat, far: nat, cross: real)

  /** A rasterised seam; the region it leaves from is the one whose `outSeams` list it. */
  datatype Seam = Seam(to: nat, pairs: seq<Pair>)

  datatype World = World(grids: seq<Grid>, seams: seq<Seam>, outSeams: seq<seq<nat>>)

  type Seeds = map<nat, real>

  const EPS: real := 0.000000001

  ghost predicate ValidPair(from: Grid, to: Grid, q: Pair) {
    && Walkable(from, q.near) && q.near < Size(from)
    && Walkable(to, q.far) && q.far < Size(to)
    && q.cross > 0.0
  }

  /** What a validated region graph and its rasterised seams guarantee. */
  ghost predicate ValidWorld(w: World) {
    && |w.outSeams| == |w.grids|
    && (forall r :: 0 <= r < |w.grids| ==> ValidGrid(w.grids[r]))
    && (forall r, s :: 0 <= r < |w.grids| && s in w.outSeams[r] ==>
         s < |w.seams| && w.seams[s].to < |w.grids| && w.seams[s].to != r &&
         forall q :: q in w.seams[s].pairs ==> ValidPair(w.grids[r], w.grids[w.seams[s].to], q))
  }

  ghost predicate Crosses(w: World, r: nat, y: nat, q: Pair)
    requires ValidWorld(w)
  {
    r < |w.grids| && exists s :: s in w.outSeams[r] && w.seams[s].to == y && q in w.seams[s].pairs
  }

  // ---- The exact travel times over all regions ----

  /** Destination cells per region, all walkable. */
  ghost predicate ValidDestination(w: World, dest: seq<seq<nat>>) {
    && |dest| == |w.grids|
    && forall r, c :: 0 <= r < |dest| && c in dest[r] ==> c < Size(w.grids[r]) && Walkable(w.grids[r], c)
  }

  ghost predicate FieldsFit(w: World, v: seq<Field>) {
    |v| == |w.grids| && forall r :: 0 <= r < |v| ==> |v[r]| == Size(w.grids[r])
  }

  /** No cell is later than its neighbours, a crossing into it (plus some slack), or zero at the
      destination allow. */
  ghost predicate GlobalSubSolution(w: World, dest: seq<seq<nat>>, slack: real, v: seq<Field>)
    requires ValidWorld(w) && ValidDestination(w, dest)
  {
    && FieldsFit(w, v)
    && (forall r :: 0 <= r < |v| ==> SubSolution(Sweeping(w.grids[r]), v[r]))
    && (forall r, c :: 0 <= r < |v| && c in dest[r] ==> Le(v[r][c], Fin(0.0)))
    && (forall r: nat, y: nat, q: Pair :: Crosses(w, r, y, q) ==> Le(v[y][q.far], Plus(v[r][q.near], q.cross + slack)))
  }

  /** The travel times over all regions at once: the greatest field that keeps to the Godunov
      update inside every region and to the crossing times across every seam. */
  ghost predicate Exact(w: World, dest: seq<seq<nat>>, slack: real, v: seq<Field>)
    requires ValidWorld(w) && ValidDestination(w, dest)
  {
    && GlobalSubSolution(w, dest, slack, v)
    && forall x :: GlobalSubSolution(w, dest, slack, x) ==>
         forall r :: 0 <= r < |v| ==> Below(x[r], v[r])
  }

  // ---- Seeds ----

  ghost function SeedField(g: Grid, seeds: Seeds): (u: Field)
    ensures |u| == Size(g)
    ensures forall c :: 0 <= c < |u| ==> u[c] == if c in seeds && Walkable(g, c) then Fin(seeds[c]) else Inf
  {
    seq(Size(g), c requires 0 <= c < Size(g) => if c in seeds && Walkable(g, c) then Fin(seeds[c]) else Inf)
  }

  ghost predicate SeedsFit(g: Grid, seeds: Seeds) {
    forall c :: c in seeds ==> c < Size(g) && Walkable(g, c)
  }

  /** Seeds have only been added to or lowered. */
  ghost predicate SeedsLowered(before: Seeds, after: Seeds) {
    forall c :: c in before ==> c in after && after[c] <= before[c]
  }

  lemma LoweredSeedsLowerField(g: Grid, before: Seeds, after: Seeds)
    requires SeedsLowered(before, after)
    ensures Below(SeedField(g, after), SeedField(g, before))
  {
  }

  /** The seeds of a map, as the two parallel lists that the solver takes. */
  method SeedLists(seeds: Seeds) returns (cells: seq<nat>, values: seq<Time>)
    ensures |cells| == |values|
    ensures forall i :: 0 <= i < |cells| ==> cells[i] in seeds && values[i] == Fin(seeds[cells[i]])
    ensures forall c :: c in seeds ==> c in cells
  {
    cells, values := [], [];
    var rest := seeds.Keys;
    while rest != {}
      invariant |cells| == |values|
      invariant rest <= seeds.Keys
      invariant forall i :: 0 <= i < |cells| ==> cells[i] in seeds && values[i] == Fin(seeds[cells[i]])
      invariant forall c :: c in seeds ==> c in rest || c in cells
      decreases rest
    {
      var c :| c in rest;
      cells, values := cells + [c], values + [Fin(seeds[c])];
      rest := rest - {c};
    }
  }

  lemma StartIsSeedField(g: Grid, seeds: Seeds, cells: seq<nat>, values: seq<Time>)
    requires |cells| == |values| && SeedsFit(g, seeds) && ValidSeeds(g, cells, values)
    requires forall i :: 0 <= i < |cells| ==> cells[i] in seeds && values[i] == Fin(seeds[cells[i]])
    requires forall c :: c in seeds ==> c in cells
    ensures Start(g, cells, values) == SeedField(g, seeds)
  {
    forall c | 0 <= c < Size(g) ensures Start(g, cells, values)[c] == SeedField(g, seeds)[c] {
      StartHoldsSeeds(g, cells, values, |cells|, c);
      if c in seeds {
        var i :| 0 <= i < |cells| && cells[i] == c;
        assert Le(Start(g, cells, values)[c], SeedTime(values, i));
      }
    }
  }

  /** Solve one region from its seeds: cold if it has no field yet, else warm from that field. */
  method SolveRegion(g: Grid, previous: Option<Field>, seeds: Seeds) returns (field: Field)
    requires ValidGrid(g) && SeedsFit(g, seeds)
    requires previous.Some? ==> |previous.value| == Size(g)
    ensures Solves(
              Sweeping(g),
              if previous.Some? then MinField(previous.value, SeedField(g, seeds)) else SeedField(g, seeds),
              field)
  {
    var cells, values := SeedLists(seeds);
    var size := Size(g);
    var out := new Time[size];
    if previous.Some? {
      forall i | 0 <= i < size {
        out[i] := previous.value[i];
      }
      assert out[..] == previous.value;
    } else {
      forall i | 0 <= i < size {
        out[i] := Inf;
      }
      assert MinField(out[..], SeedField(g, seeds)) == SeedField(g, seeds);
    }
    StartIsSeedField(g, seeds, cells, values);
    ghost var _ := SolveIntoSeeded(out, g, cells, values);
    field := out[..];
  }

  // ---- The state of the propagation ----

  /** Fields of the regions solved so far, and the seeds of every region. */
  datatype Labels = Labels(fields: seq<Option<Field>>, seeds: seq<Seeds>)

  /** The earliest time known for a cell: its region's field or its seed. */
  ghost function Known(l: Labels, r: nat, c: nat): Time
    requires r < |l.fields| == |l.seeds|
    requires l.fields[r].Some? ==> c < |l.fields[r].value|
  {
    Min(if l.fields[r].Some? then l.fields[r].value[c] else Inf,
        if c in l.seeds[r] then Fin(l.seeds[r][c]) else Inf)
  }

  ghost predicate Shaped(w: World, l: Labels)
    requires ValidWorld(w)
  {
    && |l.fields| == |l.seeds| == |w.grids|
    && forall r :: 0 <= r < |w.grids| ==>
         SeedsFit(w.grids[r], l.seeds[r]) && (l.fields[r].Some? ==> |l.fields[r].value| == Size(w.grids[r]))
  }

  /** Destination cells keep the seed 0, and no other cell has one as low. */
  ghost predicate SeedsInv(w: World, dest: seq<seq<nat>>, l: Labels)
    requires ValidWorld(w) && Shaped(w, l) && ValidDestination(w, dest)
  {
    forall r :: 0 <= r < |w.grids| ==>
      && (forall c :: c in dest[r] ==> c in l.seeds[r])
      && (forall c :: c in l.seeds[r] ==> l.seeds[r][c] >= 0.0 && (l.seeds[r][c] == 0.0 <==> c in dest[r]))
  }

  /** Every field is the cold solution from the seeds it was last solved with; since then, seeds
      have only been added to or lowered. */
  ghost predicate FieldsInv(w: World, l: Labels, solved: seq<Seeds>)
    requires ValidWorld(w) && Shaped(w, l)
  {
    && |solved| == |w.grids|
    && forall r :: 0 <= r < |w.grids| ==>
         && SeedsLowered(solved[r], l.seeds[r])
         && (l.fields[r].None? ==> solved[r] == map[])
         && (l.fields[r].Some? ==>
               Solves(Sweeping(w.grids[r]), SeedField(w.grids[r], solved[r]), l.fields[r].value))
  }

  /** No label undercuts a subsolution of the whole problem, so none undercuts the exact times. */
  ghost predicate AboveExact(w: World, dest: seq<seq<nat>>, l: Labels, v: seq<Field>)
    requires ValidWorld(w) && Shaped(w, l) && FieldsFit(w, v)
  {
    forall r :: 0 <= r < |w.grids| ==>
      && (l.fields[r].Some? ==> Below(v[r], l.fields[r].value))
      && (forall c :: c in l.seeds[r] ==> Le(v[r][c], Fin(l.seeds[r][c])))
  }

  /** No crossing out of a solved region would improve the far cell by more than EPS. */
  ghost predicate CrossingSettled(w: World, l: Labels, r: nat, y: nat, q: Pair)
    requires ValidWorld(w) && Shaped(w, l) && r < |w.grids| && y < |w.grids|
    requires ValidPair(w.grids[r], w.grids[y], q)
  {
    l.fields[r].Some? ==> Le(Known(l, y, q.far), Plus(l.fields[r].value[q.near], q.cross + EPS))
  }

  ghost predicate SeamsInv(w: World, l: Labels)
    requires ValidWorld(w) && Shaped(w, l)
  {
    forall r: nat, y: nat, q: Pair :: Crosses(w, r, y, q) ==> CrossingSettled(w, l, r, y, q)
  }

  /** A region whose seeds changed since it was solved is dirty. */
  ghost predicate DirtyInv(l: Labels, solved: seq<Seeds>, dirty: seq<bool>) {
    |dirty| == |l.seeds| == |solved| && forall r :: 0 <= r < |dirty| ==> dirty[r] || l.seeds[r] == solved[r]
  }

  // ---- One label at a time ----

  /** Lowering the far cell's seed to the time of a crossing. */
  ghost predicate Improves(w: World, l: Labels, r: nat, y: nat, q: Pair, t: real)
    requires ValidWorld(w) && Shaped(w, l) && r < |w.grids| && y < |w.grids|
    requires ValidPair(w.grids[r], w.grids[y], q)
  {
    && l.fields[r].Some?
    && Plus(l.fields[r].value[q.near], q.cross) == Fin(t)
    && Lt(Fin(t + EPS), Known(l, y, q.far))
  }

  ghost function LowerSeed(l: Labels, y: nat, c: nat, t: real): Labels
    requires y < |l.seeds|
  {
    var lowered: Seeds := l.seeds[y][c := t];
    l.(seeds := l.seeds[y := lowered])
  }

  /** Labels of l' are nowhere later than those of l. */
  ghost predicate LabelsLowered(w: World, l: Labels, l': Labels)
    requires ValidWorld(w) && Shaped(w, l) && Shaped(w, l')
  {
    forall r :: 0 <= r < |w.grids| ==>
      && SeedsLowered(l.seeds[r], l'.seeds[r])
      && (l.fields[r].Some? ==> l'.fields[r].Some? && Below(l'.fields[r].value, l.fields[r].value))
  }

  /** What a region's field offers across a seam is positive, since nothing is below zero. */
  lemma FieldNotNegative(w: World, dest: seq<seq<nat>>, l: Labels, solved: seq<Seeds>, r: nat)
    requires ValidWorld(w) && Shaped(w, l) && ValidDestination(w, dest)
    requires SeedsInv(w, dest, l) && FieldsInv(w, l, solved)
    requires r < |w.grids| && l.fields[r].Some?
    ensures forall c :: 0 <= c < Size(w.grids[r]) ==> Le(Fin(0.0), l.fields[r].value[c])
    ensures l.seeds[r] == solved[r] ==>
              forall c :: 0 <= c < Size(w.grids[r]) ==> (l.fields[r].value[c] == Fin(0.0) <==> c in dest[r])
  {
    var g := w.grids[r];
    var start := SeedField(g, solved[r]);
    forall c | 0 <= c < Size(g) ensures Le(Fin(0.0), start[c]) {
      if c in solved[r] {
        assert c in l.seeds[r] && l.seeds[r][c] <= solved[r][c];
      }
    }
    NothingBeforeSeeds(g, start, l.fields[r].value, 0.0);
  }

  /** An improving time is positive, and the far cell is no destination cell. */
  lemma ImprovementIsPositive(
    w: World, dest: seq<seq<nat>>, l: Labels, solved: seq<Seeds>, r: nat, y: nat, q: Pair, t: real)
    requires ValidWorld(w) && Shaped(w, l) && ValidDestination(w, dest)
    requires SeedsInv(w, dest, l) && FieldsInv(w, l, solved)
    requires r < |w.grids| && y < |w.grids| && ValidPair(w.grids[r], w.grids[y], q)
    requires Improves(w, l, r, y, q, t)
    ensures t > 0.0 && q.far !in dest[y]
    ensures q.far in l.seeds[y] ==> t < l.seeds[y][q.far]
  {
    FieldNotNegative(w, dest, l, solved, r);
  }

  /** Lowering one cell's seed. */
  ghost predicate Lowerable(w: World, l: Labels, y: nat, c: nat, t: real)
    requires ValidWorld(w) && Shaped(w, l)
  {
    && y < |w.grids| && c < Size(w.grids[y]) && Walkable(w.grids[y], c)
    && (c in l.seeds[y] ==> t < l.seeds[y][c])
  }

  lemma LoweringFits(w: World, l: Labels, y: nat, c: nat, t: real)
    requires ValidWorld(w) && Shaped(w, l) && Lowerable(w, l, y, c, t)
    ensures Shaped(w, LowerSeed(l, y, c, t)) && LabelsLowered(w, l, LowerSeed(l, y, c, t))
  {
    assert SeedsLowered(l.seeds[y], LowerSeed(l, y, c, t).seeds[y]);
  }

  lemma LoweringKeepsSeeds(w: World, dest: seq<seq<nat>>, l: Labels, y: nat, c: nat, t: real)
    requires ValidWorld(w) && Shaped(w, l) && ValidDestination(w, dest) && SeedsInv(w, dest, l)
    requires Lowerable(w, l, y, c, t) && t > 0.0 && c !in dest[y]
    requires Shaped(w, LowerSeed(l, y, c, t))
    ensures SeedsInv(w, dest, LowerSeed(l, y, c, t))
  {
  }

  lemma LoweringKeepsFields(w: World, l: Labels, solved: seq<Seeds>, y: nat, c: nat, t: real)
    requires ValidWorld(w) && Shaped(w, l) && FieldsInv(w, l, solved)
    requires Lowerable(w, l, y, c, t) && Shaped(w, LowerSeed(l, y, c, t))
    ensures FieldsInv(w, LowerSeed(l, y, c, t), solved)
  {
    assert SeedsLowered(solved[y], LowerSeed(l, y, c, t).seeds[y]);
  }

  lemma LoweringStaysAboveExact(
    w: World, dest: seq<seq<nat>>, l: Labels, r: nat, y: nat, q: Pair, t: real, v: seq<Field>)
    requires ValidWorld(w) && Shaped(w, l) && ValidDestination(w, dest)
    requires Crosses(w, r, y, q) && r < |w.grids| && y < |w.grids| && ValidPair(w.grids[r], w.grids[y], q)
    requires Improves(w, l, r, y, q, t)
    requires GlobalSubSolution(w, dest, 0.0, v) && AboveExact(w, dest, l, v)
    ensures Shaped(w, LowerSeed(l, y, q.far, t)) && AboveExact(w, dest, LowerSeed(l, y, q.far, t), v)
  {
    assert Le(v[y][q.far], Plus(v[r][q.near], q.cross + 0.0));
    assert Le(v[r][q.near], l.fields[r].value[q.near]);
  }

  /** Lowering labels keeps settled every crossing whose near region is as it was. */
  lemma LoweringKeepsCrossing(w: World, l: Labels, l': Labels, r: nat, y: nat, q: Pair)
    requires ValidWorld(w) && Shaped(w, l) && Shaped(w, l') && LabelsLowered(w, l, l')
    requires r < |w.grids| && y < |w.grids| && ValidPair(w.grids[r], w.grids[y], q)
    requires CrossingSettled(w, l, r, y, q) && l'.fields[r] == l.fields[r]
    ensures CrossingSettled(w, l', r, y, q)
  {
    assert Le(Known(l', y, q.far), Known(l, y, q.far));
  }

  /** All that holds of the labels at every moment of the propagation. */
  ghost predicate Labelled(w: World, dest: seq<seq<nat>>, l: Labels, solved: seq<Seeds>)
    requires ValidWorld(w) && ValidDestination(w, dest)
  {
    && Shaped(w, l)
    && SeedsInv(w, dest, l)
    && FieldsInv(w, l, solved)
    && forall v :: GlobalSubSolution(w, dest, 0.0, v) ==> AboveExact(w, dest, l, v)
  }

  lemma LoweringStaysLabelled(
    w: World, dest: seq<seq<nat>>, l: Labels, solved: seq<Seeds>, r: nat, y: nat, q: Pair, t: real)
    requires ValidWorld(w) && ValidDestination(w, dest) && Labelled(w, dest, l, solved)
    requires Crosses(w, r, y, q) && r < |w.grids| && y < |w.grids| && ValidPair(w.grids[r], w.grids[y], q)
    requires Improves(w, l, r, y, q, t)
    ensures var l' := LowerSeed(l, y, q.far, t);
            Labelled(w, dest, l', solved) && LabelsLowered(w, l, l') && CrossingSettled(w, l', r, y, q)
  {
    ImprovementIsPositive(w, dest, l, solved, r, y, q, t);
    LoweringFits(w, l, y, q.far, t);
    LoweringKeepsSeeds(w, dest, l, y, q.far, t);
    LoweringKeepsFields(w, l, solved, y, q.far, t);
    forall v | GlobalSubSolution(w, dest, 0.0, v) ensures AboveExact(w, dest, LowerSeed(l, y, q.far, t), v) {
      LoweringStaysAboveExact(w, dest, l, r, y, q, t, v);
    }
  }

  lemma LabelsLoweredTransitive(w: World, l: Labels, l': Labels, l'': Labels)
    requires ValidWorld(w) && Shaped(w, l) && Shaped(w, l') && Shaped(w, l'')
    requires LabelsLowered(w, l, l') && LabelsLowered(w, l', l'')
    ensures LabelsLowered(w, l, l'')
  {
    forall r | 0 <= r < |w.grids| && l.fields[r].Some? ensures Below(l''.fields[r].value, l.fields[r].value) {
      BelowTransitive(l''.fields[r].value, l'.fields[r].value, l.fields[r].value);
    }
  }

  /** Crossings out of r through pairs[..k] of one of its seams are settled. */
  ghost predicate PairsSettled(w: World, l: Labels, r: nat, s: nat, k: nat)
    requires ValidWorld(w) && Shaped(w, l) && r < |w.grids| && s in w.outSeams[r]
    requires k <= |w.seams[s].pairs|
  {
    forall i :: 0 <= i < k ==> CrossingSettled(w, l, r, w.seams[s].to, w.seams[s].pairs[i])
  }

  lemma PairsStaySettled(w: World, l: Labels, l': Labels, r: nat, s: nat, k: nat)
    requires ValidWorld(w) && Shaped(w, l) && Shaped(w, l') && LabelsLowered(w, l, l')
    requires r < |w.grids| && s in w.outSeams[r] && k <= |w.seams[s].pairs|
    requires l'.fields[r] == l.fields[r] && PairsSettled(w, l, r, s, k)
    ensures PairsSettled(w, l', r, s, k)
  {
    forall i | 0 <= i < k ensures CrossingSettled(w, l', r, w.seams[s].to, w.seams[s].pairs[i]) {
      LoweringKeepsCrossing(w, l, l', r, w.seams[s].to, w.seams[s].pairs[i]);
    }
  }

  /** Carry region r's arrival time across one pair: a far cell whose known time improves by more than
      EPS is seeded with the new one. */
  ghost function Carry(w: World, l: Labels, r: nat, y: nat, q: Pair): (l': Labels)
    requires ValidWorld(w) && Shaped(w, l) && r < |w.grids| && y < |w.grids| && ValidPair(w.grids[r], w.grids[y], q)
    requires l.fields[r].Some?
    ensures Shaped(w, l') && l'.fields == l.fields
  {
    var t := Plus(l.fields[r].value[q.near], q.cross);
    if t.Fin? && Lt(Fin(t.t + EPS), Known(l, y, q.far)) then
      LoweringFits(w, l, y, q.far, t.t);
      LowerSeed(l, y, q.far, t.t)
    else
      l
  }

  /** A time is carried across exactly if it is earlier than what is known there by more than 1e-9. */
  lemma CarriedIff(w: World, l: Labels, r: nat, y: nat, q: Pair)
    requires ValidWorld(w) && Shaped(w, l) && r < |w.grids| && y < |w.grids| && ValidPair(w.grids[r], w.grids[y], q)
    requires l.fields[r].Some?
    ensures Carry(w, l, r, y, q) != l <==>
              l.fields[r].value[q.near].Fin? &&
              (var known := Known(l, y, q.far);
               known.Inf? || l.fields[r].value[q.near].t + q.cross + 0.000000001 < known.t)
  {
  }

  lemma CarryLowers(w: World, l: Labels, r: nat, y: nat, q: Pair)
    requires ValidWorld(w) && Shaped(w, l) && r < |w.grids| && y < |w.grids| && ValidPair(w.grids[r], w.grids[y], q)
    requires l.fields[r].Some?
    ensures LabelsLowered(w, l, Carry(w, l, r, y, q)) && CrossingSettled(w, Carry(w, l, r, y, q), r, y, q)
    ensures forall x :: 0 <= x < |l.seeds| && x != y ==> Carry(w, l, r, y, q).seeds[x] == l.seeds[x]
  {
    var t := Plus(l.fields[r].value[q.near], q.cross);
    if t.Fin? && Lt(Fin(t.t + EPS), Known(l, y, q.far)) {
      LoweringFits(w, l, y, q.far, t.t);
    }
  }

  lemma CarryStaysLabelled(w: World, dest: seq<seq<nat>>, l: Labels, solved: seq<Seeds>, r: nat, y: nat, q: Pair)
    requires ValidWorld(w) && ValidDestination(w, dest) && Labelled(w, dest, l, solved)
    requires Crosses(w, r, y, q) && r < |w.grids| && y < |w.grids| && ValidPair(w.grids[r], w.grids[y], q)
    requires l.fields[r].Some?
    ensures Labelled(w, dest, Carry(w, l, r, y, q), solved)
  {
    var t := Plus(l.fields[r].value[q.near], q.cross);
    if t.Fin? && Lt(Fin(t.t + EPS), Known(l, y, q.far)) {
      LoweringStaysLabelled(w, dest, l, solved, r, y, q, t.t);
    }
  }

  /** The same across the first k pairs of seam s. */
  ghost function CarrySeam(w: World, l: Labels, r: nat, s: nat, k: nat): (l': Labels)
    requires ValidWorld(w) && Shaped(w, l) && r < |w.grids| && s in w.outSeams[r] && k <= |w.seams[s].pairs|
    requires l.fields[r].Some?
    ensures Shaped(w, l') && l'.fields == l.fields
  {
    if k == 0 then l else Carry(w, CarrySeam(w, l, r, s, k - 1), r, w.seams[s].to, w.seams[s].pairs[k - 1])
  }

  /** Labels l have become l' by carrying times of region r across the first k pairs of seam s. */
  ghost predicate Carried(w: World, l: Labels, l': Labels, r: nat, s: nat, k: nat)
    requires ValidWorld(w) && Shaped(w, l) && Shaped(w, l')
    requires r < |w.grids| && s in w.outSeams[r] && k <= |w.seams[s].pairs|
  {
    && l'.fields == l.fields
    && LabelsLowered(w, l, l')
    && PairsSettled(w, l', r, s, k)
    && forall x :: 0 <= x < |l.seeds| && x != w.seams[s].to ==> l'.seeds[x] == l.seeds[x]
  }

  lemma SeamCarried(w: World, l: Labels, r: nat, s: nat, k: nat)
    requires ValidWorld(w) && Shaped(w, l) && r < |w.grids| && s in w.outSeams[r] && k <= |w.seams[s].pairs|
    requires l.fields[r].Some?
    ensures Carried(w, l, CarrySeam(w, l, r, s, k), r, s, k)
  {
    NothingCarried(w, l, r, s);
    var cur := l;
    for i := 0 to k
      invariant Shaped(w, cur) && cur == CarrySeam(w, l, r, s, i) && Carried(w, l, cur, r, s, i)
    {
      CarriedOneMore(w, l, cur, r, s, i);
      cur := Carry(w, cur, r, w.seams[s].to, w.seams[s].pairs[i]);
    }
  }

  lemma NothingCarried(w: World, l: Labels, r: nat, s: nat)
    requires ValidWorld(w) && Shaped(w, l) && r < |w.grids| && s in w.outSeams[r]
    ensures Carried(w, l, l, r, s, 0)
  {
  }

  lemma CarriedOneMore(w: World, l: Labels, l': Labels, r: nat, s: nat, k: nat)
    requires ValidWorld(w) && Shaped(w, l) && Shaped(w, l') && r < |w.grids| && s in w.outSeams[r] &&
               k < |w.seams[s].pairs|
    requires Carried(w, l, l', r, s, k) && l'.fields[r].Some?
    ensures Carried(w, l, Carry(w, l', r, w.seams[s].to, w.seams[s].pairs[k]), r, s, k + 1)
  {
    var l'' := Carry(w, l', r, w.seams[s].to, w.seams[s].pairs[k]);
    CarryLowers(w, l', r, w.seams[s].to, w.seams[s].pairs[k]);
    LabelsLoweredTransitive(w, l, l', l'');
    PairsStaySettled(w, l', l'', r, s, k);
  }

  lemma SeamStaysLabelled(
    w: World, dest: seq<seq<nat>>, l: Labels, solved: seq<Seeds>, r: nat, s: nat, k: nat, l': Labels)
    requires ValidWorld(w) && ValidDestination(w, dest) && Labelled(w, dest, l, solved)
    requires r < |w.grids| && s in w.outSeams[r] && k <= |w.seams[s].pairs| && l.fields[r].Some?
    requires l' == CarrySeam(w, l, r, s, k)
    ensures Labelled(w, dest, l', solved)
  {
    var cur := l;
    for i := 0 to k
      invariant Labelled(w, dest, cur, solved) && cur == CarrySeam(w, l, r, s, i)
    {
      var next := Carry(w, cur, r, w.seams[s].to, w.seams[s].pairs[i]);
      PairStaysLabelled(w, dest, cur, solved, r, s, i, next);
      cur := next;
    }
  }

  lemma PairStaysLabelled(
    w: World, dest: seq<seq<nat>>, l: Labels, solved: seq<Seeds>, r: nat, s: nat, k: nat, l': Labels)
    requires ValidWorld(w) && ValidDestination(w, dest) && Labelled(w, dest, l, solved)
    requires r < |w.grids| && s in w.outSeams[r] && k < |w.seams[s].pairs| && l.fields[r].Some?
    requires l' == Carry(w, l, r, w.seams[s].to, w.seams[s].pairs[k])
    ensures Labelled(w, dest, l', solved)
  {
    var q := w.seams[s].pairs[k];
    assert Crosses(w, r, w.seams[s].to, q);
    CarryStaysLabelled(w, dest, l, solved, r, w.seams[s].to, q);
  }

  method CrossPair(w: World, fields: seq<Option<Field>>, seeds: seq<Seeds>, r: nat, y: nat, q: Pair)
    returns (seeds': seq<Seeds>, improved: bool)
    requires ValidWorld(w) && Shaped(w, Labels(fields, seeds))
    requires r < |w.grids| && y < |w.grids| && ValidPair(w.grids[r], w.grids[y], q) && fields[r].Some?
    ensures Labels(fields, seeds') == Carry(w, Labels(fields, seeds), r, y, q)
    ensures improved <==> seeds'[y] != seeds[y]
  {
    seeds', improved := seeds, false;
    var t := Plus(fields[r].value[q.near], q.cross);
    if t.Fin? {
      var known := if fields[y].Some? then fields[y].value[q.far] else Inf;
      var current := Min(known, if q.far in seeds[y] then Fin(seeds[y][q.far]) else Inf);
      assert current == Known(Labels(fields, seeds), y, q.far);
      if Lt(Fin(t.t + EPS), current) {
        var lowered: Seeds := seeds[y][q.far := t.t];
        seeds' := seeds[y := lowered];
        improved := true;
        assert q.far in seeds[y] ==> lowered[q.far] < seeds[y][q.far];
      }
    }
  }

  /** Seeds that have changed stay changed, as they are only ever lowered. */
  lemma ChangeStays(before: Seeds, mid: Seeds, after: Seeds)
    requires SeedsLowered(before, mid) && SeedsLowered(mid, after)
    ensures after != before <==> mid != before || after != mid
  {
    assert after == before ==> mid.Keys == before.Keys;
    assert after == before ==> mid == before;
  }

  /** Carry the arrival times of region r across one of its seams. */
  method CrossSeam(
    w: World, fields: seq<Option<Field>>, seeds: seq<Seeds>, r: nat, s: nat)
    returns (seeds': seq<Seeds>, improved: bool)
    requires ValidWorld(w) && Shaped(w, Labels(fields, seeds))
    requires r < |w.grids| && s in w.outSeams[r] && fields[r].Some?
    ensures Labels(fields, seeds') == CarrySeam(w, Labels(fields, seeds), r, s, |w.seams[s].pairs|)
    ensures improved <==> seeds'[w.seams[s].to] != seeds[w.seams[s].to]
  {
    ghost var l := Labels(fields, seeds);
    var y := w.seams[s].to;
    seeds', improved := seeds, false;
    for k := 0 to |w.seams[s].pairs|
      invariant Labels(fields, seeds') == CarrySeam(w, l, r, s, k)
      invariant improved <==> seeds'[y] != seeds[y]
    {
      ghost var mid := seeds';
      var q := w.seams[s].pairs[k];
      SeamCarried(w, l, r, s, k);
      CarryLowers(w, Labels(fields, seeds'), r, y, q);
      var better;
      seeds', better := CrossPair(w, fields, seeds', r, y, q);
      ChangeStays(seeds[y], mid[y], seeds'[y]);
      improved := improved || better;
    }
  }

  // ---- The propagation ----

  lemma SolvedStaysLabelled(w: World, dest: seq<seq<nat>>, l: Labels, solved: seq<Seeds>, r: nat, field: Field)
    requires ValidWorld(w) && ValidDestination(w, dest) && Labelled(w, dest, l, solved)
    requires r < |w.grids| && Solves(Sweeping(w.grids[r]), SeedField(w.grids[r], l.seeds[r]), field)
    requires l.fields[r].Some? ==> Below(field, l.fields[r].value)
    ensures var l' := l.(fields := l.fields[r := Some(field)]);
            Labelled(w, dest, l', solved[r := l.seeds[r]]) && LabelsLowered(w, l, l')
  {
    var l' := l.(fields := l.fields[r := Some(field)]);
    assert |field| == Size(w.grids[r]);
    assert LabelsLowered(w, l, l') by {
      forall x | 0 <= x < |w.grids| && l.fields[x].Some? ensures Below(l'.fields[x].value, l.fields[x].value) {
      }
    }
    forall v | GlobalSubSolution(w, dest, 0.0, v) ensures AboveExact(w, dest, l', v) {
      assert AboveExact(w, dest, l, v);
      assert Below(v[r], SeedField(w.grids[r], l.seeds[r]));
    }
  }

  ghost predicate SeamSettled(w: World, l: Labels, r: nat, s: nat)
    requires ValidWorld(w) && Shaped(w, l) && r < |w.grids| && s in w.outSeams[r]
  {
    PairsSettled(w, l, r, s, |w.seams[s].pairs|)
  }

  /** Crossings out of regions other than r are settled, and those out of r through its first k
      seams. */
  ghost predicate SeamsInvExcept(w: World, l: Labels, r: nat, k: nat)
    requires ValidWorld(w) && Shaped(w, l) && r < |w.grids| && k <= |w.outSeams[r]|
  {
    && (forall x: nat, y: nat, q: Pair :: x != r && Crosses(w, x, y, q) ==> CrossingSettled(w, l, x, y, q))
    && forall i :: 0 <= i < k ==> SeamSettled(w, l, r, w.outSeams[r][i])
  }

  lemma SolvedKeepsSeams(w: World, l: Labels, l': Labels, r: nat)
    requires ValidWorld(w) && Shaped(w, l) && Shaped(w, l') && r < |w.grids|
    requires SeamsInv(w, l) && LabelsLowered(w, l, l')
    requires forall x :: 0 <= x < |w.grids| && x != r ==> l'.fields[x] == l.fields[x]
    ensures SeamsInvExcept(w, l', r, 0)
  {
    forall x: nat, y: nat, q: Pair | x != r && Crosses(w, x, y, q) ensures CrossingSettled(w, l', x, y, q) {
      LoweringKeepsCrossing(w, l, l', x, y, q);
    }
  }

  lemma CarriedKeepsSeams(w: World, l: Labels, l': Labels, r: nat, k: nat, s: nat)
    requires ValidWorld(w) && Shaped(w, l) && Shaped(w, l') && r < |w.grids| && k < |w.outSeams[r]|
    requires SeamsInvExcept(w, l, r, k)
    requires s == w.outSeams[r][k] && s in w.outSeams[r]
    requires Carried(w, l, l', r, s, |w.seams[s].pairs|)
    ensures SeamsInvExcept(w, l', r, k + 1)
  {
    forall x: nat, y: nat, q: Pair | x != r && Crosses(w, x, y, q) ensures CrossingSettled(w, l', x, y, q) {
      LoweringKeepsCrossing(w, l, l', x, y, q);
    }
    forall i | 0 <= i < k ensures SeamSettled(w, l', r, w.outSeams[r][i]) {
      var x := w.outSeams[r][i];
      assert x in w.outSeams[r] && SeamSettled(w, l, r, x);
      PairsStaySettled(w, l, l', r, x, |w.seams[x].pairs|);
    }
  }

  lemma AllSeamsSettled(w: World, l: Labels, r: nat)
    requires ValidWorld(w) && Shaped(w, l) && r < |w.grids|
    requires SeamsInvExcept(w, l, r, |w.outSeams[r]|)
    ensures SeamsInv(w, l)
  {
    forall y: nat, q: Pair | Crosses(w, r, y, q) ensures CrossingSettled(w, l, r, y, q) {
      var s :| s in w.outSeams[r] && w.seams[s].to == y && q in w.seams[s].pairs;
      var i :| 0 <= i < |w.outSeams[r]| && w.outSeams[r][i] == s;
      assert SeamSettled(w, l, r, w.outSeams[r][i]);
      var j :| 0 <= j < |w.seams[s].pairs| && w.seams[s].pairs[j] == q;
    }
  }

  // ---- Runs ----

  /** The labels, and which regions are to be solved again. Which of these comes next is left open. */
  datatype State = State(labels: Labels, dirty: seq<bool>)

  ghost predicate ValidState(w: World, st: State)
    requires ValidWorld(w)
  {
    Shaped(w, st.labels) && |st.dirty| == |w.grids|
  }

  /** Region r's times cross seam s; the region behind it becomes dirty if a seed there changes. */
  ghost function CrossOneSeam(w: World, st: State, r: nat, s: nat): (st': State)
    requires ValidWorld(w) && ValidState(w, st) && r < |w.grids| && s in w.outSeams[r] && st.labels.fields[r].Some?
    ensures ValidState(w, st') && st'.labels.fields == st.labels.fields
  {
    var l, y := CarrySeam(w, st.labels, r, s, |w.seams[s].pairs|), w.seams[s].to;
    State(l, st.dirty[y := st.dirty[y] || l.seeds[y] != st.labels.seeds[y]])
  }

  /** Region r's times cross its first k seams. */
  ghost function CrossOut(w: World, st: State, r: nat, k: nat): (st': State)
    requires ValidWorld(w) && ValidState(w, st) && r < |w.grids| && k <= |w.outSeams[r]| && st.labels.fields[r].Some?
    ensures ValidState(w, st') && st'.labels.fields == st.labels.fields
  {
    if k == 0 then st else CrossOneSeam(w, CrossOut(w, st, r, k - 1), r, w.outSeams[r][k - 1])
  }

  /** The field of a region solved from its seeds, over its last field if it has one. */
  ghost predicate SolvedFrom(g: Grid, previous: Option<Field>, seeds: Seeds, field: Field)
    requires previous.Some? ==> |previous.value| == Size(g)
  {
    && |field| == Size(g)
    && Solves(Sweeping(g), if previous.Some? then MinField(previous.value, SeedField(g, seeds))
         else SeedField(g, seeds), field)
  }

  /** Region r has its new field, and is no longer dirty. */
  ghost function WithField(st: State, r: nat, field: Field): State
    requires r < |st.labels.fields| && r < |st.dirty|
  {
    State(st.labels.(fields := st.labels.fields[r := Some(field)]), st.dirty[r := false])
  }

  /** A dirty region is solved and its times carried across its seams. */
  ghost predicate Step(w: World, st: State, r: nat, st': State)
    requires ValidWorld(w) && ValidState(w, st)
  {
    && r < |w.grids| && st.dirty[r]
    && exists field :: SolvedFrom(w.grids[r], st.labels.fields[r], st.labels.seeds[r], field) &&
         st' == CrossOut(w, WithField(st, r, field), r, |w.outSeams[r]|)
  }

  /** No field yet, zero at every destination cell. */
  ghost function Initial(w: World, dest: seq<seq<nat>>): (st: State)
    requires ValidWorld(w) && ValidDestination(w, dest)
    ensures ValidState(w, st)
  {
    State(Labels(seq(|w.grids|, _ => None), seq(|w.grids|, r requires 0 <= r < |dest| => ZeroSeeds(dest[r]))),
          seq(|w.grids|, r requires 0 <= r < |dest| => dest[r] != []))
  }

  function ZeroSeeds(cells: seq<nat>): (seeds: Seeds)
    ensures forall c :: c in seeds <==> c in cells
    ensures forall c :: c in seeds ==> seeds[c] == 0.0
  {
    map c | c in cells :: 0.0
  }

  /** A run solves the regions in `order`, from the initial state through the given ones. */
  ghost predicate IsRun(w: World, dest: seq<seq<nat>>, states: seq<State>, order: seq<nat>)
    requires ValidWorld(w) && ValidDestination(w, dest)
  {
    && |states| == |order| + 1 && states[0] == Initial(w, dest)
    && (forall k {:trigger states[k]} :: 0 <= k < |states| ==> ValidState(w, states[k]))
    && forall k {:trigger StepOf(w, states, order, k)} :: 0 <= k < |order| ==> StepOf(w, states, order, k)
  }

  ghost predicate StepOf(w: World, states: seq<State>, order: seq<nat>, k: int)
    requires ValidWorld(w)
  {
    0 <= k < |order| && k + 1 < |states| && ValidState(w, states[k]) && Step(w, states[k], order[k], states[k + 1])
  }

  predicate Clean(st: State) {
    forall r :: 0 <= r < |st.dirty| ==> !st.dirty[r]
  }

  /** The invariant of all runs. */
  ghost predicate StateInv(w: World, dest: seq<seq<nat>>, st: State, solved: seq<Seeds>)
    requires ValidWorld(w) && ValidDestination(w, dest)
  {
    && ValidState(w, st)
    && Labelled(w, dest, st.labels, solved) && SeamsInv(w, st.labels) && DirtyInv(st.labels, solved, st.dirty)
  }

  lemma InitialInv(w: World, dest: seq<seq<nat>>)
    requires ValidWorld(w) && ValidDestination(w, dest)
    ensures StateInv(w, dest, Initial(w, dest), seq(|w.grids|, _ => map[]))
  {
    var l, solved: seq<Seeds> := Initial(w, dest).labels, seq(|w.grids|, _ => map[]);
    assert SeedsInv(w, dest, l) && FieldsInv(w, l, solved) && SeamsInv(w, l);
    forall v | GlobalSubSolution(w, dest, 0.0, v) ensures AboveExact(w, dest, l, v) {
    }
    forall r | 0 <= r < |w.grids| ensures Initial(w, dest).dirty[r] || l.seeds[r] == solved[r] {
      if dest[r] == [] {
        assert l.seeds[r] == map[];
      }
    }
  }

  /** Region r has been solved, and its times have crossed its first k seams. */
  ghost predicate Crossing(w: World, dest: seq<seq<nat>>, st: State, solved: seq<Seeds>, r: nat, k: nat)
    requires ValidWorld(w) && ValidDestination(w, dest)
  {
    && ValidState(w, st) && r < |w.grids| && k <= |w.outSeams[r]| && st.labels.fields[r].Some?
    && Labelled(w, dest, st.labels, solved) && SeamsInvExcept(w, st.labels, r, k) &&
         DirtyInv(st.labels, solved, st.dirty)
  }

  lemma CrossOutKeeps(
    w: World, dest: seq<seq<nat>>, st: State, solved: seq<Seeds>, r: nat, k: nat, st': State)
    requires ValidWorld(w) && ValidDestination(w, dest) && Crossing(w, dest, st, solved, r, 0) && k <= |w.outSeams[r]|
    requires st' == CrossOut(w, st, r, k)
    ensures Crossing(w, dest, st', solved, r, k)
  {
    var cur := st;
    for i := 0 to k
      invariant Crossing(w, dest, cur, solved, r, i) && cur == CrossOut(w, st, r, i)
    {
      var next := CrossOneSeam(w, cur, r, w.outSeams[r][i]);
      OneSeamKeeps(w, dest, cur, solved, r, i, next);
      cur := next;
    }
  }

  lemma OneSeamKeeps(w: World, dest: seq<seq<nat>>, mid: State, solved: seq<Seeds>, r: nat, k: nat, st': State)
    requires ValidWorld(w) && ValidDestination(w, dest) && Crossing(w, dest, mid, solved, r, k) && k < |w.outSeams[r]|
    requires st' == CrossOneSeam(w, mid, r, w.outSeams[r][k])
    ensures Crossing(w, dest, st', solved, r, k + 1)
  {
    var s := w.outSeams[r][k];
    assert s in w.outSeams[r];
    var n := |w.seams[s].pairs|;
    SeamCarried(w, mid.labels, r, s, n);
    SeamStaysLabelled(w, dest, mid.labels, solved, r, s, n, st'.labels);
    CarriedKeepsSeams(w, mid.labels, st'.labels, r, k, s);
  }

  /** Solving over the last field is solving from the seeds alone. */
  lemma SolvedCold(w: World, dest: seq<seq<nat>>, l: Labels, solved: seq<Seeds>, r: nat, field: Field)
    requires ValidWorld(w) && ValidDestination(w, dest) && Labelled(w, dest, l, solved) && r < |w.grids|
    requires SolvedFrom(w.grids[r], l.fields[r], l.seeds[r], field)
    ensures Solves(Sweeping(w.grids[r]), SeedField(w.grids[r], l.seeds[r]), field)
    ensures l.fields[r].Some? ==> Below(field, l.fields[r].value)
  {
    var g := w.grids[r];
    if l.fields[r].Some? {
      LoweredSeedsLowerField(g, solved[r], l.seeds[r]);
      WarmStartFromPrevious(g, SeedField(g, solved[r]), l.fields[r].value, SeedField(g, l.seeds[r]), field);
    }
  }

  /** Every step keeps the invariant. */
  lemma StepKeeps(
    w: World, dest: seq<seq<nat>>, st: State, solved: seq<Seeds>, r: nat, st': State) returns (solved': seq<Seeds>)
    requires ValidWorld(w) && ValidDestination(w, dest) && StateInv(w, dest, st, solved) && Step(w, st, r, st')
    ensures StateInv(w, dest, st', solved')
    ensures LabelsLowered(w, st.labels, st'.labels)
  {
    var field :| SolvedFrom(w.grids[r], st.labels.fields[r], st.labels.seeds[r], field) &&
      st' == CrossOut(w, WithField(st, r, field), r, |w.outSeams[r]|);
    var next := WithField(st, r, field);
    SolvedCold(w, dest, st.labels, solved, r, field);
    SolvedStaysLabelled(w, dest, st.labels, solved, r, field);
    solved' := solved[r := st.labels.seeds[r]];
    SolvedKeepsSeams(w, st.labels, next.labels, r);
    CrossOutKeeps(w, dest, next, solved', r, |w.outSeams[r]|, st');
    AllSeamsSettled(w, st'.labels, r);
    CrossOutLowers(w, next, r, |w.outSeams[r]|, st');
    LabelsLoweredTransitive(w, st.labels, next.labels, st'.labels);
  }

  lemma CrossOutLowers(w: World, st: State, r: nat, k: nat, st': State)
    requires ValidWorld(w) && ValidState(w, st) && r < |w.grids| && k <= |w.outSeams[r]| && st.labels.fields[r].Some?
    requires st' == CrossOut(w, st, r, k)
    ensures LabelsLowered(w, st.labels, st'.labels)
  {
    var cur := st;
    for i := 0 to k
      invariant ValidState(w, cur) && cur == CrossOut(w, st, r, i) && LabelsLowered(w, st.labels, cur.labels)
    {
      var next := CrossOneSeam(w, cur, r, w.outSeams[r][i]);
      OneSeamLowers(w, cur, r, w.outSeams[r][i], next);
      LabelsLoweredTransitive(w, st.labels, cur.labels, next.labels);
      cur := next;
    }
  }

  lemma OneSeamLowers(w: World, st: State, r: nat, s: nat, st': State)
    requires ValidWorld(w) && ValidState(w, st) && r < |w.grids| && s in w.outSeams[r] && st.labels.fields[r].Some?
    requires st' == CrossOneSeam(w, st, r, s)
    ensures LabelsLowered(w, st.labels, st'.labels)
  {
    SeamCarried(w, st.labels, r, s, |w.seams[s].pairs|);
  }

  ghost predicate Inv(w: World, dest: seq<seq<nat>>, st: State)
    requires ValidWorld(w) && ValidDestination(w, dest)
  {
    exists solved :: StateInv(w, dest, st, solved)
  }

  /** State k of the run satisfies the invariant. */
  ghost predicate KeptUpTo(w: World, dest: seq<seq<nat>>, states: seq<State>, order: seq<nat>, k: nat)
    requires ValidWorld(w) && ValidDestination(w, dest)
  {
    IsRun(w, dest, states, order) && k <= |order| && Inv(w, dest, states[k])
  }

  lemma KeptOneMore(w: World, dest: seq<seq<nat>>, states: seq<State>, order: seq<nat>, k: nat)
    requires ValidWorld(w) && ValidDestination(w, dest) && KeptUpTo(w, dest, states, order, k) && k < |order|
    ensures KeptUpTo(w, dest, states, order, k + 1)
  {
    assert StepOf(w, states, order, k);
    var solved :| StateInv(w, dest, states[k], solved);
    var _ := StepKeeps(w, dest, states[k], solved, order[k], states[k + 1]);
  }

  lemma KeptAtFirst(w: World, dest: seq<seq<nat>>, states: seq<State>, order: seq<nat>)
    requires ValidWorld(w) && ValidDestination(w, dest) && IsRun(w, dest, states, order)
    ensures KeptUpTo(w, dest, states, order, 0)
  {
    InitialInv(w, dest);
  }

  /** Every state of every run keeps the invariant. */
  lemma RunKeeps(w: World, dest: seq<seq<nat>>, states: seq<State>, order: seq<nat>, k: nat)
    requires ValidWorld(w) && ValidDestination(w, dest) && IsRun(w, dest, states, order) && k <= |order|
    ensures KeptUpTo(w, dest, states, order, k)
  {
    KeptAtFirst(w, dest, states, order);
    for i := 0 to k
      invariant KeptUpTo(w, dest, states, order, i)
    {
      KeptOneMore(w, dest, states, order, i);
    }
  }

  lemma RunOneMore(w: World, dest: seq<seq<nat>>, states: seq<State>, order: seq<nat>, r: nat, st': State)
    requires ValidWorld(w) && ValidDestination(w, dest) && IsRun(w, dest, states, order)
    requires Step(w, states[|order|], r, st') && ValidState(w, st')
    ensures IsRun(w, dest, states + [st'], order + [r])
  {
    var states', order' := states + [st'], order + [r];
    forall k | 0 <= k < |order'| ensures StepOf(w, states', order', k) {
      if k < |order| {
        SameStep(w, states, order, states', order', k);
      }
    }
  }

  lemma SameStep(w: World, states: seq<State>, order: seq<nat>, states': seq<State>, order': seq<nat>, k: nat)
    requires ValidWorld(w) && StepOf(w, states, order, k) && states <= states' && order <= order'
    ensures StepOf(w, states', order', k)
  {
    assert states'[k] == states[k] && states'[k + 1] == states[k + 1] && order'[k] == order[k];
  }

  // ---- The loop ----

  /** Every dirty region is queued. */
  predicate Queued(dirty: seq<bool>, heap: multiset<nat>) {
    && (forall r :: r in heap ==> r < |dirty|)
    && forall r :: 0 <= r < |dirty| && dirty[r] ==> r in heap
  }

  /** Carry the arrival times of a region across one seam, queueing the region behind it if a seed
      improved there. */
  method CrossAndQueue(
    w: World, fields: seq<Option<Field>>, seeds: seq<Seeds>, dirty: seq<bool>, heap: multiset<nat>, r: nat, s: nat)
    returns (seeds': seq<Seeds>, dirty': seq<bool>, heap': multiset<nat>)
    requires ValidWorld(w) && ValidState(w, State(Labels(fields, seeds), dirty))
    requires r < |w.grids| && s in w.outSeams[r] && fields[r].Some? && Queued(dirty, heap)
    ensures State(Labels(fields, seeds'), dirty') == CrossOneSeam(w, State(Labels(fields, seeds), dirty), r, s)
    ensures Queued(dirty', heap')
  {
    dirty', heap' := dirty, heap;
    var improved;
    seeds', improved := CrossSeam(w, fields, seeds, r, s);
    if improved {
      dirty' := dirty'[w.seams[s].to := true];
      heap' := heap' + multiset{w.seams[s].to};
    }
  }

  /** Carry the arrival times of a region just solved across all its seams. */
  method CrossSeams(
    w: World, fields: seq<Option<Field>>, seeds: seq<Seeds>, dirty: seq<bool>, heap: multiset<nat>, r: nat)
    returns (seeds': seq<Seeds>, dirty': seq<bool>, heap': multiset<nat>)
    requires ValidWorld(w) && ValidState(w, State(Labels(fields, seeds), dirty))
    requires r < |w.grids| && fields[r].Some? && Queued(dirty, heap)
    ensures State(Labels(fields, seeds'), dirty') ==
              CrossOut(w, State(Labels(fields, seeds), dirty), r, |w.outSeams[r]|)
    ensures Queued(dirty', heap')
  {
    seeds', dirty', heap' := seeds, dirty, heap;
    for k := 0 to |w.outSeams[r]|
      invariant State(Labels(fields, seeds'), dirty') == CrossOut(w, State(Labels(fields, seeds), dirty), r, k)
      invariant Queued(dirty', heap')
    {
      seeds', dirty', heap' := CrossAndQueue(w, fields, seeds', dirty', heap', r, w.outSeams[r][k]);
    }
  }

  /** The first seeds: zero at every destination cell. */
  method SeedDestination(
    w: World, dest: seq<seq<nat>>) returns (seeds: seq<Seeds>, dirty: seq<bool>, heap: multiset<nat>)
    requires ValidWorld(w) && ValidDestination(w, dest)
    ensures State(Labels(seq(|w.grids|, _ => None), seeds), dirty) == Initial(w, dest) && Queued(dirty, heap)
  {
    seeds := seq(|w.grids|, _ => map[]);
    dirty := seq(|w.grids|, _ => false);
    heap := multiset{};
    for r := 0 to |dest|
      invariant |seeds| == |dirty| == |w.grids| && Queued(dirty, heap)
      invariant forall x :: r <= x < |seeds| ==> seeds[x] == map[] && !dirty[x]
      invariant forall x :: 0 <= x < r ==> seeds[x] == ZeroSeeds(dest[x]) && (dirty[x] <==> dest[x] != [])
    {
      if |dest[r]| != 0 {
        seeds := seeds[r := ZeroSeeds(dest[r])];
        dirty := dirty[r := true];
        heap := heap + multiset{r};
      } else {
        assert ZeroSeeds(dest[r]) == map[];
      }
    }
    assert seeds == Initial(w, dest).labels.seeds && dirty == Initial(w, dest).dirty;
  }

  datatype Result = Converged(fields: seq<Option<Field>>) | NotConverged

  /** The travel times that a result stands for: a region without a field is not reached. */
  ghost function TimesOf(w: World, fields: seq<Option<Field>>): (v: seq<Field>)
    requires |fields| == |w.grids|
    ensures |v| == |fields|
    ensures forall r :: 0 <= r < |v| ==> v[r] == if fields[r].Some? then fields[r].value else Unreached(w.grids[r])
  {
    seq(|fields|, r requires 0 <= r < |fields| => if fields[r].Some? then fields[r].value else Unreached(w.grids[r]))
  }

  /** What converged labels amount to. */
  ghost predicate Converges(w: World, dest: seq<seq<nat>>, fields: seq<Option<Field>>, seeds: seq<Seeds>)
    requires ValidWorld(w) && ValidDestination(w, dest)
  {
    && |fields| == |seeds| == |w.grids|
    && var v := TimesOf(w, fields);
       // no crossing would still improve a cell by more than EPS ...
       && GlobalSubSolution(w, dest, EPS, v)
       // ... no cell undercuts the exact times ...
       && (forall x :: GlobalSubSolution(w, dest, 0.0, x) ==> forall r :: 0 <= r < |v| ==> Below(x[r], v[r]))
       // ... every region holds the cold solution from its seeds ...
       && (forall r :: 0 <= r < |v| ==>
             SeedsFit(w.grids[r], seeds[r]) && Solves(Sweeping(w.grids[r]), SeedField(w.grids[r], seeds[r]), v[r]))
       // ... and exactly the destination cells are at time zero.
       && (forall r, c :: 0 <= r < |v| && 0 <= c < |v[r]| ==> (v[r][c] == Fin(0.0) <==> c in dest[r]))
  }

  lemma ConvergesBy(w: World, dest: seq<seq<nat>>, fields: seq<Option<Field>>, seeds: seq<Seeds>, v: seq<Field>)
    requires ValidWorld(w) && ValidDestination(w, dest) && |fields| == |seeds| == |w.grids| && v == TimesOf(w, fields)
    requires GlobalSubSolution(w, dest, EPS, v)
    requires forall x :: GlobalSubSolution(w, dest, 0.0, x) ==> forall r :: 0 <= r < |v| ==> Below(x[r], v[r])
    requires forall r :: 0 <= r < |v| ==>
               SeedsFit(w.grids[r], seeds[r]) && Solves(Sweeping(w.grids[r]), SeedField(w.grids[r], seeds[r]), v[r])
    requires forall r, c :: 0 <= r < |v| && 0 <= c < |v[r]| ==> (v[r][c] == Fin(0.0) <==> c in dest[r])
    ensures Converges(w, dest, fields, seeds)
  {
  }

  lemma UnreachedSolves(g: Grid)
    requires ValidGrid(g)
    ensures Solves(Sweeping(g), SeedField(g, map[]), Unreached(g))
  {
    var u := EikonalHasOneSolution(g, Unreached(g));
    assert SeedField(g, map[]) == Unreached(g);
    SolvesIffEikonal(g, Unreached(g), u);
    forall c | 0 <= c < Size(g) ensures u[c] == Inf {
      if u[c].Fin? {
        var path := DescentReachesSeed(g, Unreached(g), u, c);
        assert false;
      }
    }
    assert u == Unreached(g);
  }

  /** Region r, once its seeds are those it was solved with. */
  lemma RegionConverges(w: World, dest: seq<seq<nat>>, l: Labels, solved: seq<Seeds>, r: nat)
    requires ValidWorld(w) && ValidDestination(w, dest) && Labelled(w, dest, l, solved)
    requires r < |w.grids| && l.seeds[r] == solved[r]
    ensures var v := TimesOf(w, l.fields);
            && Solves(Sweeping(w.grids[r]), SeedField(w.grids[r], l.seeds[r]), v[r])
            && (forall c :: 0 <= c < |v[r]| ==> (v[r][c] == Fin(0.0) <==> c in dest[r]))
  {
    if l.fields[r].Some? {
      FieldNotNegative(w, dest, l, solved, r);
    } else {
      UnreachedSolves(w.grids[r]);
    }
  }

  lemma CrossingConverges(w: World, dest: seq<seq<nat>>, l: Labels, solved: seq<Seeds>, r: nat, y: nat, q: Pair)
    requires ValidWorld(w) && ValidDestination(w, dest) && Labelled(w, dest, l, solved)
    requires SeamsInv(w, l) && l.seeds == solved && Crosses(w, r, y, q)
    ensures var v := TimesOf(w, l.fields);
            && r < |v| && y < |v| && q.near < |v[r]| && q.far < |v[y]|
            && Le(v[y][q.far], Plus(v[r][q.near], q.cross + EPS))
  {
    assert CrossingSettled(w, l, r, y, q);
    if l.fields[r].Some? {
      RegionConverges(w, dest, l, solved, y);
      assert Le(TimesOf(w, l.fields)[y][q.far], SeedField(w.grids[y], l.seeds[y])[q.far]);
    }
  }

  lemma LabelsConverge(w: World, dest: seq<seq<nat>>, l: Labels, solved: seq<Seeds>)
    requires ValidWorld(w) && ValidDestination(w, dest) && Labelled(w, dest, l, solved)
    requires SeamsInv(w, l) && l.seeds == solved
    ensures Converges(w, dest, l.fields, l.seeds)
  {
    var v := TimesOf(w, l.fields);
    forall r | 0 <= r < |v|
      ensures Solves(Sweeping(w.grids[r]), SeedField(w.grids[r], l.seeds[r]), v[r])
      ensures forall c :: 0 <= c < |v[r]| ==> (v[r][c] == Fin(0.0) <==> c in dest[r])
    {
      RegionConverges(w, dest, l, solved, r);
    }
    forall r: nat, y: nat, q: Pair | Crosses(w, r, y, q)
      ensures Le(v[y][q.far], Plus(v[r][q.near], q.cross + EPS))
    {
      CrossingConverges(w, dest, l, solved, r, y, q);
    }
    forall x, r | GlobalSubSolution(w, dest, 0.0, x) && 0 <= r < |v| ensures Below(x[r], v[r]) {
      assert AboveExact(w, dest, l, x);
    }
  }

  /** A run that leaves no region dirty has converged, whatever the order of its regions. */
  lemma RunConverges(w: World, dest: seq<seq<nat>>, states: seq<State>, order: seq<nat>)
    requires ValidWorld(w) && ValidDestination(w, dest) && IsRun(w, dest, states, order) && Clean(states[|order|])
    ensures Converges(w, dest, states[|order|].labels.fields, states[|order|].labels.seeds)
  {
    RunKeeps(w, dest, states, order, |order|);
    var l := states[|order|].labels;
    var solved :| StateInv(w, dest, states[|order|], solved);
    assert l.seeds == solved;
    LabelsConverge(w, dest, l, solved);
  }

  /** How many solves a destination gets. */
  function Budget(w: World): nat {
    50 * (|w.grids| + |w.seams|) + 100
  }

  /** Some run that uses up the budget leaves a region dirty. */
  ghost predicate Exhausted(w: World, dest: seq<seq<nat>>)
    requires ValidWorld(w) && ValidDestination(w, dest)
  {
    exists states, order :: IsRun(w, dest, states, order) && |order| == Budget(w) && !Clean(states[|order|])
  }

  /** Propagate from the destination until no region is dirty, or the budget is used up. Queued
      regions are popped in any order: nothing below depends on the heap's keys. */
  method Propagate(w: World, dest: seq<seq<nat>>)
    returns (result: Result, ghost seeds: seq<Seeds>, ghost states: seq<State>, ghost order: seq<nat>)
    requires ValidWorld(w) && ValidDestination(w, dest)
    ensures IsRun(w, dest, states, order)
    ensures result.Converged? ==>
              Clean(states[|order|]) && states[|order|].labels == Labels(result.fields, seeds) && |order| <= Budget(w)
    ensures result.Converged? ==> Converges(w, dest, result.fields, seeds)
    ensures result.NotConverged? ==> !Clean(states[|order|]) && |order| == Budget(w)
  {
    var fields: seq<Option<Field>> := seq(|w.grids|, _ => None);
    var labels, dirty, heap := SeedDestination(w, dest);
    var budget := 50 * (|w.grids| + |w.seams|) + 100;
    var pops := 0;
    seeds, states, order := labels, [Initial(w, dest)], [];
    while heap != multiset{}
      invariant pops == |order| <= budget
      invariant IsRun(w, dest, states, order) && states[|order|] == State(Labels(fields, labels), dirty)
      invariant Queued(dirty, heap)
      decreases budget - pops, |heap|
    {
      var r :| r in heap;
      heap := heap - multiset{r};
      if dirty[r] {
        dirty := dirty[r := false];
        pops := pops + 1;
        if pops > budget {
          return NotConverged, labels, states, order;
        }
        ghost var last := states[|order|];
        var field := SolveRegion(w.grids[r], fields[r], labels[r]);
        fields := fields[r := Some(field)];
        labels, dirty, heap := CrossSeams(w, fields, labels, dirty, heap, r);
        ghost var next := State(Labels(fields, labels), dirty);
        assert next == CrossOut(w, WithField(last, r, field), r, |w.outSeams[r]|);
        assert SolvedFrom(w.grids[r], last.labels.fields[r], last.labels.seeds[r], field);
        RunOneMore(w, dest, states, order, r, next);
        states, order := states + [next], order + [r];
      }
    }
    RunConverges(w, dest, states, order);
    return Converged(fields), labels, states, order;
  }
}
