// How many solves a propagation needs, and when its budget cannot be enough
// (MultiRegionFloorfield::solve in libfloorfield/src/multi_region.rs).
module Budgets {
  import opened Wrappers
  import opened Times
  import opened Relaxation
  import opened FastSweeping
  import opened TravelTimes
  import opened Propagation

  // ---- One more crossing, one more solve ----

  /** Walkable cells next to each other. */
  ghost predicate Adjacent(g: Grid, c: nat, n: nat) {
    c < Size(g) && n < Size(g) && Walkable(g, c) && Walkable(g, n) && Neighbors(g, c, n)
  }

  /** A bound for how many seams lie between the destination and a cell: zero in the destination, the same for
      walkable cells next to each other, and at most one more behind a seam. */
  ghost predicate Counts(w: World, dest: seq<seq<nat>>, level: (nat, nat) -> nat)
    requires ValidWorld(w) && ValidDestination(w, dest)
  {
    && (forall r: nat, c: nat {:trigger level(r, c)} :: r < |dest| && c in dest[r] ==> level(r, c) == 0)
    && (forall r: nat, c: nat, n: nat {:trigger Adjacent(w.grids[r], c, n)} ::
          r < |w.grids| && Adjacent(w.grids[r], c, n) ==> level(r, c) == level(r, n))
    && forall r: nat, y: nat, q: Pair {:trigger Crosses(w, r, y, q)} ::
         Crosses(w, r, y, q) ==> level(y, q.far) <= level(r, q.near) + 1
  }

  /** Seeds are known only up to level k, and times only below it. */
  ghost predicate KnownBelow(w: World, l: Labels, level: (nat, nat) -> nat, k: nat)
    requires ValidWorld(w) && Shaped(w, l)
  {
    && (forall r: nat, c: nat {:trigger c in l.seeds[r]} :: r < |w.grids| && c in l.seeds[r] ==> level(r, c) <= k)
    && forall r: nat, c: nat {:trigger l.fields[r].value[c]} ::
         r < |w.grids| && l.fields[r].Some? && c < Size(w.grids[r]) && l.fields[r].value[c].Fin? ==> level(r, c) < k
  }

  /** A time in a region comes from a seed of the same level. */
  lemma LevelOfSeed(w: World, dest: seq<seq<nat>>, level: (nat, nat) -> nat, r: nat, seeds: Seeds, u: Field, c: nat)
    returns (seed: nat)
    requires ValidWorld(w) && ValidDestination(w, dest) && Counts(w, dest, level) && r < |w.grids|
    requires SeedsFit(w.grids[r], seeds) && Solves(Sweeping(w.grids[r]), SeedField(w.grids[r], seeds), u)
    requires c < |u| && u[c].Fin?
    ensures seed in seeds && level(r, c) == level(r, seed)
  {
    var g := w.grids[r];
    var path := DescentReachesSeed(g, SeedField(g, seeds), u, c);
    seed := path[|path| - 1];
    var k := |path| - 1;
    SolvesIffEikonal(g, SeedField(g, seeds), u);
    while k > 0
      invariant 0 <= k < |path| && level(r, path[k]) == level(r, seed) && u[path[k]].Fin?
    {
      assert Lt(u[path[k]], u[path[k - 1]]) && Neighbors(g, path[k - 1], path[k]);
      FiniteDownhill(g, u, path, k - 1);
      assert Adjacent(g, path[k - 1], path[k]);
      k := k - 1;
    }
  }

  /** All of a descent from a reached cell is reached. */
  lemma {:induction false} FiniteDownhill(g: Grid, u: Field, path: seq<nat>, k: nat)
    requires Descending(g, u, path) && u[path[0]].Fin? && k < |path|
    ensures u[path[k]].Fin?
  {
    if k > 0 {
      FiniteDownhill(g, u, path, k - 1);
      assert Lt(u[path[k]], u[path[k - 1]]);
    }
  }

  lemma SolvedBelow(
    w: World, dest: seq<seq<nat>>, level: (nat, nat) -> nat, st: State, r: nat, field: Field, k: nat)
    requires ValidWorld(w) && ValidDestination(w, dest) && Counts(w, dest, level) && ValidState(w, st)
    requires KnownBelow(w, st.labels, level, k) && r < |w.grids|
    requires Solves(Sweeping(w.grids[r]), SeedField(w.grids[r], st.labels.seeds[r]), field)
    ensures ValidState(w, WithField(st, r, field)) && KnownBelow(w, WithField(st, r, field).labels, level, k + 1)
  {
    forall c: nat | c < Size(w.grids[r]) && field[c].Fin? ensures level(r, c) <= k {
      var seed := LevelOfSeed(w, dest, level, r, st.labels.seeds[r], field, c);
    }
    assert |field| == Size(w.grids[r]);
  }

  /** Seeds up to level k + 1 and times up to level k stay so when times are carried across seams. */
  lemma CarryBelow(
    w: World, dest: seq<seq<nat>>, level: (nat, nat) -> nat, l: Labels, r: nat, s: nat, i: nat, k: nat, l': Labels)
    requires ValidWorld(w) && ValidDestination(w, dest) && Counts(w, dest, level) && Shaped(w, l)
    requires KnownBelow(w, l, level, k + 1) && l.fields != [] && r < |w.grids| && l.fields[r].Some?
    requires s in w.outSeams[r] && i < |w.seams[s].pairs|
    requires l' == Carry(w, l, r, w.seams[s].to, w.seams[s].pairs[i])
    ensures KnownBelow(w, l', level, k + 1)
  {
    var y, q := w.seams[s].to, w.seams[s].pairs[i];
    assert Crosses(w, r, y, q);
    forall x: nat, c: nat | x < |w.grids| && c in l'.seeds[x] ensures level(x, c) <= k + 1 {
      if x == y && c == q.far && l' != l {
        assert l.fields[r].value[q.near].Fin?;
      } else {
        assert c in l.seeds[x];
      }
    }
  }

  lemma CrossOutBelow(
    w: World, dest: seq<seq<nat>>, level: (nat, nat) -> nat, st: State, r: nat, n: nat, k: nat, st': State)
    requires ValidWorld(w) && ValidDestination(w, dest) && Counts(w, dest, level) && ValidState(w, st)
    requires KnownBelow(w, st.labels, level, k + 1)
    requires r < |w.grids| && n <= |w.outSeams[r]| && st.labels.fields[r].Some? && st' == CrossOut(w, st, r, n)
    ensures KnownBelow(w, st'.labels, level, k + 1)
  {
    var cur := st;
    for i := 0 to n
      invariant ValidState(w, cur) && cur == CrossOut(w, st, r, i) && KnownBelow(w, cur.labels, level, k + 1)
    {
      var s := w.outSeams[r][i];
      var next := CrossOneSeam(w, cur, r, s);
      SeamBelow(w, dest, level, cur.labels, r, s, |w.seams[s].pairs|, k, next.labels);
      cur := next;
    }
  }

  lemma SeamBelow(
    w: World, dest: seq<seq<nat>>, level: (nat, nat) -> nat, l: Labels, r: nat, s: nat, n: nat, k: nat, l': Labels)
    requires ValidWorld(w) && ValidDestination(w, dest) && Counts(w, dest, level) && Shaped(w, l)
    requires KnownBelow(w, l, level, k + 1) && r < |w.grids| && l.fields[r].Some?
    requires s in w.outSeams[r] && n <= |w.seams[s].pairs| && l' == CarrySeam(w, l, r, s, n)
    ensures KnownBelow(w, l', level, k + 1)
  {
    var cur := l;
    for i := 0 to n
      invariant Shaped(w, cur) && cur == CarrySeam(w, l, r, s, i) && KnownBelow(w, cur, level, k + 1)
    {
      var next := Carry(w, cur, r, w.seams[s].to, w.seams[s].pairs[i]);
      CarryBelow(w, dest, level, cur, r, s, i, k, next);
      cur := next;
    }
  }

  lemma StepBelow(
    w: World, dest: seq<seq<nat>>, level: (nat, nat) -> nat, st: State, r: nat, k: nat, st': State)
    requires ValidWorld(w) && ValidDestination(w, dest) && Counts(w, dest, level) && Inv(w, dest, st)
    requires KnownBelow(w, st.labels, level, k) && Step(w, st, r, st')
    ensures KnownBelow(w, st'.labels, level, k + 1)
  {
    var solved :| StateInv(w, dest, st, solved);
    var field :| SolvedFrom(w.grids[r], st.labels.fields[r], st.labels.seeds[r], field) &&
      st' == CrossOut(w, WithField(st, r, field), r, |w.outSeams[r]|);
    SolvedCold(w, dest, st.labels, solved, r, field);
    SolvedBelow(w, dest, level, st, r, field, k);
    CrossOutBelow(w, dest, level, WithField(st, r, field), r, |w.outSeams[r]|, k, st');
  }

  ghost predicate KeptBelow(
    w: World, dest: seq<seq<nat>>, level: (nat, nat) -> nat, states: seq<State>, order: seq<nat>, k: nat)
    requires ValidWorld(w) && ValidDestination(w, dest)
  {
    KeptUpTo(w, dest, states, order, k) && KnownBelow(w, states[k].labels, level, k)
  }

  lemma BelowOneMore(
    w: World, dest: seq<seq<nat>>, level: (nat, nat) -> nat, states: seq<State>, order: seq<nat>, k: nat)
    requires ValidWorld(w) && ValidDestination(w, dest) && Counts(w, dest, level) && k < |order|
    requires KeptBelow(w, dest, level, states, order, k)
    ensures KeptBelow(w, dest, level, states, order, k + 1)
  {
    KeptOneMore(w, dest, states, order, k);
    assert StepOf(w, states, order, k);
    StepBelow(w, dest, level, states[k], order[k], k, states[k + 1]);
  }

  /** After k solves, of whatever regions, nothing is known of cells behind more than k seams, and no time of
      cells behind k seams. */
  lemma SolvesReachLevels(
    w: World, dest: seq<seq<nat>>, level: (nat, nat) -> nat, states: seq<State>, order: seq<nat>, k: nat)
    requires ValidWorld(w) && ValidDestination(w, dest) && Counts(w, dest, level)
    requires IsRun(w, dest, states, order) && k <= |order|
    ensures KnownBelow(w, states[k].labels, level, k)
  {
    KeptAtFirst(w, dest, states, order);
    for i := 0 to k
      invariant KeptBelow(w, dest, level, states, order, i)
    {
      BelowOneMore(w, dest, level, states, order, i);
    }
  }

  // ---- Cells that can be reached ----

  /** From one cell to the next: to a walkable cell beside it, or across a seam. */
  ghost predicate Onward(w: World, a: (nat, nat), b: (nat, nat))
    requires ValidWorld(w)
  {
    || (a.0 == b.0 < |w.grids| && Adjacent(w.grids[a.0], b.1, a.1))
    || exists q: Pair :: Crosses(w, a.0, b.0, q) && q.near == a.1 && q.far == b.1
  }

  /** A way from a destination cell. */
  ghost predicate IsWay(w: World, dest: seq<seq<nat>>, way: seq<(nat, nat)>)
    requires ValidWorld(w) && ValidDestination(w, dest)
  {
    && way != [] && way[0].0 < |dest| && way[0].1 in dest[way[0].0]
    && forall k {:trigger Onward(w, way[k], way[k + 1])} :: 0 <= k < |way| - 1 ==> Onward(w, way[k], way[k + 1])
  }

  ghost predicate Timed(w: World, fields: seq<Option<Field>>, a: (nat, nat))
    requires |fields| == |w.grids|
  {
    a.0 < |w.grids| && fields[a.0].Some? && a.1 < |fields[a.0].value| && fields[a.0].value[a.1].Fin?
  }

  lemma LeadsOn(
    w: World, dest: seq<seq<nat>>, fields: seq<Option<Field>>, seeds: seq<Seeds>, a: (nat, nat), b: (nat, nat))
    requires ValidWorld(w) && ValidDestination(w, dest) && Converges(w, dest, fields, seeds)
    requires Timed(w, fields, a) && Onward(w, a, b)
    ensures Timed(w, fields, b)
  {
    var v := TimesOf(w, fields);
    if q: Pair :| Crosses(w, a.0, b.0, q) && q.near == a.1 && q.far == b.1 {
      assert Le(v[b.0][q.far], Plus(v[a.0][q.near], q.cross + EPS));
      assert |v[b.0]| == Size(w.grids[b.0]);
    } else {
      var g := w.grids[a.0];
      SolvesIffEikonal(g, SeedField(g, seeds[a.0]), v[a.0]);
      NeighborsReach(g, SeedField(g, seeds[a.0]), v[a.0], b.1, a.1);
    }
  }

  /** A converged propagation has a time for every cell that a way leads to. */
  lemma WaysAreTimed(
    w: World, dest: seq<seq<nat>>, fields: seq<Option<Field>>, seeds: seq<Seeds>, way: seq<(nat, nat)>)
    requires ValidWorld(w) && ValidDestination(w, dest) && Converges(w, dest, fields, seeds) && IsWay(w, dest, way)
    ensures Timed(w, fields, way[|way| - 1])
  {
    var v := TimesOf(w, fields);
    assert v[way[0].0][way[0].1] == Fin(0.0);
    for k := 0 to |way| - 1
      invariant Timed(w, fields, way[k])
    {
      assert Onward(w, way[k], way[k + 1]);
      LeadsOn(w, dest, fields, seeds, way[k], way[k + 1]);
    }
  }

  /** So a run that leaves no region dirty has more solves than there are seams before any cell that a way leads
      to, whatever the order of its regions. */
  lemma CleanRunsAreLong(
    w: World, dest: seq<seq<nat>>, level: (nat, nat) -> nat, states: seq<State>, order: seq<nat>,
    way: seq<(nat, nat)>)
    requires ValidWorld(w) && ValidDestination(w, dest) && Counts(w, dest, level)
    requires IsRun(w, dest, states, order) && Clean(states[|order|]) && IsWay(w, dest, way)
    ensures var last := way[|way| - 1]; level(last.0, last.1) < |order|
  {
    var l := states[|order|].labels;
    RunConverges(w, dest, states, order);
    WaysAreTimed(w, dest, l.fields, l.seeds, way);
    SolvesReachLevels(w, dest, level, states, order, |order|);
  }

  /** The budget is not enough for a cell behind as many seams: no run within it converges. */
  lemma BudgetRunsOut(w: World, dest: seq<seq<nat>>, level: (nat, nat) -> nat, way: seq<(nat, nat)>)
    requires ValidWorld(w) && ValidDestination(w, dest) && Counts(w, dest, level) && IsWay(w, dest, way)
    requires var last := way[|way| - 1]; level(last.0, last.1) >= Budget(w)
    ensures forall states, order :: IsRun(w, dest, states, order) && |order| <= Budget(w) ==> !Clean(states[|order|])
  {
    forall states, order | IsRun(w, dest, states, order) && |order| <= Budget(w) ensures !Clean(states[|order|]) {
      if Clean(states[|order|]) {
        CleanRunsAreLong(w, dest, level, states, order, way);
      }
    }
  }

  // ---- What using up the budget takes ----

  ghost function Solved(order: seq<nat>, n: nat): nat {
    if n == 0 then 0 else Solved(order, n - 1) + multiset(order)[n - 1]
  }

  lemma {:induction false} SolvedOneMore(order: seq<nat>, r: nat, n: nat)
    ensures Solved(order + [r], n) == Solved(order, n) + (if r < n then 1 else 0)
  {
    if n > 0 {
      SolvedOneMore(order, r, n - 1);
    }
  }

  lemma SolvedInAll(order: seq<nat>, n: nat)
    requires forall r :: r in order ==> r < n
    ensures Solved(order, n) == |order|
  {
    SolvedNone(n);
    for k := 0 to |order|
      invariant Solved(order[..k], n) == k
    {
      assert order[..k + 1] == order[..k] + [order[k]];
      assert order[k] in order;
      SolvedOneMore(order[..k], order[k], n);
    }
    assert order[..|order|] == order;
  }

  lemma {:induction false} SolvedNone(n: nat)
    ensures Solved([], n) == 0
  {
    if n > 0 {
      SolvedNone(n - 1);
    }
  }

  lemma {:induction false} SolvedAtMost(order: seq<nat>, n: nat, most: nat)
    requires forall r :: 0 <= r < n ==> multiset(order)[r] <= most
    ensures Solved(order, n) <= n * most
  {
    if n > 0 {
      SolvedAtMost(order, n - 1, most);
      assert n * most == (n - 1) * most + most;
    }
  }

  /** Unless some region is solved more than fifty times, the budget is not used up. */
  lemma BudgetAllowsFiftyEach(w: World, dest: seq<seq<nat>>, states: seq<State>, order: seq<nat>)
    requires ValidWorld(w) && ValidDestination(w, dest) && IsRun(w, dest, states, order)
    requires forall r :: 0 <= r < |w.grids| ==> multiset(order)[r] <= 50
    ensures |order| < Budget(w)
  {
    forall r | r in order ensures r < |w.grids| {
      var k :| 0 <= k < |order| && order[k] == r;
      assert StepOf(w, states, order, k);
    }
    SolvedInAll(order, |w.grids|);
    SolvedAtMost(order, |w.grids|, 50);
  }
}
