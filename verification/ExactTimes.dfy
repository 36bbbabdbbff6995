// The exact travel times over all regions at once exist and are unique: seams and grids together pose
// one causal relaxation problem (what MultiRegionFloorfield::solve in libfloorfield/src/multi_region.rs
// approximates from above).
module ExactTimes {
  import opened Times
  import opened Relaxation
  import opened FastSweeping
  import opened Propagation

  // ---- All cells of all regions in one list ----

  /** How many cells the regions before r have. */
  function Base(grids: seq<Grid>, r: nat): nat
    requires r <= |grids|
  {
    if r == 0 then 0 else Base(grids, r - 1) + Size(grids[r - 1])
  }

  function Total(grids: seq<Grid>): nat {
    Base(grids, |grids|)
  }

  lemma {:induction false} BasesAscend(grids: seq<Grid>, r: nat, n: nat)
    requires r < n <= |grids|
    ensures Base(grids, r) + Size(grids[r]) <= Base(grids, n)
  {
    if r + 1 < n {
      BasesAscend(grids, r, n - 1);
    }
  }

  /** The region and the cell at index i, among the first n regions. */
  function Locate(grids: seq<Grid>, i: nat, n: nat): (at: (nat, nat))
    requires n <= |grids| && i < Base(grids, n)
    ensures at.0 < n && at.1 < Size(grids[at.0]) && i == Base(grids, at.0) + at.1
  {
    if i >= Base(grids, n - 1) then (n - 1, i - Base(grids, n - 1)) else Locate(grids, i, n - 1)
  }

  function IndexOf(grids: seq<Grid>, r: nat, c: nat): (i: nat)
    requires r < |grids| && c < Size(grids[r])
    ensures i < Total(grids)
  {
    BasesAscend(grids, r, |grids|);
    Base(grids, r) + c
  }

  function At(grids: seq<Grid>, i: nat): (at: (nat, nat))
    requires i < Total(grids)
    ensures at.0 < |grids| && at.1 < Size(grids[at.0]) && IndexOf(grids, at.0, at.1) == i
  {
    Locate(grids, i, |grids|)
  }

  lemma AtIndex(grids: seq<Grid>, r: nat, c: nat)
    requires r < |grids| && c < Size(grids[r])
    ensures At(grids, IndexOf(grids, r, c)) == (r, c)
  {
    var at := At(grids, IndexOf(grids, r, c));
    if at.0 < r {
      BasesAscend(grids, at.0, r);
    } else if r < at.0 {
      BasesAscend(grids, r, at.0);
    }
  }

  ghost function Flat(w: World, v: seq<Field>): (u: Field)
    requires FieldsFit(w, v)
    ensures |u| == Total(w.grids)
    ensures forall i: nat :: i < |u| ==> u[i] == v[At(w.grids, i).0][At(w.grids, i).1]
  {
    seq(Total(w.grids), i requires 0 <= i < Total(w.grids) => v[At(w.grids, i).0][At(w.grids, i).1])
  }

  ghost function Part(w: World, u: Field, r: nat): (f: Field)
    requires |u| == Total(w.grids) && r < |w.grids|
    ensures |f| == Size(w.grids[r])
    ensures forall c: nat :: c < |f| ==> f[c] == u[IndexOf(w.grids, r, c)]
  {
    seq(Size(w.grids[r]), c requires 0 <= c < Size(w.grids[r]) => u[IndexOf(w.grids, r, c)])
  }

  ghost function Parts(w: World, u: Field): (v: seq<Field>)
    requires |u| == Total(w.grids)
    ensures FieldsFit(w, v) && forall r: nat :: r < |v| ==> v[r] == Part(w, u, r)
  {
    seq(|w.grids|, r requires 0 <= r < |w.grids| => Part(w, u, r))
  }

  lemma PartsOfFlat(w: World, v: seq<Field>)
    requires FieldsFit(w, v)
    ensures Parts(w, Flat(w, v)) == v
  {
    forall r: nat | r < |v| ensures Part(w, Flat(w, v), r) == v[r] {
      forall c: nat | c < Size(w.grids[r]) ensures Part(w, Flat(w, v), r)[c] == v[r][c] {
        AtIndex(w.grids, r, c);
      }
    }
  }

  lemma FlatOfParts(w: World, u: Field)
    requires |u| == Total(w.grids)
    ensures Flat(w, Parts(w, u)) == u
  {
    forall i: nat | i < |u| ensures Flat(w, Parts(w, u))[i] == u[i] {
    }
  }

  // ---- What crossings offer ----

  ghost predicate LowerBound(ts: set<Time>, t: Time) {
    forall x :: x in ts ==> Le(t, x)
  }

  lemma {:induction false} HasLeast(ts: set<Time>) returns (t: Time)
    requires ts != {}
    ensures t in ts && LowerBound(ts, t)
    decreases |ts|
  {
    t :| t in ts;
    var rest := ts - {t};
    if rest != {} {
      var x := HasLeast(rest);
      var least := Min(t, x);
      forall y | y in ts ensures Le(least, y) {
        assert y == t || y in rest;
      }
      t := least;
    }
  }

  lemma SomeLeast(ts: set<Time>)
    requires ts != {}
    ensures exists t :: t in ts && LowerBound(ts, t)
  {
    var t := HasLeast(ts);
  }

  /** The times at which a wave can come in at cell c of region y. */
  ghost function Arrivals(w: World, v: seq<Field>, slack: real, y: nat, c: nat): (ts: set<Time>)
    requires ValidWorld(w) && FieldsFit(w, v)
    ensures forall t :: t in ts <==> t == Inf || Arrives(w, v, slack, y, c, t)
  {
    var ts := set r, s, j | 0 <= r < |w.grids| && s in w.outSeams[r] && 0 <= j < |w.seams[s].pairs| &&
                            w.seams[s].to == y && w.seams[s].pairs[j].far == c ::
                ArrivalAt(w, v, slack, r, w.seams[s].pairs[j]);
    forall t | Arrives(w, v, slack, y, c, t) ensures t in ts {
      var r: nat, q: Pair :| Crosses(w, r, y, q) && q.far == c && t == ArrivalAt(w, v, slack, r, q);
      var s :| s in w.outSeams[r] && w.seams[s].to == y && q in w.seams[s].pairs;
      var j :| 0 <= j < |w.seams[s].pairs| && w.seams[s].pairs[j] == q;
    }
    ts + {Inf}
  }

  ghost function ArrivalAt(w: World, v: seq<Field>, slack: real, r: nat, q: Pair): Time {
    if r < |v| && q.near < |v[r]| then Plus(v[r][q.near], q.cross + slack) else Inf
  }

  ghost predicate Arrives(w: World, v: seq<Field>, slack: real, y: nat, c: nat, t: Time)
    requires ValidWorld(w)
  {
    exists r: nat, q: Pair :: Crosses(w, r, y, q) && q.far == c && t == ArrivalAt(w, v, slack, r, q)
  }

  ghost function EarliestArrival(w: World, v: seq<Field>, slack: real, y: nat, c: nat): (t: Time)
    requires ValidWorld(w) && FieldsFit(w, v)
    ensures t in Arrivals(w, v, slack, y, c) && LowerBound(Arrivals(w, v, slack, y, c), t)
  {
    var ts := Arrivals(w, v, slack, y, c);
    SomeLeast(ts);
    var t :| t in ts && LowerBound(ts, t);
    t
  }

  // ---- One problem for all regions ----

  /** What cell i is offered: by its region's update or by a crossing. */
  ghost function GlobalUp(w: World, slack: real, u: Field, i: nat): Time
    requires ValidWorld(w)
  {
    if |u| == Total(w.grids) && i < |u| then
      var at := At(w.grids, i);
      if Walkable(w.grids[at.0], at.1) then
        Min(Sweeping(w.grids[at.0]).up(Part(w, u, at.0), at.1), EarliestArrival(w, Parts(w, u), slack, at.0, at.1))
      else Inf
    else Inf
  }

  ghost function WalkableIndices(w: World): set<nat> {
    set i: nat | i < Total(w.grids) && Walkable(w.grids[At(w.grids, i).0], At(w.grids, i).1)
  }

  ghost function GlobalProblem(w: World, slack: real): Problem
    requires ValidWorld(w)
  {
    Problem(Total(w.grids), WalkableIndices(w), (u: Field, i: nat) => GlobalUp(w, slack, u, i))
  }

  /** Zero at the destination. */
  ghost function GlobalStart(w: World, dest: seq<seq<nat>>): (u: Field)
    requires ValidWorld(w) && ValidDestination(w, dest)
    ensures |u| == Total(w.grids)
    ensures forall i: nat :: i < |u| ==> u[i] == if At(w.grids, i).1 in dest[At(w.grids, i).0] then Fin(0.0) else Inf
  {
    seq(Total(w.grids), i requires 0 <= i < Total(w.grids) => if At(w.grids, i).1 in dest[At(w.grids, i).0] then
      Fin(0.0) else Inf)
  }

  lemma PartsKeepEarlier(w: World, u: Field, v: Field, t: Time, r: nat)
    requires |u| == |v| == Total(w.grids) && KeepsEarlier(u, v, t) && r < |w.grids|
    ensures KeepsEarlier(Part(w, u, r), Part(w, v, r), t)
  {
    forall c: nat | c < Size(w.grids[r]) && Lt(Part(w, u, r)[c], t) ensures Le(Part(w, v, r)[c], Part(w, u, r)[c]) {
      assert u[IndexOf(w.grids, r, c)] == Part(w, u, r)[c];
    }
  }

  /** A crossing takes time, so what it offers rests on a strictly earlier cell. */
  lemma CrossingIsCausal(w: World, slack: real, u: Field, v: Field, r: nat, y: nat, q: Pair)
    requires ValidWorld(w) && slack >= 0.0 && |u| == |v| == Total(w.grids)
    requires Crosses(w, r, y, q) && r < |w.grids| && q.near < Size(w.grids[r]) && q.cross > 0.0
    requires KeepsEarlier(u, v, ArrivalAt(w, Parts(w, u), slack, r, q))
    ensures Le(ArrivalAt(w, Parts(w, v), slack, r, q), ArrivalAt(w, Parts(w, u), slack, r, q))
  {
    var i := IndexOf(w.grids, r, q.near);
    assert Parts(w, u)[r][q.near] == u[i] && Parts(w, v)[r][q.near] == v[i];
  }

  lemma ArrivalIsCausal(w: World, slack: real, u: Field, v: Field, y: nat, c: nat)
    requires ValidWorld(w) && slack >= 0.0 && |u| == |v| == Total(w.grids)
    requires KeepsEarlier(u, v, EarliestArrival(w, Parts(w, u), slack, y, c))
    ensures Le(EarliestArrival(w, Parts(w, v), slack, y, c), EarliestArrival(w, Parts(w, u), slack, y, c))
  {
    var t := EarliestArrival(w, Parts(w, u), slack, y, c);
    if t != Inf {
      var r: nat, q: Pair :| Crosses(w, r, y, q) && q.far == c && t == ArrivalAt(w, Parts(w, u), slack, r, q);
      CrossingPair(w, r, y, q);
      CrossingIsCausal(w, slack, u, v, r, y, q);
      EarliestIsBelow(w, Parts(w, v), slack, r, y, q);
    }
  }

  lemma EarliestIsBelow(w: World, v: seq<Field>, slack: real, r: nat, y: nat, q: Pair)
    requires ValidWorld(w) && FieldsFit(w, v) && Crosses(w, r, y, q)
    ensures Le(EarliestArrival(w, v, slack, y, q.far), ArrivalAt(w, v, slack, r, q))
  {
    assert Arrives(w, v, slack, y, q.far, ArrivalAt(w, v, slack, r, q));
    assert ArrivalAt(w, v, slack, r, q) in Arrivals(w, v, slack, y, q.far);
  }

  lemma CrossingPair(w: World, r: nat, y: nat, q: Pair)
    requires ValidWorld(w) && Crosses(w, r, y, q)
    ensures r < |w.grids| && y < |w.grids| && ValidPair(w.grids[r], w.grids[y], q)
  {
  }

  lemma UpIsCausal(w: World, slack: real, u: Field, v: Field, i: nat)
    requires ValidWorld(w) && slack >= 0.0 && |u| == |v| == Total(w.grids) && i < |u|
    requires KeepsEarlier(u, v, GlobalUp(w, slack, u, i))
    ensures Le(GlobalUp(w, slack, v, i), GlobalUp(w, slack, u, i))
  {
    var at := At(w.grids, i);
    var g := w.grids[at.0];
    if Walkable(g, at.1) {
      var inside, across := Sweeping(g).up(Part(w, u, at.0), at.1), EarliestArrival(w, Parts(w, u), slack, at.0, at.1);
      if Le(inside, across) {
        SweepingIsCausal(g);
        PartsKeepEarlier(w, u, v, inside, at.0);
        ByCausality(Sweeping(g), Part(w, u, at.0), Part(w, v, at.0), at.1);
      } else {
        ArrivalIsCausal(w, slack, u, v, at.0, at.1);
      }
    }
  }

  /** Grids and seams together are a causal problem. */
  lemma GlobalIsValid(w: World, slack: real)
    requires ValidWorld(w) && slack >= 0.0
    ensures ValidProblem(GlobalProblem(w, slack))
  {
    var p := GlobalProblem(w, slack);
    forall u: Field, v: Field, i: nat | |u| == p.size && i < p.size && KeepsEarlier(u, v, p.up(u, i))
      ensures Le(p.up(v, i), p.up(u, i))
    {
      UpIsCausal(w, slack, u, v, i);
    }
    forall u: Field, i: nat | i !in p.free ensures p.up(u, i) == Inf {
      assert p.up(u, i) == GlobalUp(w, slack, u, i);
    }
  }

  // ---- Its subsolutions ----

  lemma FlatIsSubSolution(w: World, dest: seq<seq<nat>>, slack: real, v: seq<Field>)
    requires ValidWorld(w) && ValidDestination(w, dest) && GlobalSubSolution(w, dest, slack, v)
    ensures SubSolution(GlobalProblem(w, slack), Flat(w, v)) && Below(Flat(w, v), GlobalStart(w, dest))
  {
    var p, u := GlobalProblem(w, slack), Flat(w, v);
    PartsOfFlat(w, v);
    forall i: nat | i < |u| ensures Le(u[i], p.up(u, i)) && Le(u[i], GlobalStart(w, dest)[i]) {
      var at := At(w.grids, i);
      assert p.up(u, i) == GlobalUp(w, slack, u, i);
      if Walkable(w.grids[at.0], at.1) {
        assert SubSolution(Sweeping(w.grids[at.0]), v[at.0]) && Part(w, u, at.0) == v[at.0];
        var t := EarliestArrival(w, v, slack, at.0, at.1);
        if t != Inf {
          var r: nat, q: Pair :| Crosses(w, r, at.0, q) && q.far == at.1 && t == ArrivalAt(w, v, slack, r, q);
          CrossingPair(w, r, at.0, q);
        }
      }
    }
  }

  lemma PartsAreSubSolution(w: World, dest: seq<seq<nat>>, slack: real, u: Field)
    requires ValidWorld(w) && ValidDestination(w, dest)
    requires SubSolution(GlobalProblem(w, slack), u) && Below(u, GlobalStart(w, dest))
    ensures GlobalSubSolution(w, dest, slack, Parts(w, u))
  {
    var v := Parts(w, u);
    forall r: nat | r < |v| ensures SubSolution(Sweeping(w.grids[r]), v[r]) {
      SweepingIsCausal(w.grids[r]);
      forall c: nat | c < |v[r]| ensures Le(v[r][c], Sweeping(w.grids[r]).up(v[r], c)) {
        if Walkable(w.grids[r], c) {
          OfferedAt(w, slack, u, r, c);
        }
      }
    }
    forall r, c | 0 <= r < |v| && c in dest[r] ensures Le(v[r][c], Fin(0.0)) {
      AtIndex(w.grids, r, c);
      assert Le(u[IndexOf(w.grids, r, c)], GlobalStart(w, dest)[IndexOf(w.grids, r, c)]);
    }
    forall r: nat, y: nat, q: Pair | Crosses(w, r, y, q) ensures Le(v[y][q.far], Plus(v[r][q.near], q.cross + slack)) {
      CrossingPair(w, r, y, q);
      OfferedAt(w, slack, u, y, q.far);
      EarliestIsBelow(w, v, slack, r, y, q);
    }
  }

  lemma OfferedAt(w: World, slack: real, u: Field, r: nat, c: nat)
    requires ValidWorld(w) && SubSolution(GlobalProblem(w, slack), u)
    requires r < |w.grids| && c < Size(w.grids[r]) && Walkable(w.grids[r], c)
    ensures Le(Part(w, u, r)[c], Sweeping(w.grids[r]).up(Part(w, u, r), c))
    ensures Le(Part(w, u, r)[c], EarliestArrival(w, Parts(w, u), slack, r, c))
  {
    var i := IndexOf(w.grids, r, c);
    AtIndex(w.grids, r, c);
    assert Le(u[i], GlobalProblem(w, slack).up(u, i));
    assert GlobalProblem(w, slack).up(u, i) == GlobalUp(w, slack, u, i);
  }

  // ---- The exact times ----

  /** A causal problem has a solution: as many passes as there are cells reach it. */
  lemma SolutionExists(p: Problem, start: Field) returns (u: Field)
    requires ValidProblem(p) && |start| == p.size
    ensures Solves(p, start, u)
  {
    var order := seq(p.size, i requires 0 <= i < p.size => i);
    assert Covers(order, p.free) by {
      forall c | c in p.free ensures c in order {
        assert order[c] == c;
      }
    }
    u := start;
    SettledAtLeastZero(p, u);
    StartIsAbove(p, start);
    for n := 0 to |p.free|
      invariant |u| == p.size && SettledAtLeast(p, u, n) && AboveSubSolutions(p, start, u)
    {
      PassSettlesOneMore(p, u, order, n);
      PassStaysAbove(p, start, u, order);
      u := Pass(p, u, order);
    }
    EnoughSettled(p, u, |p.free|);
  }

  /** Over all regions at once there is exactly one field of travel times. */
  lemma ExactTimesExist(w: World, dest: seq<seq<nat>>, slack: real) returns (v: seq<Field>)
    requires ValidWorld(w) && ValidDestination(w, dest) && slack >= 0.0
    ensures Exact(w, dest, slack, v)
    ensures forall x :: Exact(w, dest, slack, x) ==> x == v
  {
    GlobalIsValid(w, slack);
    var u := SolutionExists(GlobalProblem(w, slack), GlobalStart(w, dest));
    v := Parts(w, u);
    PartsAreSubSolution(w, dest, slack, u);
    forall x, r: nat | GlobalSubSolution(w, dest, slack, x) && r < |v| ensures Below(x[r], v[r]) {
      FlatIsSubSolution(w, dest, slack, x);
      BelowByParts(w, x, u, r);
    }
    forall x | Exact(w, dest, slack, x) ensures x == v {
      forall r: nat | r < |v| ensures x[r] == v[r] {
        BelowAntisymmetric(x[r], v[r]);
      }
    }
  }

  lemma BelowByParts(w: World, x: seq<Field>, u: Field, r: nat)
    requires FieldsFit(w, x) && |u| == Total(w.grids) && Below(Flat(w, x), u) && r < |w.grids|
    ensures Below(x[r], Part(w, u, r))
  {
    forall c: nat | c < Size(w.grids[r]) ensures Le(x[r][c], Part(w, u, r)[c]) {
      AtIndex(w.grids, r, c);
      assert Le(Flat(w, x)[IndexOf(w.grids, r, c)], u[IndexOf(w.grids, r, c)]);
    }
  }
}
