// How far converged travel times can be from the exact ones: the tolerance EPS of one crossing adds up
// at most once per cell (MultiRegionFloorfield::solve in libfloorfield/src/multi_region.rs).
module Tolerance {
  import opened Wrappers
  import opened Times
  import opened Cells
  import opened Relaxation
  import opened FastSweeping
  import opened Propagation
  import opened ExactTimes
  import Godunov

  // ---- A field later by d offers times later by d ----

  ghost function Shifted(u: Field, d: real): (s: Field)
    ensures |s| == |u| && forall c :: 0 <= c < |s| ==> s[c] == Plus(u[c], d)
  {
    seq(|u|, c requires 0 <= c < |u| => Plus(u[c], d))
  }

  lemma MinShifts(a: Time, b: Time, d: real)
    ensures Min(Plus(a, d), Plus(b, d)) == Plus(Min(a, b), d)
  {
  }

  lemma MinXShifts(g: Grid, u: Field, c: nat, d: real)
    requires |u| == Size(g) && c < Size(g)
    ensures MinX(g, Shifted(u, d), c) == Plus(MinX(g, u, c), d)
  {
    CellOfRowCol(g.width, g.height, c);
    var i, j := Row(g.width, c), Col(g.width, c);
    NeighborCells(g.width, g.height, i, j);
    MinShifts(if j > 0 then u[Cell(g.width, i, j - 1)] else Inf, if j + 1 < g.width then u[Cell(g.width, i, j + 1)]
      else Inf, d);
  }

  lemma MinYShifts(g: Grid, u: Field, c: nat, d: real)
    requires |u| == Size(g) && c < Size(g)
    ensures MinY(g, Shifted(u, d), c) == Plus(MinY(g, u, c), d)
  {
    CellOfRowCol(g.width, g.height, c);
    var i, j := Row(g.width, c), Col(g.width, c);
    NeighborCells(g.width, g.height, i, j);
    MinShifts(if i > 0 then u[Cell(g.width, i - 1, j)] else Inf, if i + 1 < g.height then u[Cell(g.width, i + 1, j)]
      else Inf, d);
  }

  lemma OfferShifts(g: Grid, u: Field, c: nat, d: real)
    requires ValidGrid(g) && |u| == Size(g) && c < Size(g)
    ensures Sweeping(g).up(Shifted(u, d), c) == Plus(Sweeping(g).up(u, c), d)
  {
    if Walkable(g, c) {
      PositiveCost(g, c);
      MinXShifts(g, u, c, d);
      MinYShifts(g, u, c, d);
      Godunov.UpdateShifts(g.root, MinX(g, u, c), MinY(g, u, c), g.cellSize / g.speed[c], d);
    }
  }

  /** If all strictly earlier cells are at most d later, the offer is at most d later. */
  lemma OfferWithin(g: Grid, e: Field, s: Field, c: nat, d: real)
    requires ValidGrid(g) && |e| == |s| == Size(g) && c < Size(g)
    requires forall n :: 0 <= n < |e| && Lt(e[n], Sweeping(g).up(e, c)) ==> Le(s[n], Plus(e[n], d))
    ensures Le(Sweeping(g).up(s, c), Plus(Sweeping(g).up(e, c), d))
  {
    var x := Shifted(e, d);
    OfferShifts(g, e, c, d);
    assert KeepsEarlier(x, s, Sweeping(g).up(x, c)) by {
      forall n | 0 <= n < |x| && Lt(x[n], Sweeping(g).up(x, c)) ensures Le(s[n], x[n]) {
        assert Lt(e[n], Sweeping(g).up(e, c));
      }
    }
    SweepingIsCausal(g);
    ByCausality(Sweeping(g), x, s, c);
  }

  // ---- Ranks ----

  /** The walkable cells that are strictly before cell i. */
  ghost function Earlier(w: World, e: Field, i: nat): set<nat>
    requires |e| == Total(w.grids) && i < |e|
  {
    set n | n in WalkableIndices(w) && n < |e| && Lt(e[n], e[i])
  }

  ghost function Allowance(w: World, e: Field, i: nat): real
    requires |e| == Total(w.grids) && i < |e|
  {
    |Earlier(w, e, i)| as real * EPS
  }

  lemma SubsetSmaller(a: set<nat>, b: set<nat>, x: nat)
    requires a <= b && x in b && x !in a
    ensures |a| < |b|
  {
    CardinalityOfSubset(a, b);
  }

  lemma EarlierShrinks(w: World, e: Field, n: nat, i: nat)
    requires |e| == Total(w.grids) && i < |e| && n in WalkableIndices(w) && n < |e| && Lt(e[n], e[i])
    ensures |Earlier(w, e, n)| < |Earlier(w, e, i)|
    ensures Allowance(w, e, n) + EPS <= Allowance(w, e, i)
  {
    SubsetSmaller(Earlier(w, e, n), Earlier(w, e, i), n);
  }

  // ---- The bound ----

  /** e solves the problem without slack; s meets the one with slack EPS. */
  ghost predicate Compared(w: World, dest: seq<seq<nat>>, e: Field, s: Field) {
    && ValidWorld(w) && ValidDestination(w, dest)
    && Equation(GlobalProblem(w, 0.0), GlobalStart(w, dest), e)
    && SubSolution(GlobalProblem(w, EPS), s) && Below(s, GlobalStart(w, dest))
  }

  /** Every cell strictly before i is late by no more than its allowance, hence than that of i less
      one EPS. */
  ghost predicate EarlierWithin(w: World, e: Field, s: Field, i: nat) {
    && |e| == |s| == Total(w.grids) && i < |e|
    && forall n: nat :: n < |e| && Lt(e[n], e[i]) ==> Le(s[n], Plus(e[n], Allowance(w, e, i) - EPS))
  }

  lemma InsideWithin(w: World, dest: seq<seq<nat>>, e: Field, s: Field, i: nat)
    requires Compared(w, dest, e, s) && EarlierWithin(w, e, s, i)
    requires var at := At(w.grids, i);
             Walkable(w.grids[at.0], at.1) && e[i] == Sweeping(w.grids[at.0]).up(Part(w, e, at.0), at.1)
    ensures Le(s[i], Plus(e[i], Allowance(w, e, i)))
  {
    var at := At(w.grids, i);
    var g, pe, ps := w.grids[at.0], Part(w, e, at.0), Part(w, s, at.0);
    forall n: nat | n < |pe| && Lt(pe[n], Sweeping(g).up(pe, at.1)) ensures Le(ps[n], Plus(pe[n], Allowance(w, e, i))) {
      assert pe[n] == e[IndexOf(w.grids, at.0, n)] && ps[n] == s[IndexOf(w.grids, at.0, n)];
    }
    OfferWithin(g, pe, ps, at.1, Allowance(w, e, i));
    OfferedAt(w, EPS, s, at.0, at.1);
  }

  lemma AcrossWithin(w: World, dest: seq<seq<nat>>, e: Field, s: Field, i: nat)
    requires Compared(w, dest, e, s) && EarlierWithin(w, e, s, i) && e[i].Fin?
    requires var at := At(w.grids, i);
             Walkable(w.grids[at.0], at.1) && e[i] == EarliestArrival(w, Parts(w, e), 0.0, at.0, at.1)
    ensures Le(s[i], Plus(e[i], Allowance(w, e, i)))
  {
    var at := At(w.grids, i);
    var r: nat, q: Pair :| Crosses(w, r, at.0, q) && q.far == at.1 && e[i] == ArrivalAt(w, Parts(w, e), 0.0, r, q);
    CrossingPair(w, r, at.0, q);
    CrossingWithin(w, e, s, i, r, q);
    EarliestIsBelow(w, Parts(w, s), EPS, r, at.0, q);
    OfferedAt(w, EPS, s, at.0, at.1);
  }

  lemma CrossingWithin(w: World, e: Field, s: Field, i: nat, r: nat, q: Pair)
    requires EarlierWithin(w, e, s, i) && e[i].Fin?
    requires r < |w.grids| && q.near < Size(w.grids[r]) && q.cross > 0.0 && e[i] == ArrivalAt(w, Parts(w, e), 0.0, r, q)
    ensures Le(ArrivalAt(w, Parts(w, s), EPS, r, q), Plus(e[i], Allowance(w, e, i)))
  {
    var n := IndexOf(w.grids, r, q.near);
    assert Parts(w, e)[r][q.near] == e[n] && Parts(w, s)[r][q.near] == s[n];
    assert Lt(e[n], e[i]);
  }

  /** A cell is late by at most EPS for every walkable cell strictly before it. */
  lemma {:induction false} WithinAllowance(w: World, dest: seq<seq<nat>>, e: Field, s: Field, i: nat)
    requires Compared(w, dest, e, s) && |e| == |s| == Total(w.grids) && i < |e|
    ensures Le(s[i], Plus(e[i], Allowance(w, e, i)))
    decreases |Earlier(w, e, i)|
  {
    var up := GlobalUp(w, 0.0, e, i);
    assert e[i] == Min(GlobalStart(w, dest)[i], GlobalProblem(w, 0.0).up(e, i));
    if e[i].Fin? && e[i] != GlobalStart(w, dest)[i] {
      forall n: nat | n < |e| && Lt(e[n], e[i]) ensures Le(s[n], Plus(e[n], Allowance(w, e, i) - EPS)) {
        FiniteIsWalkable(w, dest, e, s, n);
        EarlierShrinks(w, e, n, i);
        WithinAllowance(w, dest, e, s, n);
      }
      var at := At(w.grids, i);
      if e[i] == Sweeping(w.grids[at.0]).up(Part(w, e, at.0), at.1) {
        InsideWithin(w, dest, e, s, i);
      } else {
        AcrossWithin(w, dest, e, s, i);
      }
    }
  }

  lemma FiniteIsWalkable(w: World, dest: seq<seq<nat>>, e: Field, s: Field, n: nat)
    requires Compared(w, dest, e, s) && |e| == Total(w.grids) && n < |e| && e[n].Fin?
    ensures n in WalkableIndices(w)
  {
    var at := At(w.grids, n);
    assert e[n] == Min(GlobalStart(w, dest)[n], GlobalProblem(w, 0.0).up(e, n));
    assert GlobalProblem(w, 0.0).up(e, n) == GlobalUp(w, 0.0, e, n);
  }

  /** Converged travel times are exact up to EPS for every walkable cell: never early, never later
      than that, and infinite exactly where the destination cannot be reached. */
  lemma ConvergedWithinTolerance(w: World, dest: seq<seq<nat>>, fields: seq<Option<Field>>, seeds: seq<Seeds>)
    returns (exact: seq<Field>)
    requires ValidWorld(w) && ValidDestination(w, dest) && Converges(w, dest, fields, seeds)
    ensures Exact(w, dest, 0.0, exact)
    ensures var v := TimesOf(w, fields);
            forall r: nat, c: nat :: r < |v| && c < |v[r]| ==>
              Le(exact[r][c], v[r][c]) && Le(v[r][c], Plus(exact[r][c], |WalkableIndices(w)| as real * EPS))
  {
    exact := ExactTimesExist(w, dest, 0.0);
    var v := TimesOf(w, fields);
    FlatIsSubSolution(w, dest, EPS, v);
    ExactSolvesEquation(w, dest, exact);
    forall r: nat, c: nat | r < |v| && c < |v[r]|
      ensures Le(exact[r][c], v[r][c]) && Le(v[r][c], Plus(exact[r][c], |WalkableIndices(w)| as real * EPS))
    {
      assert Below(exact[r], v[r]);
      CellWithin(w, dest, exact, v, r, c);
    }
  }

  lemma CellWithin(w: World, dest: seq<seq<nat>>, exact: seq<Field>, v: seq<Field>, r: nat, c: nat)
    requires FieldsFit(w, exact) && FieldsFit(w, v) && Compared(w, dest, Flat(w, exact), Flat(w, v))
    requires r < |w.grids| && c < Size(w.grids[r])
    ensures Le(v[r][c], Plus(exact[r][c], |WalkableIndices(w)| as real * EPS))
  {
    var i := IndexOf(w.grids, r, c);
    AtIndex(w.grids, r, c);
    WithinAllowance(w, dest, Flat(w, exact), Flat(w, v), i);
    AllowanceBound(w, Flat(w, exact), i);
  }

  lemma AllowanceBound(w: World, e: Field, i: nat)
    requires |e| == Total(w.grids) && i < |e|
    ensures Allowance(w, e, i) <= |WalkableIndices(w)| as real * EPS
  {
    var a, b := Earlier(w, e, i), WalkableIndices(w);
    assert a <= b;
    if a != b {
      CardinalityOfSubset(a, b);
    }
  }

  lemma ExactSolvesEquation(w: World, dest: seq<seq<nat>>, exact: seq<Field>)
    requires ValidWorld(w) && ValidDestination(w, dest) && Exact(w, dest, 0.0, exact)
    ensures Equation(GlobalProblem(w, 0.0), GlobalStart(w, dest), Flat(w, exact))
  {
    GlobalIsValid(w, 0.0);
    FlatIsSubSolution(w, dest, 0.0, exact);
    var p, start, e := GlobalProblem(w, 0.0), GlobalStart(w, dest), Flat(w, exact);
    forall x | SubSolution(p, x) && Below(x, start) ensures Below(x, e) {
      PartsAreSubSolution(w, dest, 0.0, x);
      FlatOfParts(w, x);
      FlatMonotone(w, Parts(w, x), exact);
    }
    GreatestSolvesEquation(p, start, e);
  }

  lemma FlatMonotone(w: World, x: seq<Field>, v: seq<Field>)
    requires FieldsFit(w, x) && FieldsFit(w, v) && forall r: nat :: r < |x| ==> Below(x[r], v[r])
    ensures Below(Flat(w, x), Flat(w, v))
  {
    forall i: nat | i < Total(w.grids) ensures Le(Flat(w, x)[i], Flat(w, v)[i]) {
      assert Below(x[At(w.grids, i).0], v[At(w.grids, i).0]);
    }
  }
}
