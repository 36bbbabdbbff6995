// What the travel times of one grid mean: they are the one solution of the discrete eikonal
// equation, warm starts reach it too, and walking downhill along them ends at a seed.
module TravelTimes {
  import opened Reals
  import opened Times
  import opened Cells
  import opened Relaxation
  import opened FastSweeping
  import Godunov

  /** The discrete eikonal equation: every cell holds its starting time or the Godunov value of
      its neighbours, whichever is lower; an obstacle keeps its starting time. */
  ghost predicate Eikonal(g: Grid, start: Field, u: Field) {
    && |u| == |start| == |g.speed| == Size(g)
    && forall c :: 0 <= c < |u| ==>
         u[c] == if Walkable(g, c) then Min(start[c], Candidate(g, u, c)) else start[c]
  }

  /** A field solves the sweeping problem exactly if it satisfies the eikonal equation. */
  lemma SolvesIffEikonal(g: Grid, start: Field, u: Field)
    requires ValidGrid(g) && |start| == Size(g)
    ensures Solves(Sweeping(g), start, u) <==> Eikonal(g, start, u)
  {
    SweepingIsCausal(g);
    SolvesIffEquation(Sweeping(g), start, u);
  }

  /** The equation has one solution, and the sweeps reach it. */
  lemma EikonalHasOneSolution(g: Grid, start: Field) returns (u: Field)
    requires ValidGrid(g) && |start| == Size(g)
    ensures Eikonal(g, start, u)
    ensures forall v :: Eikonal(g, start, v) ==> v == u
  {
    u := Rounds(g, start, |WalkableCells(g)|);
    EnoughRounds(g, start, |WalkableCells(g)|);
    SolvesIffEikonal(g, start, u);
    forall v | Eikonal(g, start, v) ensures v == u {
      SolvesIffEikonal(g, start, v);
      BelowAntisymmetric(u, v);
    }
  }

  // ---- The equation in terms of the cells around a cell ----

  /** The cells left and right of row i, column j; there is none past the border. */
  ghost function Beside(g: Grid, i: nat, j: nat): set<nat> {
    (if j > 0 then {Cell(g.width, i, j - 1)} else {}) + (if j + 1 < g.width then {Cell(g.width, i, j + 1)} else {})
  }

  /** The cells below and above it. */
  ghost function AboveAndBelow(g: Grid, i: nat, j: nat): set<nat> {
    (if i > 0 then {Cell(g.width, i - 1, j)} else {}) + (if i + 1 < g.height then {Cell(g.width, i + 1, j)} else {})
  }

  /** t is the least time of the cells, infinite if no wave reaches any of them. */
  ghost predicate IsLeast(u: Field, cells: set<nat>, t: Time) {
    && (forall n :: n in cells ==> n < |u| && Le(t, u[n]))
    && (t.Fin? ==> exists n :: n in cells && u[n] == t)
  }

  /** The time at which the wave passes a cell whose least times beside it and above or below it are a and
      b, at the given cost: the only one at which the upwind equation holds. */
  ghost predicate Arrives(a: Time, b: Time, cost: real, t: Time) {
    if t.Fin? then Square(Past(t.t, a)) + Square(Past(t.t, b)) == Square(cost) else a.Inf? && b.Inf?
  }

  /** How long ago a was at time t. */
  ghost function Past(t: real, a: Time): real {
    match a
    case Inf => 0.0
    case Fin(s) => Greatest(t - s, 0.0)
  }

  /** The cell holds its starting time or the time at which the wave passes it, the earlier of the two. */
  ghost predicate HoldsEarlier(start: Time, a: Time, b: Time, cost: real, t: Time) {
    exists passing :: Arrives(a, b, cost, passing) && t == Min(start, passing)
  }

  lemma LeastBeside(g: Grid, u: Field, i: nat, j: nat)
    requires |u| == Size(g) && i < g.height && j < g.width
    ensures IsLeast(u, Beside(g, i, j), MinNeighborX(u, i, j, g.width, g.height))
  {
    NeighborCells(g.width, g.height, i, j);
  }

  lemma LeastAboveAndBelow(g: Grid, u: Field, i: nat, j: nat)
    requires |u| == Size(g) && i < g.height && j < g.width
    ensures IsLeast(u, AboveAndBelow(g, i, j), MinNeighborY(u, i, j, g.width, g.height))
  {
    NeighborCells(g.width, g.height, i, j);
  }

  lemma LeastAround(g: Grid, u: Field, i: nat, j: nat)
    requires |u| == Size(g) && i < g.height && j < g.width
    ensures Cell(g.width, i, j) < Size(g)
    ensures IsLeast(u, Beside(g, i, j), MinX(g, u, Cell(g.width, i, j)))
    ensures IsLeast(u, AboveAndBelow(g, i, j), MinY(g, u, Cell(g.width, i, j)))
  {
    InGrid(g.width, g.height, i, j);
    RowColOfCell(g.width, i, j);
    LeastBeside(g, u, i, j);
    LeastAboveAndBelow(g, u, i, j);
  }

  lemma LeastIsUnique(u: Field, cells: set<nat>, s: Time, t: Time)
    requires IsLeast(u, cells, s) && IsLeast(u, cells, t)
    ensures s == t
  {
  }

  /** The Godunov value is the time at which the wave arrives. */
  lemma UpdateArrives(root: real -> real, a: Time, b: Time, cost: real, t: Time)
    requires Godunov.IsSquareRoot(root) && cost > 0.0
    ensures Arrives(a, b, cost, t) <==> Godunov.Update(root, a, b, cost) == t
  {
    Godunov.UpdateSolvesUpwind(root, a, b, cost);
    SquarePositive(cost);
    if t.Fin? {
      Godunov.UpdateIsTheSolution(root, a, b, cost, t.t);
      assert Past(t.t, a) == Godunov.Excess(t.t, a) && Past(t.t, b) == Godunov.Excess(t.t, b);
    }
  }

  /** Cell (i, j) satisfies the equation: an obstacle holds its starting time, a walkable cell the earlier of
      that and the time at which the wave passes it, which comes from the cells around it at a cost of
      its size over its speed. */
  ghost predicate EikonalAt(g: Grid, start: Field, u: Field, i: nat, j: nat)
    requires |u| == |start| == |g.speed| == Size(g) && i < g.height && j < g.width
  {
    var c := Cell(g.width, i, j);
    && c < |u|
    && if g.speed[c] > 0.0 then
         exists a, b ::
           && IsLeast(u, Beside(g, i, j), a) && IsLeast(u, AboveAndBelow(g, i, j), b)
           && HoldsEarlier(start[c], a, b, g.cellSize / g.speed[c], u[c])
       else
         u[c] == start[c]
  }

  lemma EikonalAtIff(g: Grid, start: Field, u: Field, i: nat, j: nat)
    requires ValidGrid(g) && |u| == |start| == Size(g) && i < g.height && j < g.width
    ensures Cell(g.width, i, j) < Size(g)
    ensures var c := Cell(g.width, i, j);
            EikonalAt(g, start, u, i, j) <==>
            u[c] == if Walkable(g, c) then Min(start[c], Candidate(g, u, c)) else start[c]
  {
    LeastAround(g, u, i, j);
    var c := Cell(g.width, i, j);
    if Walkable(g, c) {
      PositiveCost(g, c);
      var a, b, cost := MinX(g, u, c), MinY(g, u, c), g.cellSize / g.speed[c];
      UpdateArrives(g.root, a, b, cost, Candidate(g, u, c));
      forall a', b' | IsLeast(u, Beside(g, i, j), a') && IsLeast(u, AboveAndBelow(g, i, j), b')
        ensures a' == a && b' == b
      {
        LeastIsUnique(u, Beside(g, i, j), a, a');
        LeastIsUnique(u, AboveAndBelow(g, i, j), b, b');
      }
      forall t | Arrives(a, b, cost, t) ensures t == Candidate(g, u, c) {
        UpdateArrives(g.root, a, b, cost, t);
      }
    }
  }

  /** So the solver's result is the field every cell of which satisfies the equation in terms of the cells
      around it. */
  lemma SolvesByCells(g: Grid, start: Field, u: Field)
    requires ValidGrid(g) && |u| == |start| == Size(g)
    ensures Solves(Sweeping(g), start, u) <==>
              forall i, j :: 0 <= i < g.height && 0 <= j < g.width ==> EikonalAt(g, start, u, i, j)
  {
    SolvesIffEikonal(g, start, u);
    forall i, j | 0 <= i < g.height && 0 <= j < g.width && Eikonal(g, start, u) ensures EikonalAt(g, start, u, i, j) {
      EikonalAtIff(g, start, u, i, j);
    }
    forall c | 0 <= c < |u| && forall i, j :: 0 <= i < g.height && 0 <= j < g.width ==> EikonalAt(g, start, u, i, j)
      ensures u[c] == if Walkable(g, c) then Min(start[c], Candidate(g, u, c)) else start[c]
    {
      CellOfRowCol(g.width, g.height, c);
      EikonalAtIff(g, start, u, Row(g.width, c), Col(g.width, c));
    }
  }

  /** No walkable cell is later than a direct neighbour by more than its own cost. */
  lemma NeighborsReach(g: Grid, start: Field, u: Field, c: nat, n: nat)
    requires ValidGrid(g) && |start| == Size(g) && Eikonal(g, start, u) && c < Size(g) && Walkable(g, c)
    requires Neighbors(g, c, n)
    ensures n < Size(g) && Le(u[c], Plus(u[n], g.cellSize / g.speed[c]))
  {
    CellOfRowCol(g.width, g.height, c);
    var i, j := Row(g.width, c), Col(g.width, c);
    LeastAround(g, u, i, j);
    PositiveCost(g, c);
    assert n in Beside(g, i, j) + AboveAndBelow(g, i, j);
    Godunov.UpdateSolvesUpwind(g.root, MinX(g, u, c), MinY(g, u, c), g.cellSize / g.speed[c]);
  }

  // ---- Warm starts ----

  /** Solving over a buffer gives what a cold start gives if and only if the buffer is nowhere
      below the cold result. */
  lemma WarmIsColdIffUpperBound(g: Grid, buffer: Field, start: Field, warm: Field, cold: Field)
    requires ValidGrid(g) && |start| == |buffer| == Size(g)
    requires Solves(Sweeping(g), MinField(buffer, start), warm)
    requires Solves(Sweeping(g), start, cold)
    ensures warm == cold <==> Below(cold, buffer)
  {
    if Below(cold, buffer) {
      assert Below(cold, MinField(buffer, start));
      assert Below(warm, start) by {
        BelowTransitive(warm, MinField(buffer, start), start);
      }
      BelowAntisymmetric(warm, cold);
    }
    if warm == cold {
      BelowTransitive(warm, MinField(buffer, start), buffer);
    }
  }

  /** Lowering starting times lowers the solution. */
  lemma SolutionMonotone(p: Problem, start: Field, u: Field, start': Field, u': Field)
    requires Solves(p, start, u) && Solves(p, start', u') && Below(start', start)
    ensures Below(u', u)
  {
    BelowTransitive(u', start', start);
  }

  /** Solving again after seeds were added or lowered may begin with the solution from before: the result
      is the cold one. */
  lemma WarmStartFromPrevious(g: Grid, start: Field, previous: Field, start': Field, warm: Field)
    requires ValidGrid(g) && |start| == |start'| == |previous| == Size(g)
    requires Solves(Sweeping(g), start, previous) && Below(start', start)
    requires Solves(Sweeping(g), MinField(previous, start'), warm)
    ensures Solves(Sweeping(g), start', warm) && Below(warm, previous)
  {
    var n := |WalkableCells(g)|;
    EnoughRounds(g, start', n);
    SolutionMonotone(Sweeping(g), start, previous, start', Rounds(g, start', n));
    WarmIsColdIffUpperBound(g, previous, start', warm, Rounds(g, start', n));
  }

  // ---- Downhill ----

  /** No spurious minima: a cell that does not hold its own starting time has a strictly earlier
      4-neighbour. */
  lemma EarlierNeighbor(g: Grid, start: Field, u: Field, c: nat) returns (n: nat)
    requires ValidGrid(g) && |start| == Size(g) && c < Size(g)
    requires Solves(Sweeping(g), start, u) && u[c] != start[c]
    ensures n < Size(g) && Neighbors(g, c, n) && Lt(u[n], u[c])
  {
    SolvesIffEikonal(g, start, u);
    n := CandidateAboveNeighbor(g, u, c);
  }

  ghost predicate Descending(g: Grid, u: Field, path: seq<nat>) {
    && |u| == Size(g)
    && |path| > 0
    && (forall i :: 0 <= i < |path| ==> path[i] < Size(g))
    && forall i :: 0 <= i < |path| - 1 ==> Neighbors(g, path[i], path[i + 1]) && Lt(u[path[i + 1]], u[path[i]])
  }

  lemma DescendingCons(g: Grid, u: Field, c: nat, path: seq<nat>)
    requires Descending(g, u, path) && c < Size(g)
    requires Neighbors(g, c, path[0]) && Lt(u[path[0]], u[c])
    ensures Descending(g, u, [c] + path)
  {
    var p := [c] + path;
    forall i | 0 <= i < |p| - 1 ensures Neighbors(g, p[i], p[i + 1]) && Lt(u[p[i + 1]], u[p[i]]) {
      if i > 0 {
        assert p[i] == path[i - 1] && p[i + 1] == path[i];
      }
    }
  }

  ghost function EarlierCells(u: Field, t: Time): set<nat> {
    set c | 0 <= c < |u| && Lt(u[c], t)
  }

  /** From every reached cell, walking from neighbour to strictly earlier neighbour leads to a
      seed in finitely many steps. */
  lemma {:induction false} DescentReachesSeed(g: Grid, start: Field, u: Field, c: nat) returns (path: seq<nat>)
    requires ValidGrid(g) && |start| == Size(g) && c < Size(g)
    requires Solves(Sweeping(g), start, u) && u[c].Fin?
    ensures Descending(g, u, path) && path[0] == c
    ensures var seed := path[|path| - 1]; u[seed] == start[seed] && start[seed].Fin?
    decreases |EarlierCells(u, u[c])|
  {
    if u[c] == start[c] {
      path := [c];
    } else {
      var n := EarlierNeighbor(g, start, u, c);
      assert EarlierCells(u, u[n]) < EarlierCells(u, u[c]) by {
        assert n in EarlierCells(u, u[c]) && n !in EarlierCells(u, u[n]);
      }
      CardinalityOfSubset(EarlierCells(u, u[n]), EarlierCells(u, u[c]));
      var rest := DescentReachesSeed(g, start, u, n);
      DescendingCons(g, u, c, rest);
      path := [c] + rest;
    }
  }

  /** With no seed before `t`, no cell is before `t`; and only a seed is at `t`. */
  lemma NothingBeforeSeeds(g: Grid, start: Field, u: Field, t: real)
    requires ValidGrid(g) && |start| == Size(g) && Solves(Sweeping(g), start, u)
    requires forall c :: 0 <= c < |start| ==> Le(Fin(t), start[c])
    ensures forall c :: 0 <= c < |u| ==> Le(Fin(t), u[c])
    ensures forall c :: 0 <= c < |u| ==> (u[c] == Fin(t) <==> start[c] == Fin(t))
  {
    forall c | 0 <= c < |u| ensures Le(Fin(t), u[c]) && (u[c] == Fin(t) <==> start[c] == Fin(t)) {
      assert Le(u[c], start[c]);
      if u[c].Fin? {
        var path := DescentReachesSeed(g, start, u, c);
        DescendingEndsEarlier(g, u, path);
      }
    }
  }

  lemma {:induction false} DescendingEndsEarlier(g: Grid, u: Field, path: seq<nat>)
    requires Descending(g, u, path)
    ensures Le(u[path[|path| - 1]], u[path[0]])
    ensures |path| > 1 ==> Lt(u[path[|path| - 1]], u[path[0]])
  {
    if |path| > 1 {
      DescendingEndsEarlier(g, u, path[1..]);
    }
  }
}
