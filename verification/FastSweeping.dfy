// The fast sweeping solver (libfloorfield/src/fsm.rs): an in-place Gauss-Seidel iteration over a
// grid of arrival times, and what it computes.
module FastSweeping {
  import opened Cells
  import opened Times
  import Godunov
  import opened Relaxation

  /** A speed field on a row-major grid. `root` is the square root the Godunov update uses. */
  datatype Grid = Grid(width: nat, height: nat, cellSize: real, speed: seq<real>, root: real -> real)

  function Size(g: Grid): nat {
    Count(g.width, g.height)
  }

  ghost predicate ValidGrid(g: Grid) {
    |g.speed| == Size(g) && g.cellSize > 0.0 && Godunov.IsSquareRoot(g.root)
  }

  /** Speed 0 or negative marks an obstacle. */
  predicate Walkable(g: Grid, c: nat) {
    c < |g.speed| && g.speed[c] > 0.0
  }

  ghost function WalkableCells(g: Grid): set<nat> {
    set c | 0 <= c < |g.speed| && g.speed[c] > 0.0
  }

  // ---- Cells and their neighbours ----

  /** The earlier of the two times beside a cell. There is nothing past the border. */
  function MinNeighborX(u: Field, i: nat, j: nat, width: nat, height: nat): Time
    requires |u| == Count(width, height) && i < height && j < width
  {
    NeighborCells(width, height, i, j);
    var left := if j > 0 then u[Cell(width, i, j - 1)] else Inf;
    var right := if j + 1 < width then u[Cell(width, i, j + 1)] else Inf;
    Min(left, right)
  }

  /** The same across rows. */
  function MinNeighborY(u: Field, i: nat, j: nat, width: nat, height: nat): Time
    requires |u| == Count(width, height) && i < height && j < width
  {
    NeighborCells(width, height, i, j);
    var up := if i > 0 then u[Cell(width, i - 1, j)] else Inf;
    var down := if i + 1 < height then u[Cell(width, i + 1, j)] else Inf;
    Min(up, down)
  }

  lemma NeighborCells(width: nat, height: nat, i: nat, j: nat)
    requires i < height && j < width
    ensures Cell(width, i, j) < Count(width, height)
    ensures j > 0 ==> Cell(width, i, j - 1) < Count(width, height)
    ensures j + 1 < width ==> Cell(width, i, j + 1) < Count(width, height)
    ensures i > 0 ==> Cell(width, i - 1, j) < Count(width, height)
    ensures i + 1 < height ==> Cell(width, i + 1, j) < Count(width, height)
  {
    InGrid(width, height, i, j);
    if j > 0 { InGrid(width, height, i, j - 1); }
    if j + 1 < width { InGrid(width, height, i, j + 1); }
    if i > 0 { InGrid(width, height, i - 1, j); }
    if i + 1 < height { InGrid(width, height, i + 1, j); }
  }

  function MinX(g: Grid, u: Field, c: nat): Time
    requires |u| == Size(g) && c < Size(g)
  {
    CellOfRowCol(g.width, g.height, c);
    MinNeighborX(u, Row(g.width, c), Col(g.width, c), g.width, g.height)
  }

  function MinY(g: Grid, u: Field, c: nat): Time
    requires |u| == Size(g) && c < Size(g)
  {
    CellOfRowCol(g.width, g.height, c);
    MinNeighborY(u, Row(g.width, c), Col(g.width, c), g.width, g.height)
  }

  /** The time the Godunov update gives a walkable cell from its neighbours; an obstacle is never
      relaxed, which is the same as being given infinity. */
  function Candidate(g: Grid, u: Field, c: nat): Time
    requires |g.speed| == |u| == Size(g) && c < Size(g)
  {
    if Walkable(g, c) then
      Godunov.Update(g.root, MinX(g, u, c), MinY(g, u, c), g.cellSize / g.speed[c])
    else
      Inf
  }

  /** n is the left, right, upper or lower neighbour of c. */
  ghost predicate Neighbors(g: Grid, c: nat, n: nat)
    requires c < Size(g)
  {
    CellOfRowCol(g.width, g.height, c);
    var i, j := Row(g.width, c), Col(g.width, c);
    || (j > 0 && n == Cell(g.width, i, j - 1))
    || (j + 1 < g.width && n == Cell(g.width, i, j + 1))
    || (i > 0 && n == Cell(g.width, i - 1, j))
    || (i + 1 < g.height && n == Cell(g.width, i + 1, j))
  }

  lemma PositiveCost(g: Grid, c: nat)
    requires ValidGrid(g) && c < Size(g) && Walkable(g, c)
    ensures g.cellSize / g.speed[c] > 0.0
  {
  }

  /** The Godunov update as an operator on fields. */
  function Offer(g: Grid): (Field, nat) -> Time {
    (u: Field, c: nat) => if |g.speed| == |u| == Size(g) && c < Size(g) then Candidate(g, u, c) else Inf
  }

  /** The relaxation problem that a grid poses. */
  ghost function Sweeping(g: Grid): Problem {
    Problem(Size(g), WalkableCells(g), Offer(g))
  }

  /** A cell's candidate rests only on neighbours strictly below it. */
  lemma CandidateCausal(g: Grid, u: Field, v: Field, c: nat)
    requires ValidGrid(g) && |u| == Size(g) && c < Size(g)
    requires KeepsEarlier(u, v, Candidate(g, u, c))
    ensures Le(Candidate(g, v, c), Candidate(g, u, c))
  {
    CellOfRowCol(g.width, g.height, c);
    NeighborCells(g.width, g.height, Row(g.width, c), Col(g.width, c));
    if Walkable(g, c) {
      PositiveCost(g, c);
      Godunov.UpdateCausal(
        g.root, MinX(g, u, c), MinY(g, u, c), MinX(g, v, c), MinY(g, v, c), g.cellSize / g.speed[c]);
    }
  }

  lemma SweepingIsCausal(g: Grid)
    requires ValidGrid(g)
    ensures ValidProblem(Sweeping(g))
  {
    var p := Sweeping(g);
    forall u: Field, v: Field, c: nat | |u| == p.size && c < p.size && KeepsEarlier(u, v, p.up(u, c))
      ensures Le(p.up(v, c), p.up(u, c))
    {
      CandidateCausal(g, u, v, c);
    }
  }

  /** The lowest of the up to four neighbours is one of them. */
  lemma LowestNeighbor(g: Grid, u: Field, c: nat) returns (n: nat)
    requires |u| == Size(g) && c < Size(g)
    requires Min(MinX(g, u, c), MinY(g, u, c)).Fin?
    ensures n < Size(g) && Neighbors(g, c, n) && u[n] == Min(MinX(g, u, c), MinY(g, u, c))
  {
    CellOfRowCol(g.width, g.height, c);
    var w, i, j := g.width, Row(g.width, c), Col(g.width, c);
    NeighborCells(w, g.height, i, j);
    var a, b := MinX(g, u, c), MinY(g, u, c);
    if Le(a, b) {
      n := if j > 0 && Le(u[Cell(w, i, j - 1)], a) then Cell(w, i, j - 1) else Cell(w, i, j + 1);
    } else {
      n := if i > 0 && Le(u[Cell(w, i - 1, j)], b) then Cell(w, i - 1, j) else Cell(w, i + 1, j);
    }
  }

  /** A finite candidate lies strictly above some neighbour. */
  lemma CandidateAboveNeighbor(g: Grid, u: Field, c: nat) returns (n: nat)
    requires ValidGrid(g) && |u| == Size(g) && c < Size(g)
    requires Candidate(g, u, c).Fin?
    ensures n < Size(g) && Neighbors(g, c, n) && Lt(u[n], Candidate(g, u, c))
  {
    PositiveCost(g, c);
    Godunov.UpdateAboveLower(g.root, MinX(g, u, c), MinY(g, u, c), g.cellSize / g.speed[c]);
    n := LowestNeighbor(g, u, c);
  }

  // ---- Sweeps ----

  /** Element k of a range, forwards or backwards. */
  function Index(len: nat, rev: bool, k: nat): (i: nat)
    requires k < len
    ensures i < len
  {
    if rev then len - 1 - k else k
  }

  /** The cell visited at position p of a sweep: rows outside, columns inside, each possibly in
      reverse. */
  ghost function CellAt(g: Grid, iRev: bool, jRev: bool, p: nat): (c: nat)
    requires p < Size(g)
    ensures c < Size(g)
  {
    CellOfRowCol(g.width, g.height, p);
    var i := Index(g.height, iRev, Row(g.width, p));
    var j := Index(g.width, jRev, Col(g.width, p));
    InGrid(g.width, g.height, i, j);
    Cell(g.width, i, j)
  }

  ghost function SweepOrder(g: Grid, iRev: bool, jRev: bool): (order: seq<nat>)
    ensures |order| == Size(g) && IsOrder(order, Size(g))
  {
    seq(Size(g), p requires 0 <= p < Size(g) => CellAt(g, iRev, jRev, p))
  }

  /** Step l of row step k of a sweep. */
  lemma OrderAt(g: Grid, iRev: bool, jRev: bool, k: nat, l: nat)
    requires k < g.height && l < g.width
    ensures Cell(g.width, k, l) < Size(g)
    ensures SweepOrder(g, iRev, jRev)[Cell(g.width, k, l)] ==
              Cell(g.width, Index(g.height, iRev, k), Index(g.width, jRev, l))
  {
    InGrid(g.width, g.height, k, l);
    RowColOfCell(g.width, k, l);
  }

  /** When a sweep comes to the cell in row i and column j: rows and columns reversed count from the other
      end. */
  lemma SweepComesTo(g: Grid, iRev: bool, jRev: bool, i: nat, j: nat)
    requires i < g.height && j < g.width
    ensures var row, column := if iRev then g.height - 1 - i else i, if jRev then g.width - 1 - j else j;
            var p := Cell(g.width, row, column);
            p < Size(g) && SweepOrder(g, iRev, jRev)[p] == Cell(g.width, i, j)
  {
    OrderAt(g, iRev, jRev, if iRev then g.height - 1 - i else i, if jRev then g.width - 1 - j else j);
  }

  /** A sweep visits every cell. */
  lemma SweepCovers(g: Grid, iRev: bool, jRev: bool)
    requires ValidGrid(g)
    ensures Covers(SweepOrder(g, iRev, jRev), WalkableCells(g))
  {
    forall c | 0 <= c < Size(g) ensures c in SweepOrder(g, iRev, jRev) {
      CellOfRowCol(g.width, g.height, c);
      var k := Index(g.height, iRev, Row(g.width, c));
      var l := Index(g.width, jRev, Col(g.width, c));
      OrderAt(g, iRev, jRev, k, l);
      assert SweepOrder(g, iRev, jRev)[Cell(g.width, k, l)] == c;
    }
  }

  /** The body of the sweep's inner loop: lower the cell in row i and column j to its candidate. */
  method RelaxCell(u: array<Time>, g: Grid, i: nat, j: nat) returns (lowered: bool)
    requires ValidGrid(g) && u.Length == Size(g) && i < g.height && j < g.width
    modifies u
    ensures Cell(g.width, i, j) < u.Length
    ensures u[..] == Relax(Sweeping(g), old(u[..]), Cell(g.width, i, j))
    ensures lowered <==> u[..] != old(u[..])
  {
    InGrid(g.width, g.height, i, j);
    RowColOfCell(g.width, i, j);
    var idx := Cell(g.width, i, j);
    ghost var before := u[..];
    lowered := false;
    if Walkable(g, idx) {
      var cost := g.cellSize / g.speed[idx];
      var a := MinNeighborX(u[..], i, j, g.width, g.height);
      var b := MinNeighborY(u[..], i, j, g.width, g.height);
      var candidate := Godunov.Update(g.root, a, b, cost);
      assert candidate == Offer(g)(before, idx);
      if Lt(candidate, u[idx]) {
        u[idx] := candidate;
        lowered := true;
        assert u[..] == before[idx := candidate];
      }
    }
  }

  /** A sweep from `start` has reached `u` after `done` cells. */
  ghost predicate Swept(g: Grid, iRev: bool, jRev: bool, start: Field, done: nat, u: Field, changed: bool) {
    && |start| == Size(g)
    && done <= Size(g)
    && u == RelaxFirst(Sweeping(g), start, SweepOrder(g, iRev, jRev), done)
    && (changed <==> u != start)
  }

  lemma SweptOneMore(g: Grid, iRev: bool, jRev: bool, start: Field, done: nat, u: Field, changed: bool, c: nat)
    requires Swept(g, iRev, jRev, start, done, u, changed)
    requires done < Size(g) && SweepOrder(g, iRev, jRev)[done] == c
    ensures var u' := Relax(Sweeping(g), u, c);
            Swept(g, iRev, jRev, start, done + 1, u', changed || u' != u)
  {
    var u' := Relax(Sweeping(g), u, c);
    assert Below(u', u) && Below(u, start);
    if u' == start {
      BelowAntisymmetric(u, start);
    }
  }

  lemma SweptNextCell(g: Grid, iRev: bool, jRev: bool, start: Field, k: nat, l: nat, u: Field, changed: bool)
    requires k < g.height && l < g.width
    requires Swept(g, iRev, jRev, start, Cell(g.width, k, l), u, changed)
    ensures var c := Cell(g.width, Index(g.height, iRev, k), Index(g.width, jRev, l));
            && c < |u|
            && Swept(g, iRev, jRev, start, Cell(g.width, k, l + 1), Relax(Sweeping(g), u, c), changed ||
                 Relax(Sweeping(g), u, c) != u)
  {
    OrderAt(g, iRev, jRev, k, l);
    Shift(g.width, k, l);
    SweptOneMore(g, iRev, jRev, start, Cell(g.width, k, l), u, changed, SweepOrder(g, iRev, jRev)[Cell(g.width, k, l)]);
  }

  /** Relax every cell in place, in one of the four orders. */
  method Sweep(u: array<Time>, g: Grid, iRev: bool, jRev: bool) returns (changed: bool)
    requires ValidGrid(g) && u.Length == Size(g)
    modifies u
    ensures u[..] == Pass(Sweeping(g), old(u[..]), SweepOrder(g, iRev, jRev))
    ensures changed <==> u[..] != old(u[..])
  {
    changed := false;
    for k := 0 to g.height
      invariant Swept(g, iRev, jRev, old(u[..]), Cell(g.width, k, 0), u[..], changed)
    {
      var i := Index(g.height, iRev, k);
      for l := 0 to g.width
        invariant Swept(g, iRev, jRev, old(u[..]), Cell(g.width, k, l), u[..], changed)
      {
        var j := Index(g.width, jRev, l);
        SweptNextCell(g, iRev, jRev, old(u[..]), k, l, u[..], changed);
        var lowered := RelaxCell(u, g, i, j);
        changed := changed || lowered;
      }
      Shift(g.width, k, 0);
    }
  }

  // ---- Seeds ----

  /** Arrival time of source i; no seed values at all means zero everywhere. */
  function SeedTime(values: seq<Time>, i: nat): Time {
    if i < |values| then values[i] else Fin(0.0)
  }

  /** What the solver demands of its caller: it panics otherwise. */
  ghost predicate ValidSeeds(g: Grid, sources: seq<nat>, values: seq<Time>) {
    && (|values| == 0 || |values| == |sources|)
    && forall i :: 0 <= i < |sources| ==> sources[i] < Size(g)
  }

  /** `u` with the first n sources lowered to their seeds; sources on obstacles are ignored. */
  ghost function SeededFirst(g: Grid, u: Field, sources: seq<nat>, values: seq<Time>, n: nat): (r: Field)
    requires |u| == Size(g) && ValidSeeds(g, sources, values) && n <= |sources|
    ensures |r| == |u|
  {
    if n == 0 then
      u
    else
      var r, s := SeededFirst(g, u, sources, values, n - 1), sources[n - 1];
      if Walkable(g, s) then r[s := Min(r[s], SeedTime(values, n - 1))] else r
  }

  ghost function Unreached(g: Grid): (u: Field)
    ensures |u| == Size(g)
  {
    seq(Size(g), _ => Inf)
  }

  /** The starting times of a cold start. */
  ghost function Start(g: Grid, sources: seq<nat>, values: seq<Time>): (u: Field)
    requires ValidSeeds(g, sources, values)
    ensures |u| == Size(g)
  {
    SeededFirst(g, Unreached(g), sources, values, |sources|)
  }

  ghost function MinField(u: Field, v: Field): (r: Field)
    requires |u| == |v|
    ensures |r| == |u| && forall c :: 0 <= c < |u| ==> r[c] == Min(u[c], v[c])
  {
    seq(|u|, c requires 0 <= c < |u| => Min(u[c], v[c]))
  }

  /** Seeding a buffer is taking the lower of the buffer and the cold start. */
  lemma {:induction false} SeedingIsMin(g: Grid, u: Field, sources: seq<nat>, values: seq<Time>, n: nat)
    requires |u| == Size(g) && ValidSeeds(g, sources, values) && n <= |sources|
    ensures SeededFirst(g, u, sources, values, n) == MinField(u, SeededFirst(g, Unreached(g), sources, values, n))
  {
    if n > 0 {
      SeedingIsMin(g, u, sources, values, n - 1);
    }
  }

  /** A cold start holds exactly the seeds: infinity where there is none, and the earliest one
      where there are several. */
  lemma {:induction false} StartHoldsSeeds(g: Grid, sources: seq<nat>, values: seq<Time>, n: nat, c: nat)
    requires ValidSeeds(g, sources, values) && n <= |sources| && c < Size(g)
    ensures var t := SeededFirst(g, Unreached(g), sources, values, n)[c];
            && (t != Inf ==>
                  Walkable(g, c) &&
                  exists i :: 0 <= i < n && sources[i] == c && t == if values == [] then Fin(0.0) else values[i])
            && (Walkable(g, c) ==> forall i :: 0 <= i < n && sources[i] == c ==>
                  Le(t, if values == [] then Fin(0.0) else values[i]))
  {
    if n > 0 {
      StartHoldsSeeds(g, sources, values, n - 1, c);
    }
  }

  /** Zero at the walkable ones of the given cells, and nothing elsewhere. */
  ghost function ZeroAt(g: Grid, cells: seq<nat>): (u: Field)
    ensures |u| == Size(g)
    ensures forall c :: 0 <= c < |u| ==> u[c] == if c in cells && Walkable(g, c) then Fin(0.0) else Inf
  {
    seq(Size(g), c requires 0 <= c < Size(g) => if c in cells && Walkable(g, c) then Fin(0.0) else Inf)
  }

  lemma StartIsZeroAt(g: Grid, sources: seq<nat>)
    requires ValidSeeds(g, sources, [])
    ensures Start(g, sources, []) == ZeroAt(g, sources)
  {
    forall c | 0 <= c < Size(g) ensures Start(g, sources, [])[c] == ZeroAt(g, sources)[c] {
      StartHoldsSeeds(g, sources, [], |sources|, c);
    }
  }

  // ---- Solving ----

  /** One round: all four orderings. */
  ghost function Round(g: Grid, u: Field): (r: Field)
    requires |u| == Size(g)
    ensures |r| == |u|
  {
    var p := Sweeping(g);
    var u1 := Pass(p, u, SweepOrder(g, false, false));
    var u2 := Pass(p, u1, SweepOrder(g, false, true));
    var u3 := Pass(p, u2, SweepOrder(g, true, false));
    Pass(p, u3, SweepOrder(g, true, true))
  }

  /** The field after the first n rounds. */
  ghost function Rounds(g: Grid, start: Field, n: nat): (u: Field)
    requires |start| == Size(g)
    ensures |u| == |start|
  {
    if n == 0 then start else Round(g, Rounds(g, start, n - 1))
  }

  lemma RoundsStayAbove(g: Grid, start: Field, n: nat)
    requires ValidGrid(g) && |start| == Size(g)
    ensures AboveSubSolutions(Sweeping(g), start, Rounds(g, start, n))
  {
    var p := Sweeping(g);
    StartIsAbove(p, start);
    for i := 0 to n
      invariant AboveSubSolutions(p, start, Rounds(g, start, i))
    {
      RoundStaysAbove(g, start, Rounds(g, start, i));
    }
  }

  lemma RoundStaysAbove(g: Grid, start: Field, u: Field)
    requires ValidGrid(g) && |start| == Size(g) && AboveSubSolutions(Sweeping(g), start, u)
    ensures AboveSubSolutions(Sweeping(g), start, Round(g, u))
  {
    SweepingIsCausal(g);
    var p := Sweeping(g);
    var u1 := Pass(p, u, SweepOrder(g, false, false));
    var u2 := Pass(p, u1, SweepOrder(g, false, true));
    var u3 := Pass(p, u2, SweepOrder(g, true, false));
    PassStaysAbove(p, start, u, SweepOrder(g, false, false));
    PassStaysAbove(p, start, u1, SweepOrder(g, false, true));
    PassStaysAbove(p, start, u2, SweepOrder(g, true, false));
    PassStaysAbove(p, start, u3, SweepOrder(g, true, true));
  }

  /** Each sweep settles one more cell, so each round four. */
  lemma RoundSettlesFour(g: Grid, u: Field, n: nat)
    requires ValidGrid(g) && |u| == Size(g) && SettledAtLeast(Sweeping(g), u, n)
    ensures SettledAtLeast(Sweeping(g), Round(g, u), n + 4)
  {
    SweepingIsCausal(g);
    var p := Sweeping(g);
    var u1 := Pass(p, u, SweepOrder(g, false, false));
    var u2 := Pass(p, u1, SweepOrder(g, false, true));
    var u3 := Pass(p, u2, SweepOrder(g, true, false));
    SweepCovers(g, false, false);
    SweepCovers(g, false, true);
    SweepCovers(g, true, false);
    SweepCovers(g, true, true);
    PassSettlesOneMore(p, u, SweepOrder(g, false, false), n);
    PassSettlesOneMore(p, u1, SweepOrder(g, false, true), n + 1);
    PassSettlesOneMore(p, u2, SweepOrder(g, true, false), n + 2);
    PassSettlesOneMore(p, u3, SweepOrder(g, true, true), n + 3);
  }

  lemma RoundsSettle(g: Grid, start: Field, n: nat)
    requires ValidGrid(g) && |start| == Size(g)
    ensures SettledAtLeast(Sweeping(g), Rounds(g, start, n), 4 * n)
  {
    var p := Sweeping(g);
    SweepingIsCausal(g);
    SettledAtLeastZero(p, start);
    for i := 0 to n
      invariant SettledAtLeast(p, Rounds(g, start, i), 4 * i)
    {
      RoundSettlesFour(g, Rounds(g, start, i), 4 * i);
    }
  }

  lemma NothingToSweep(g: Grid, u: Field, iRev: bool, jRev: bool)
    requires ValidGrid(g) && SubSolution(Sweeping(g), u)
    ensures Pass(Sweeping(g), u, SweepOrder(g, iRev, jRev)) == u
  {
    SweepingIsCausal(g);
    SweepCovers(g, iRev, jRev);
    UnchangedIffSubSolution(Sweeping(g), u, SweepOrder(g, iRev, jRev));
  }

  /** A round that changes nothing has reached the solution. */
  lemma UnchangedRoundSolves(g: Grid, start: Field, n: nat)
    requires ValidGrid(g) && |start| == Size(g)
    requires Round(g, Rounds(g, start, n)) == Rounds(g, start, n)
    ensures Solves(Sweeping(g), start, Rounds(g, start, n))
  {
    var p, u0 := Sweeping(g), Rounds(g, start, n);
    var u1 := Pass(p, u0, SweepOrder(g, false, false));
    var u2 := Pass(p, u1, SweepOrder(g, false, true));
    BackWhereItBegan(u0, u1, u2, Pass(p, u2, SweepOrder(g, true, false)), u0);
    SweepingIsCausal(g);
    SweepCovers(g, false, false);
    UnchangedIffSubSolution(p, u0, SweepOrder(g, false, false));
    RoundsStayAbove(g, start, n);
  }

  /** After a quarter as many rounds as there are walkable cells, from any starting field, the
      solution is reached and no round changes anything. */
  lemma EnoughRounds(g: Grid, start: Field, n: nat)
    requires ValidGrid(g) && |start| == Size(g) && 4 * n >= |WalkableCells(g)|
    ensures Solves(Sweeping(g), start, Rounds(g, start, n))
    ensures Round(g, Rounds(g, start, n)) == Rounds(g, start, n)
  {
    SweepingIsCausal(g);
    var u := Rounds(g, start, n);
    RoundsSettle(g, start, n);
    EnoughSettled(Sweeping(g), u, 4 * n);
    RoundsStayAbove(g, start, n);
    NothingToSweep(g, u, false, false);
    NothingToSweep(g, u, false, true);
    NothingToSweep(g, u, true, false);
    NothingToSweep(g, u, true, true);
  }

  lemma BackWhereItBegan(u0: Field, u1: Field, u2: Field, u3: Field, u4: Field)
    requires Below(u1, u0) && Below(u2, u1) && Below(u3, u2) && Below(u4, u3)
    ensures u4 == u0 <==> u0 == u1 == u2 == u3 == u4
  {
    if u4 == u0 {
      BelowTransitive(u4, u3, u2);
      BelowTransitive(u4, u2, u1);
      BelowTransitive(u3, u2, u1);
      BelowAntisymmetric(u1, u0);
      BelowAntisymmetric(u2, u1);
      BelowAntisymmetric(u3, u2);
    }
  }

  method SweepRound(out: array<Time>, g: Grid) returns (changed: bool)
    requires ValidGrid(g) && out.Length == Size(g)
    modifies out
    ensures out[..] == Round(g, old(out[..]))
    ensures changed <==> out[..] != old(out[..])
  {
    ghost var u0 := out[..];
    var c0 := Sweep(out, g, false, false);
    ghost var u1 := out[..];
    var c1 := Sweep(out, g, false, true);
    ghost var u2 := out[..];
    var c2 := Sweep(out, g, true, false);
    ghost var u3 := out[..];
    var c3 := Sweep(out, g, true, true);
    BackWhereItBegan(u0, u1, u2, u3, out[..]);
    changed := c0 || c1 || c2 || c3;
  }

  /** Rounds of four sweeps until one changes nothing. */
  method SweepToConvergence(out: array<Time>, g: Grid) returns (ghost rounds: nat)
    requires ValidGrid(g) && out.Length == Size(g)
    modifies out
    ensures Solves(Sweeping(g), old(out[..]), out[..])
    ensures 4 * rounds < |WalkableCells(g)| + 8
  {
    ghost var start := out[..];
    rounds := 0;
    while true
      invariant out[..] == Rounds(g, start, rounds)
      invariant 4 * rounds < |WalkableCells(g)| + 4
      decreases |WalkableCells(g)| + 4 - 4 * rounds
    {
      var changed := SweepRound(out, g);
      if !changed {
        UnchangedRoundSolves(g, start, rounds);
        rounds := rounds + 1;
        break;
      }
      if 4 * rounds >= |WalkableCells(g)| {
        EnoughRounds(g, start, rounds);
      }
      rounds := rounds + 1;
    }
  }

  /** Lower the sources to their seeds and sweep to convergence. `out` is not reset: the result
      is the solution below what it held and the seeds. */
  method SolveIntoSeeded(out: array<Time>, g: Grid, sources: seq<nat>, values: seq<Time>) returns (ghost rounds: nat)
    requires ValidGrid(g) && out.Length == Size(g) && ValidSeeds(g, sources, values)
    modifies out
    ensures Solves(Sweeping(g), MinField(old(out[..]), Start(g, sources, values)), out[..])
    ensures 4 * rounds < |WalkableCells(g)| + 8
  {
    for i := 0 to |sources|
      invariant out[..] == SeededFirst(g, old(out[..]), sources, values, i)
    {
      var s := sources[i];
      if Walkable(g, s) {
        var t := SeedTime(values, i);
        out[s] := Min(out[s], t);
      }
    }
    SeedingIsMin(g, old(out[..]), sources, values, |sources|);
    rounds := SweepToConvergence(out, g);
  }

  /** A cold start with every source at zero. */
  method SolveInto(out: array<Time>, g: Grid, sources: seq<nat>)
    requires ValidGrid(g) && out.Length == Size(g) && ValidSeeds(g, sources, [])
    modifies out
    ensures Solves(Sweeping(g), ZeroAt(g, sources), out[..])
  {
    StartIsZeroAt(g, sources);
    forall i | 0 <= i < out.Length {
      out[i] := Inf;
    }
    assert MinField(out[..], Start(g, sources, [])) == Start(g, sources, []);
    ghost var _ := SolveIntoSeeded(out, g, sources, []);
  }
}
