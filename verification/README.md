# JuPedSim: verified models of the floor field, the region split, the surface walk and the simulation step

JuPedSim simulates pedestrians on walkable surfaces. These Dafny files model the algorithms that its
results rest on, and prove what they promise:

* **Floor field** (`Times`, `Cells`, `Godunov`, `Relaxation`, `FastSweeping`, `TravelTimes`,
  `Propagation`, `PropagationEnds`, `ExactTimes`, `Tolerance`, `Budgets`, `Seams`, `SeamSamples`,
  `SeedOrigins`, `Halo`, `Queries`, `SeamDescent`, `Gradients`, `RegionGraphs`, `Directions`, `Layouts`,
  `WidePair`, `Combs`). Travel times on one
  grid come from fast sweeping: an in-place Gauss-Seidel iteration of the Godunov update in four orders
  until a round changes nothing. The sweeps end after at most a quarter as many rounds as there are
  walkable cells (plus two), from any starting field; the field they end with is the one solution of the
  discrete eikonal equation, which is also stated cell by cell, in terms of the cells around; a warm start
  gives the cold result exactly if its buffer is nowhere too low.
  Over several regions, label-correcting propagation carries times across seams, solving regions again as
  their seeds improve; every run of it ends, every field stays the cold solution from its seeds, and a
  successful run is nowhere before the exact times, which exist and are unique, and at most EPS per
  walkable cell after them. Seams are covered by their pairs without a gap. The halo written into
  obstacle cells can be masked away again, zero means "at the destination" exactly, for times as for
  directions, and a direction outside the
  destination is a unit vector that leads downhill; the gradient is the slope of the plane that fits the
  times around a cell best. Where the two cells of each pair across a seam touch, descent leads from
  every reached cell into the destination, across as many seams as it takes; a graph of two rooms whose
  common edge runs through cell centres shows that it can get stuck otherwise. A checked region graph
  builds a world that meets everything the propagation relies on.
* **Region split** (`UnionFind`, `SurfaceMesh`, `PatchGrowing`, `GrowthOrder`, `RegionMerging`,
  `GreedyMerging`, `RegionSplit`, `Renaming`, `Certificate`, `SplitCertificate`). Faces are grown into
  planar patches, patches merged greedily into regions whose boundary projects to simple loops. The
  stored boundaries are exact at every moment, path halving changes no representative, a hit in the
  cache of failed pairs means exactly that union has been rejected, every region hangs together, and no
  two neighbouring regions can be merged further. The whole split is determined: any two runs number the
  same regions in the same way, whatever the order in which floods grow, in floods that fail their
  certificate too. The hash grid of the certificate misses no violating pair, its verdict says that any two
  segments meet at most at one common vertex, and it depends on the set of boundary halfedges alone.
* **Straight walk** (`Rays`, `StraightWalk`, `Heights`). The exact walk from face to face: the two
  errors that "should not be possible" are impossible, and the faces walked through cover the whole
  segment.
* **Simulation step** (`Journeys`, `Stages`, `Neighborhood`, `Routing`, `Agents`, `Steps`,
  `AgentCourses`, `Simulation`, `RoutingEngine`, `Registration`, `Pocket`). The simulation as a machine
  over its public operations:
  stage counters, removal, decisions, directions, the double-buffered step, and the neighbourhood grid
  that answers range queries. From the time a journey is added, agents go from stage to stage as it was
  described. Routing can fail for an agent, and where it does so is traced back to the
  floor field. An agent for which it fails while being added stays in the simulation, and every iteration
  fails as long as it is neither marked for removal nor sent elsewhere; the exact condition for an add
  without such a trace can be checked beforehand, and a room joined to the exit's by a passage narrower
  than a cell is an input that violates it.
* **Two smaller pieces** (`RegionPieces`, `Trajectories`). Cutting an area along regions, and merging
  trajectory files.

`Wrappers`, `Sequences`, `Reals` and `Plane` hold what several of these share.

Numbers that the program keeps as doubles are exact reals here, with an explicit infinity for travel
times, and integers are unbounded. The square root of the Godunov update is a parameter of which only
`root(x) >= 0` and `root(x) * root(x) == x` are known. Geometric predicates that CGAL evaluates
exactly (intersection of segments and areas; coplanarity, an equivalence of faces with area) are
parameters too, and so are an operational model's next state and a stage's area. An error that the
program raises as an exception is a result value of the method here.

Where code and comments differ, the models follow the code. `find_root` is described as compressing
paths, but halves them; that the roots read directly at the end are right rests on the neighbours
being enumerated again after every merge, which leaves every element pointing at its root. A reachable
cell outside the destination is said to have a lower neighbour always; that holds where all pairs across
seams touch. The budget of the propagation is said to end a pathological exchange of ever smaller
improvements; it also ends the propagation over two regions that have to be left for each other often
enough. The comment in the trajectory merger says that empty lines and comments are skipped
throughout; past the first record an empty line is an error, and so is a comment, unless it happens to
have a number in its second column: then it counts for that frame, but is not copied.

`dafny verify dfyconfig.toml` checks everything.

## Model

| member | source | states |
|---|---|---|
| Godunov.UpdateSolvesUpwind | libfloorfield/src/fsm.rs:109-123 | the computed value solves (u-a)+^2 + (u-b)+^2 = cost^2, is finite iff a neighbour is, and is at most lo + cost |
| Godunov.UpdateIsTheSolution | libfloorfield/src/fsm.rs:109-123 | no other value solves that equation |
| Godunov.TwoSided | libfloorfield/src/fsm.rs:119-122 | in the two-sided branch the value lies strictly above the higher neighbour and at most cost above the lower one |
| Godunov.UpdateCausal | libfloorfield/src/fsm.rs:109-123 | the update is monotone in both neighbours, and neighbours at or above its value have no part in it |
| Godunov.UpdateShifts | libfloorfield/src/fsm.rs:109-123 | neighbours later by d make the value later by exactly d |
| Godunov.UpdateAboveLower | libfloorfield/src/fsm.rs:109-123 | a finite value lies strictly above some neighbour |
| Relaxation.PassSettlesOneMore | libfloorfield/src/fsm.rs:61-73 | any pass over all walkable cells, in any order and from any field, makes at least one more cell final |
| Relaxation.RelaxStaysAbove | libfloorfield/src/fsm.rs:98-103 | relaxing cells in any order never goes below a field that satisfies u <= offer everywhere |
| Relaxation.UnchangedIffSubSolution | libfloorfield/src/fsm.rs:69-71 | a pass changes nothing exactly when no cell can be lowered |
| Relaxation.SolvesIffEquation | libfloorfield/src/fsm.rs:36-73 | the greatest such field below the starting values is the one field where each cell holds the lower of its start and its offer |
| FastSweeping.SweepingIsCausal | libfloorfield/src/fsm.rs:77-158 | the grid's update, obstacles and borders included, rests on strictly earlier neighbours only |
| FastSweeping.RelaxCell | libfloorfield/src/fsm.rs:89-103 | lowers one cell in place to its candidate, if that is lower, and says whether it did |
| FastSweeping.Sweep | libfloorfield/src/fsm.rs:75-107 | one in-place sweep is the sequence of relaxations in its order of rows and columns; changed iff the field differs |
| FastSweeping.SweepCovers | libfloorfield/src/fsm.rs:87-88 | each of the four orders visits every cell |
| FastSweeping.SweepComesTo | libfloorfield/src/fsm.rs:61-88 | the four orderings: a sweep comes to row i, column j as many cells after its start as rows and columns, counted from the end where reversed, put it |
| FastSweeping.RoundSettlesFour | libfloorfield/src/fsm.rs:61-72 | a round of four sweeps makes at least four more cells final |
| FastSweeping.EnoughRounds | libfloorfield/src/fsm.rs:61-73 | after a quarter as many rounds as walkable cells the field is the solution and no round changes it |
| FastSweeping.SweepToConvergence | libfloorfield/src/fsm.rs:64-72 | the loop ends within that many rounds plus one, with the greatest field below the start that no update can lower |
| FastSweeping.StartHoldsSeeds | libfloorfield/src/fsm.rs:54-60 | a cold start holds the lowest seed of each walkable source cell and infinity elsewhere |
| FastSweeping.SolveIntoSeeded | libfloorfield/src/fsm.rs:21-73 | the result is the solution below what the buffer held and the seeds |
| FastSweeping.SolveInto | libfloorfield/src/fsm.rs:7-19 | a cold solve gives the solution from zero at the walkable sources and nothing elsewhere |
| TravelTimes.SolvesIffEikonal | libfloorfield/src/fsm.rs:36-123 | a field is the solver's result iff it satisfies the discrete eikonal equation with obstacles and seeds |
| TravelTimes.EikonalHasOneSolution | libfloorfield/src/fsm.rs:36-123 | that equation has exactly one solution, so the result does not depend on the sweep order |
| TravelTimes.SolvesByCells | libfloorfield/src/fsm.rs:89-158 | the solver's result is the one field in which every walkable cell holds its start or, if earlier, the time t with (t-a)+^2 + (t-b)+^2 = (cell size / speed)^2, a the least time left and right of it and b the least above and below, none past the border; obstacles hold their start |
| TravelTimes.NeighborsReach | libfloorfield/src/fsm.rs:98-123 | no walkable cell is later than any of its direct neighbours by more than cell size / speed |
| TravelTimes.WarmIsColdIffUpperBound | libfloorfield/src/fsm.rs:26-35 | a warm start gives the cold result iff its buffer is nowhere below the cold result |
| TravelTimes.WarmStartFromPrevious | libfloorfield/src/fsm.rs:29-32 | a previous solution whose seeds have only been added to or lowered is a sound warm start |
| TravelTimes.EarlierNeighbor | libfloorfield/src/multi_region.rs:768-771 | a cell that does not hold its own seed has a strictly earlier 4-neighbour |
| TravelTimes.DescentReachesSeed | libfloorfield/src/multi_region.rs:768-771 | from every reached cell, descending neighbours ends at a seed |
| TravelTimes.NothingBeforeSeeds | libfloorfield/src/multi_region.rs:416-428 | no cell is before the earliest seed, and only seeds are at it |
| Seams.LocalLatticeInverse | libfloorfield/src/multi_region.rs:95-124 | local and lattice indices translate into each other, on the grid and off it |
| Cells.DivMod | libfloorfield/src/multi_region.rs:107-123 | row and column of a row-major index are its quotient and remainder by the width |
| Seams.PadIsEnough | libfloorfield/src/multi_region.rs:194-227 | with a pad of two cells, every lattice cell within two cells of a point of the region's box is on its grid |
| Seams.NearestWalkable | libfloorfield/src/multi_region.rs:712-756 | the cell of the point if walkable and no side is asked for, else the nearest walkable one within two cells strictly on that side; none iff there is none |
| Seams.NearestIsUnique | libfloorfield/src/multi_region.rs:712-756 | the answer is determined, ties included: two queries at one point use one cell |
| Seams.SeamPairs | libfloorfield/src/multi_region.rs:669-710 | the pairs are exactly those of the samples, each once: the nearest walkable cells on either side, crossed at the mean of their speeds; nothing for a seam without length |
| Seams.SamplesAreClose | libfloorfield/src/multi_region.rs:685-685 | samples are at most half a cell apart, and fewer would not be |
| SeamSamples.PairsAtMiddles | libfloorfield/src/multi_region.rs:685-706 | the pairs of a seam with some length are those of the nearest cells left and right of it at the middles of its parts, cut into the fewest parts of at most half a cell |
| SeamSamples.SeamIsCovered | libfloorfield/src/multi_region.rs:669-671 | no stretch of a seam is left out: within a quarter of a cell of each of its points is one at which the nearest cells of both sides are paired |
| SeamSamples.CrossesIff | libfloorfield/src/multi_region.rs:703-706 | the crossing time is the one positive time in which the mean of both cells' speeds covers the distance of their centres |
| Seams.SidesByOrientation | libfloorfield/src/multi_region.rs:683-684 | the two normals tell apart exactly the points left and right of the seam by orientation |
| Seams.PairsFace | libfloorfield/src/multi_region.rs:669-710 | all pairs are walkable cells, the near one strictly left and the far one strictly right of the seam, within two cells of one point of it, with a positive crossing time |
| Seams.FarCellIsCovered | libfloorfield/src/multi_region.rs:194-197 | the far cell of every pair of an outer-ring seam lies on the near region's grid |
| Propagation.SolveRegion | libfloorfield/src/multi_region.rs:520-545 | a region's new field is the solution below its previous field and its seeds |
| Propagation.CrossPair | libfloorfield/src/multi_region.rs:595-610 | the far cell is seeded with the time of the crossing iff that improves what is known of it by more than EPS; nothing else changes |
| Propagation.CarriedIff | libfloorfield/src/multi_region.rs:595-610 | a time is carried across a pair exactly if it improves what is known of the far cell, its field or its seed, by more than 1e-9 |
| Propagation.CrossSeams | libfloorfield/src/multi_region.rs:591-616 | a solved region's times cross all its seams in turn; the regions where a seed changed become dirty, and every dirty region is queued |
| Propagation.StepKeeps | libfloorfield/src/multi_region.rs:571-618 | every solve, of whichever dirty region, keeps each field the cold solution from the seeds it was solved with, no label below the exact times, every crossing out of a solved region settled, and every region with changed seeds dirty; labels only get lower |
| Propagation.RunConverges | libfloorfield/src/multi_region.rs:571-618 | every run that leaves no region dirty, in whatever order, ends where no crossing improves by more than EPS, no field undercuts the exact times, each is the cold solution from its seeds, and exactly the destination cells are at zero |
| Propagation.Propagate | libfloorfield/src/multi_region.rs:547-618 | ends, and is such a run: on success within the budget and with no region dirty; it gives up only with a region dirty after the whole budget of solves |
| Budgets.CleanRunsAreLong | libfloorfield/src/multi_region.rs:571-618 | whatever the order, a run that leaves no region dirty has more solves than there are seams to cross on the way to any cell that can be reached |
| Budgets.BudgetRunsOut | libfloorfield/src/multi_region.rs:571-585 | so no run within the budget converges if some cell lies behind as many seams |
| Budgets.BudgetAllowsFiftyEach | libfloorfield/src/multi_region.rs:575-575 | a run that solves no region more than fifty times stays below the budget |
| Combs.BuildStrips | libfloorfield/src/multi_region.rs:200-269 | the graph of two strips, each cut into blocks by walls with a passage narrower than a cell, is accepted and built |
| Combs.CombsExceedBudget | libfloorfield/src/multi_region.rs:571-585 | built into whatever grids, with 150 blocks to a strip no run within the budget converges for a destination at the bottom, although a way leads from it to the top: not only ever smaller improvements end in NotConverged |
| Combs.PropagateUp | libfloorfield/src/multi_region.rs:547-585 | the propagation on them reports NotConverged, in whatever order it pops regions |
| SeedOrigins.RunAccounts | libfloorfield/src/multi_region.rs:595-610 | in every state of every run, each seed outside the destination is no earlier than what some crossing of a seam now leads to: the near cell's time plus the time across |
| PropagationEnds.StepDescends | libfloorfield/src/multi_region.rs:571-574 | every solve, of whichever dirty region, leaves fewer cells without a known time, or known times earlier by whole units of EPS, or fewer dirty regions |
| PropagationEnds.EveryRunEnds | libfloorfield/src/multi_region.rs:571-574 | so propagation ends even without its budget, in whatever order regions are popped |
| ExactTimes.GlobalIsValid | libfloorfield/src/multi_region.rs:547-552 | grids and seams together pose one causal relaxation problem: a crossing takes time, so no cell rests on one as late as itself |
| ExactTimes.ExactTimesExist | libfloorfield/src/multi_region.rs:547-552 | over all regions at once there is exactly one field of travel times |
| Tolerance.ConvergedWithinTolerance | libfloorfield/src/multi_region.rs:571-618 | in whatever order regions are popped, converged times are nowhere before the exact ones and nowhere later than these by more than EPS for every walkable cell, and finite exactly where they are |
| Halo.WrittenUnique | libfloorfield/src/multi_region.rs:641-667 | the stored field with its halo does not depend on the order of the writes |
| Halo.MaskingRecovers | libfloorfield/src/multi_region.rs:172-174 | setting halo cells to infinity gives back the plain field |
| Halo.WriteHalo | libfloorfield/src/multi_region.rs:650-667 | a write touches only an obstacle cell, and lowers it |
| Halo.WriteRegionHalo | libfloorfield/src/multi_region.rs:626-645 | a region's halo holds the neighbours' own times, also when a neighbour already has its halo |
| Halo.WriteHalos | libfloorfield/src/multi_region.rs:620-646 | the same for all regions, one after the other in place |
| Halo.TravelTimesOf | libfloorfield/src/multi_region.rs:345-364 | reported travel times are the plain field, infinite everywhere for a region without one |
| Queries.Solve | libfloorfield/src/multi_region.rs:547-648 | a stored solution is a converged field with the halo of every region; there is none only if a run can use up its budget |
| Queries.ZeroTimeIffSource | libsimulator/src/floorfield_routing_engine.cpp:94-98 | a walkable cell's stored time is exactly zero iff it is a source cell of the destination |
| Queries.SteepestAmong | libfloorfield/src/multi_region.rs:776-796 | picks the direction whose time drops fastest per distance, the first of several, and none iff none is lower |
| Queries.SteepestIsUnique | libfloorfield/src/multi_region.rs:776-796 | there is only one such direction |
| Queries.SteepestPerDistance | libfloorfield/src/multi_region.rs:776-796 | in the direction chosen the stored time drops most per distance (compared as squares), and strictly more than in any direction before it |
| Directions.NeighbourByCentre | libfloorfield/src/multi_region.rs:788-792 | the neighbour at an offset of rows and columns is the cell whose centre lies so many cell sizes up and to the right, none off the grid |
| Queries.SteepestDescent | libfloorfield/src/multi_region.rs:768-797 | the same over the eight neighbours on the grid |
| Queries.DownhillExists | libfloorfield/src/multi_region.rs:768-771 | at a reached walkable cell whose time is not a seed of its own, halo or not, some direction leads downhill |
| SeamDescent.DownhillAcross | libfloorfield/src/multi_region.rs:768-771 | at a cell seeded across a seam by a pair whose cells touch, the halo holds an earlier time |
| SeamDescent.AlwaysDownhill | libfloorfield/src/multi_region.rs:768-771 | if all pairs of the world are such, some direction leads downhill from every reached walkable cell outside the destination, seeded or not |
| SeamDescent.DescentNeverStuck | libfloorfield/src/multi_region.rs:772-797 | so steepest descent finds a direction there |
| SeamDescent.StepExists | libfloorfield/src/multi_region.rs:768-797 | and a step down can be taken there: to an earlier walkable neighbour, or through a halo cell to the cell across the seam whose time that holds |
| SeamDescent.DescentReachesDestination | libfloorfield/src/multi_region.rs:768-771 | so steps down lead from every reached cell into the destination, across as many seams as it takes |
| SeamDescent.AnyDescentEnds | libfloorfield/src/multi_region.rs:768-771 | whichever steps down are taken, they are no more than there are earlier cells |
| Gradients.LinearIsExact | libfloorfield/src/geometry.rs:131-158 | where times change by one slope in every direction, that slope is the gradient |
| Gradients.GradientFitsBest | libfloorfield/src/geometry.rs:131-158 | the gradient is the slope of the plane that fits the eight neighbours' times best, errors weighted by the inverse of the squared distance; every other slope fits worse |
| Gradients.GradientIgnoresDelay | libfloorfield/src/geometry.rs:131-158 | a delay of all times does not change the gradient, next to walls and borders either |
| Gradients.GradientLeadsDown | libfloorfield/src/geometry.rs:131-158 | against a gradient that does not vanish there lies an earlier neighbour, or a later one behind |
| RegionGraphs.ValidateGraph | libfloorfield/src/region_graph.rs:25-83 | accepts exactly the graphs with a region, three points to every ring, seams between two existing regions through edges of some length, none given twice, each with its reverse |
| RegionGraphs.EdgeOfIff | libfloorfield/src/region_graph.rs:98-106 | a seam's edge is from a point to the next of the ring it names, the last one to the first; the outer ring counts as 0 and the holes from 1 |
| RegionGraphs.OpensBothWays | libfloorfield/src/region_graph.rs:65-72 | in an accepted graph, a region that opens into another is opened into by it |
| RegionGraphs.RegionGridOf | libfloorfield/src/multi_region.rs:216-247 | the padded grid over the bounding box of a region's outer ring, with the speed at every centre; none iff it has too many cells |
| RegionGraphs.OriginOf | libfloorfield/src/multi_region.rs:209-213 | the least coordinates of all outer rings, each attained |
| RegionGraphs.Rasterise | libfloorfield/src/multi_region.rs:249-260 | a seam's pairs are those of its edge; on the outer ring all far cells lie on the near grid |
| RegionGraphs.Build | libfloorfield/src/multi_region.rs:200-269 | succeeds iff graph, wall influence radius, cell size and cell counts are acceptable, with every grid over its region on one lattice and a world that meets all that solving relies on |
| WidePairs.BuildRooms | libfloorfield/src/multi_region.rs:200-269 | an input: two rooms whose common edge runs through the centres of a column of cells are accepted and built |
| WidePairs.BuiltIsWide | libfloorfield/src/multi_region.rs:669-710 | whatever they are built into has grids of 7 x 6 cells with two and one walkable, and one pair across the seam, its cells two apart |
| WidePairs.WidePairGetsStuck | libfloorfield/src/multi_region.rs:768-771 | there, in any solution, the walkable cell of the second room is reached, but its gradient vanishes and no neighbour is earlier |
| WidePairs.WideWorldIsSolved | libfloorfield/src/multi_region.rs:620-648 | and there is a solution |
| WidePairs.AskThere | libfloorfield/src/multi_region.rs:402-428 | so the field answers a finite travel time there, and that the destination is unreachable |
| Directions.CellIsAroundCentre | libfloorfield/src/geometry.rs:46-62 | a point is in a cell exactly if it is in the square of one cell size around its centre, lower and left sides included |
| Directions.UnitPoints | libfloorfield/src/multi_region.rs:758-766 | the vector given has length 1 and some multiple of it leads from where it starts to its target, or it is zero if they are the same |
| Directions.PointsOneWay | libfloorfield/src/multi_region.rs:758-766 | there is only one such vector |
| Directions.PointSource | libfloorfield/src/multi_region.rs:451-471 | one walkable cell, the nearest to the point, and as anchor the point itself if it lies in that cell, else the cell's centre; none exactly if no cell is near |
| Directions.CellsPerRegion | libfloorfield/src/multi_region.rs:157-165 | the cells of every region are exactly those of the sources in it |
| Directions.TravelTime | libfloorfield/src/multi_region.rs:416-428 | the stored time of the point's cell, zero iff that is a source cell; not routable iff there is no such cell |
| Directions.Descend | libfloorfield/src/multi_region.rs:408-413 | the unit vector against the gradient where that exceeds 1e-12, else towards the neighbour of steepest descent; never zero, and downhill |
| Directions.Direction | libfloorfield/src/multi_region.rs:366-414 | at the cell that the point stands for: zero in an area, the unit vector from the point to the anchor in a point destination's cell, else that against the gradient or towards the steepest neighbour; an error exactly where no cell is near, the cell is not reached, or the gradient vanishes and nothing around is earlier |
| Directions.FindSource | libfloorfield/src/multi_region.rs:392-395 | the first source in the region that has the cell |
| Directions.ZeroTimeIffZeroDirection | libsimulator/src/floorfield_routing_engine.cpp:94-106 | asking for both at one point: for area destinations, the time is zero iff the direction is, and both fail to be routable together |
| Directions.MultiRegionFloorfield.PushDestination | libfloorfield/src/multi_region.rs:499-505 | ids are given in order; nothing else changes |
| Directions.MultiRegionFloorfield.SolutionOf | libfloorfield/src/multi_region.rs:507-518 | solves a destination on first use and keeps that solution; a failed solve stores nothing, and fails only by its budget |
| RoutingEngines.Contains | libsimulator/src/floorfield_routing_engine.cpp:94-98 | a place is in a stage's area iff its cell is a source cell; an error where the place has no cell or the destination does not converge |
| RoutingEngines.GetOrientation | libsimulator/src/floorfield_routing_engine.cpp:100-106 | the floor field's direction, or an error where it gives none |
| RoutingEngines.OrientFailsIff | libsimulator/src/floorfield_routing_engine.cpp:100-106 | a direction is found exactly at cells of the destination and at reached cells with a gradient or an earlier neighbour |
| RoutingEngines.ReachableIff | libfloorfield/src/multi_region.rs:402-413 | where all pairs across seams touch, that is exactly where the stored time is finite |
| UnionFind.FindRoot | libsimulator/src/geometry/region_split.cpp:238-246 | returns the representative; path halving changes no element's representative and shortens paths |
| UnionFind.RootsAgree | libsimulator/src/geometry/region_split.cpp:238-246 | a parent array has only one assignment of representatives |
| UnionFind.UniteKeepsForest | libsimulator/src/geometry/region_split.cpp:366-366 | pointing one root at another unites exactly their classes |
| SurfaceMesh.RegionBoundary | libsimulator/src/geometry/projected_boundary.cpp:68-84 | lists every boundary halfedge of the chosen faces, each once |
| SurfaceMesh.BoundaryOfUnion | libsimulator/src/geometry/region_split.cpp:248-272 | the boundary of two disjoint face sets is both boundaries minus what has the other set across |
| PatchGrowing.Flood | libsimulator/src/geometry/region_split.cpp:205-227 | marks a connected set of unassigned faces that join, and stops where no unassigned neighbour joins |
| PatchGrowing.FloodIsDetermined | libsimulator/src/geometry/region_split.cpp:23-25 | a flood marks the same faces whatever the order in which it grows |
| PatchGrowing.PatchBoundary | libsimulator/src/geometry/region_split.cpp:79-96 | the boundary halfedges of a patch, each once, found from its own faces |
| PatchGrowing.FinishPatch | libsimulator/src/geometry/region_split.cpp:107-120 | a finished patch has its lowest height, smallest face and exact boundary |
| PatchGrowing.Resplit | libsimulator/src/geometry/region_split.cpp:122-182 | every face of a failed flood gets an exactly coplanar patch, grown within that flood as far as it goes; no other face changes |
| PatchGrowing.GrowPlanarPatches | libsimulator/src/geometry/region_split.cpp:184-236 | every face gets a patch, with exact key and boundary: a certified flood from the least face left, through all that fits its plane, or an exactly coplanar part of such a flood that failed; the log of its floods accounts for every face |
| PatchGrowing.RoundIsGrown | libsimulator/src/geometry/region_split.cpp:122-236 | every face of a flood fits its seed's plane, and what fits it around the flood had a patch before; in a failed one each patch is so grown from its own seed by exact coplanarity within the flood |
| GrowthOrder.PatchesAreDetermined | libsimulator/src/geometry/region_split.cpp:23-25 | whatever the order in which floods grow, the same faces end up in one patch, in floods that fail their certificate too |
| RegionMerging.CacheHitWasRejected | libsimulator/src/geometry/region_split.cpp:303-350 | a cache hit means the same two face sets were rejected, in one order or the other |
| RegionMerging.RecordKeepsCacheSound | libsimulator/src/geometry/region_split.cpp:353-356 | recording a rejection keeps every cached entry true |
| RegionMerging.AbsorbKeepsSound | libsimulator/src/geometry/region_split.cpp:357-366 | an absorb keeps every live region's boundary, key and neighbours exact, each of its patches joined to its root by a chain of patches that meet, regions certified, and the cache true |
| RegionMerging.RegionHangsTogether | libsimulator/src/geometry/region_split.cpp:357-366 | so any two patches of a region are joined by such a chain within the region |
| RegionMerging.NeighborsLeadToRegions | libsimulator/src/geometry/region_split.cpp:307-321 | the roots of the stored, possibly stale neighbours are exactly the regions that meet this one |
| GreedyMerging.FirstInList | libsimulator/src/geometry/region_split.cpp:318-343 | scanning neighbours in key order, the first that passes is the first mergeable one of all |
| GreedyMerging.BeforeByKeys | libsimulator/src/geometry/region_split.cpp:52-59 | the order of keys is that of the faces: a region comes first if one of its faces reaches lower than all of the other's or, where they reach equally low, has a smaller index than all of them |
| GreedyMerging.OneSweepIsDetermined | libsimulator/src/geometry/region_split.cpp:327-372 | a sweep of the greedy rule has one result |
| GreedyMerging.MergingIsDetermined | libsimulator/src/geometry/region_split.cpp:303-372 | so do sweeps to the fixpoint, from any partition: cache, stored boundaries and neighbour lists do not bear on it |
| GreedyMerging.GreedyIsUnique | libsimulator/src/geometry/region_split.cpp:303-305 | two runs of the merge on the same patches end in the same partition, cache or no cache |
| Renaming.OnlyNamesDiffer | libsimulator/src/geometry/region_split.cpp:184-236 | two growths of patches differ at most in how patches are numbered |
| Renaming.GreedyToo | libsimulator/src/geometry/region_split.cpp:303-373 | under other patch numbers, greedy merging ends in the same partition |
| Renaming.NumbersAgree | libsimulator/src/geometry/region_split.cpp:400-412 | the numbers of regions depend on the partition of the faces alone |
| RegionSplit.LinkNeighbors | libsimulator/src/geometry/region_split.cpp:283-301 | each patch's neighbours are exactly the patches it shares an edge with |
| RegionSplit.Merger.MergedBoundary | libsimulator/src/geometry/region_split.cpp:248-272 | the candidate is exactly the boundary of the union, and trying it merges nothing |
| RegionSplit.Merger.NeighborRoots | libsimulator/src/geometry/region_split.cpp:307-321 | the regions a region meets, each once and by ascending key; afterwards every element points straight at its root |
| RegionSplit.Merger.Attempt | libsimulator/src/geometry/region_split.cpp:345-356 | succeeds exactly when the union passes, with the union's boundary; a failure is recorded under the ordered pair with both versions, whether tried now or found in the cache |
| RegionSplit.Merger.TryAbsorb | libsimulator/src/geometry/region_split.cpp:345-369 | absorbs iff the union passes; otherwise changes neither patches nor classes |
| RegionSplit.Merger.AbsorbFirst | libsimulator/src/geometry/region_split.cpp:343-369 | absorbs the region that is first in key order among those that can be absorbed, and none iff none can |
| RegionSplit.Merger.AbsorbNeighbors | libsimulator/src/geometry/region_split.cpp:338-371 | absorbs the first mergeable region in key order, again and again, until no region that this one meets can be absorbed |
| RegionSplit.Merger.Order | libsimulator/src/geometry/region_split.cpp:329-337 | all live regions in ascending order of their keys |
| RegionSplit.Merger.Sweep | libsimulator/src/geometry/region_split.cpp:327-372 | one sweep of the greedy rule; one that merges nothing shows that nothing can be merged, one that merges leaves fewer regions |
| RegionSplit.Merger.MergeToFixpoint | libsimulator/src/geometry/region_split.cpp:323-379 | ends within the asserted number of sweeps where the greedy rule leads, with no two adjacent live regions mergeable and every parent a root |
| RegionSplit.NumberRegions | libsimulator/src/geometry/region_split.cpp:400-412 | reading parents directly, faces get equal numbers iff their patches have one representative, numbered in the order first seen |
| RegionSplit.MergePatches | libsimulator/src/geometry/region_split.cpp:394-413 | from grown patches to numbered regions: the greedy partition, any two patches of a region joined by a chain within it, certified and not further mergeable |
| RegionSplit.SplitIntoRegions | libsimulator/src/geometry/region_split.cpp:382-413 | the whole split: patches grown by flooding, merged by the greedy rule; every face gets a region, and a region is one planar patch or certified as a whole |
| Renaming.SplitIsDetermined | libsimulator/src/geometry/region_split.cpp:382-413 | any two results of the split have the same regions with the same numbers |
| Certificate.ViolatingShareCell | libsimulator/src/geometry/projected_boundary.cpp:53-65 | two violating segments have a cell in common, for every positive cell size |
| Certificate.FileAll | libsimulator/src/geometry/projected_boundary.cpp:126-138 | each cell lists exactly the segments whose boxes meet it, in order |
| Certificate.ScanCells | libsimulator/src/geometry/projected_boundary.cpp:140-149 | scanning cells in any order finds a violating pair iff there is one among all pairs |
| Certificate.Collect | libsimulator/src/geometry/projected_boundary.cpp:96-115 | stops iff a segment is vertical or a vertex is an end more than twice |
| Certificate.FoldsBackIff | libsimulator/src/geometry/projected_boundary.cpp:50-64 | two segments out of a common vertex fold back exactly if they have another point in common |
| Certificate.ViolatesIff | libsimulator/src/geometry/projected_boundary.cpp:46-64 | a pair violates exactly if the segments meet elsewhere than at one common mesh vertex |
| Certificate.StrictlySimpleIff | libsimulator/src/geometry/projected_boundary.cpp:86-150 | the all-pairs verdict in the plane: no vertical segment, no vertex that is an end more than twice, any two segments meet at most at one common vertex |
| Certificate.IsProjectionStrictlySimple | libsimulator/src/geometry/projected_boundary.cpp:86-150 | accepts exactly the boundaries without a vertical segment, with no vertex an end more than twice, and any two of whose segments meet at most at one common vertex; whatever the cell size and the order of cells |
| Certificate.VerdictIgnoresOrder | libsimulator/src/geometry/projected_boundary.cpp:117-119 | the verdict does not depend on the order in which the boundary is listed |
| SplitCertificates.VerdictIsOfSet | libsimulator/src/geometry/projected_boundary.cpp:117-119 | the verdict on a listed boundary is one of its set of halfedges |
| SplitCertificates.CertifyFaces | libsimulator/src/geometry/projected_boundary.cpp:68-150 | the certificate run on the boundary of some faces gives that verdict |
| SplitCertificates.RegionsAreSimple | libsimulator/src/geometry/region_split.cpp:345-379 | split with that verdict, every region of more than one patch has a boundary that projects to simple loops, and any two regions that meet have none together |
| Rays.Balance | libsimulator/src/geometry/location.cpp:90-102 | at every point of the ray, the triangle's offsets and the corners' sides balance |
| Rays.CrossingInside | libsimulator/src/geometry/location.cpp:150-159 | where the ray crosses between two corners it is inside the triangle |
| Rays.OutAfterSide | libsimulator/src/geometry/location.cpp:121-159 | after coming in across a side, the way on lies further along the ray, be it through the third corner or across one of the other sides |
| Rays.OutAfterCorner | libsimulator/src/geometry/location.cpp:45-76 | after coming in through a corner into its sector there is a way on, further along the ray |
| Rays.OutOfStart | libsimulator/src/geometry/location.cpp:121-159 | from a start inside with no corner ahead on the ray, some side is crossed from right to left |
| StraightWalks.FanFace | libsimulator/src/geometry/location.cpp:45-76 | a face around the vertex whose sector holds the direction, none iff there is none |
| StraightWalks.InSectorIff | libsimulator/src/geometry/location.cpp:45-76 | a face's sector at a vertex holds a direction exactly if a way from the vertex in that direction, however short, begins on the face |
| StraightWalks.ExitExists | libsimulator/src/geometry/location.cpp:150-165 | unless a vertex is hit, exactly one side is a forward exit |
| StraightWalks.CornerIsProgress | libsimulator/src/geometry/location.cpp:121-144 | a vertex hit lies further along the ray and before the target |
| StraightWalks.SideIsProgress | libsimulator/src/geometry/location.cpp:150-171 | so does an edge crossing |
| StraightWalks.OutsideBeforeEntry | libsimulator/src/geometry/location.cpp:106-110 | before it enters a face the ray is outside it, so no face is entered twice after the start |
| StraightWalks.StepsBounded | libsimulator/src/geometry/location.cpp:106-117 | there are never more steps than faces |
| StraightWalks.Step | libsimulator/src/geometry/location.cpp:117-171 | one step arrives, leaves the area, or goes on into a face entered further along; it is never stuck |
| StraightWalks.TrailCovers | libsimulator/src/geometry/location.cpp:78-82 | the faces walked through contain every point of the ray passed so far |
| StraightWalks.StraightWalk | libsimulator/src/geometry/location.cpp:78-174 | neither error is reached; the walk arrives in a face covering the target, or leaves through a border edge or a vertex with no face ahead, and its faces cover the segment up to there |
| Heights.HeightWithinCorners | libsimulator/src/geometry/location.cpp:14-36 | the height at a point of a face lies between its corners' heights |
| Heights.InsideIffMean | libsimulator/src/geometry/location.cpp:14-36 | a point lies in a triangle exactly if it is a mean of the corners without negative weights |
| Heights.HeightOfMean | libsimulator/src/geometry/location.cpp:14-36 | the height of a mean of the corners is the mean of their heights with the same weights |
| Heights.NoStepBetweenFaces | libsimulator/src/geometry/location.cpp:14-36 | two faces give the points of a shared side the same height |
| Journeys.RoundRobinTransition.Create | libsimulator/src/journey.hpp:114-124 | refused iff a weight is zero; starts at the beginning of its cycle |
| Journeys.RoundRobinTransition.NextStage | libsimulator/src/journey.hpp:126-140 | returns the stage whose prefix-sum interval holds the counter, and advances the counter around the cycle |
| Journeys.CallsFollowPicks | libsimulator/src/journey.hpp:126-140 | the n-th further call picks what call counter + n of a fresh start picks |
| Journeys.AnyWindowIsFair | libsimulator/src/journey.hpp:107-141 | any sum-of-weights consecutive calls pick each stage exactly as often as its weight |
| Journeys.LeastTargeted | libsimulator/src/journey.hpp:154-163 | the first candidate with the fewest agents heading for it |
| Journeys.LeastTargetedKeepsBalance | libsimulator/src/journey.hpp:143-164 | sending agents from elsewhere to it keeps candidates' counts within one of each other |
| Stages.StageManager.AddStage | libsimulator/src/stage_manager.hpp:26-35 | a new stage starts with no agents heading for it |
| Stages.StageManager.HandleNewAgent | libsimulator/src/stage_manager.hpp:43-43 | one stage gains one agent |
| Stages.StageManager.HandleRemoveAgent | libsimulator/src/stage_manager.hpp:44-44 | one stage loses one agent |
| Stages.StageManager.MigrateAgent | libsimulator/src/stage_manager.hpp:37-41 | one stage gains what another loses; nothing changes for an agent that stays |
| Neighborhood.CellsAreClose | libsimulator/src/neighborhood_search.hpp:71-76 | coordinates within r fall into cells at most ceil(r / cell size) apart, also across zero where the index truncates |
| Neighborhood.NeighborhoodSearch.IndexCounts | libsimulator/src/neighborhood_search.hpp:71-76 | an index counts whole cells away from zero on either side of it, so that the cells next to the axes are twice as wide |
| Neighborhood.NeighborhoodSearch.AddAgent | libsimulator/src/neighborhood_search.hpp:81-86 | files one more item, keeping every item filed once where it is |
| Neighborhood.NeighborhoodSearch.Update | libsimulator/src/neighborhood_search.hpp:103-111 | afterwards exactly the given items are filed |
| Neighborhood.NeighborhoodSearch.InRange | libsimulator/src/neighborhood_search.hpp:113-138 | exactly the items on the disc of the given radius, each once |
| Agents.NextStage | libsimulator/src/journey.hpp:96-164 | each kind of transition leads to the stage its rule names |
| Agents.CallLeadsOn | libsimulator/src/simulation.cpp:144-189 | the k-th call of a stage's transition leads where its description says: to the stage itself, to the one named, to the entry whose prefix interval holds k modulo the sum of weights, or to the first least targeted one |
| Agents.DroppingKeepsCounters | libsimulator/src/agent_removal_system.hpp:38-47 | the counter of a dropped agent's stage is positive, and counters match the agents left |
| Agents.MigrationKeepsCounters | libsimulator/src/strategical_desicion_system.hpp:25-30 | counters match again after an agent has changed its stage |
| Agents.RemovalEnds | libsimulator/src/agent_removal_system.hpp:28-50 | the survivors are consistent with the counters |
| Steps.DecisionsTogether | libsimulator/src/strategical_desicion_system.hpp:20-31 | a run of decisions sends each agent on iff it has completed its stage, routes it to where it heads, lists those at an exit once and in order, and changes nothing else |
| Steps.ClosedJourneysLoseNobody | libsimulator/src/strategical_desicion_system.hpp:25-30 | if transitions lead only to stages of their own journey, no decision takes an agent off its journey |
| Steps.IterationLosesNobody | libsimulator/src/simulation.cpp:82-118 | then every agent is on its journey after an iteration too, be it successful or not, and one fails only where the completion test or the direction of an agent fails, or in the operational step |
| Steps.CourseLosesNobody | libsimulator/src/simulation.cpp:82-118 | so no agent leaves its journey over any number of iterations, failed ones among them |
| AgentCourses.AgentsFollowDescriptions | libsimulator/src/simulation.cpp:120-195 | from the time a journey is added, whatever else happens, the k-th agent to go on from one of its stages is sent where the stage's description says |
| AgentCourses.IterationPerAgent | libsimulator/src/simulation.cpp:82-118 | after a successful iteration each agent is on its journey, at its stage or the next one if it had reached it, routed to that stage, walking as the router said from where it stood, and where its model took it from the same generation |
| AgentCourses.ExitsAreListed | libsimulator/src/strategical_desicion_system.hpp:20-31 | the agents listed for removal by an iteration are those that have reached an exit |
| Steps.FailedAddStays | libsimulator/src/simulation.cpp:257-264 | an agent once registered is in the list whether adding it then fails or not, and no other agent changes |
| Steps.StrandedAgentBlocks | libsimulator/src/simulation.cpp:82-118 | while an agent without a way to its stage is not marked for removal every iteration fails, and the agent stays where it is |
| Registration.ReadyIffPrepared | libsimulator/src/simulation.cpp:256-264 | routing answers exactly if the agent's place stands for a cell and a direction leads from there to where its first decision sends it |
| Registration.AddLeavesNoTraceIff | libsimulator/src/simulation.cpp:257-264 | an agent that is registered is added successfully, or without a trace, exactly if that holds of it |
| Registration.Add | libsimulator/src/simulation.cpp:226-265 | the whole operation succeeds or leaves the simulation as it was exactly if the agent is refused beforehand or that holds of it |
| Registration.PreparedBeforeCompletion | libsimulator/src/simulation.cpp:256-264 | for an agent outside its stage that is a direction to the stage, and where all pairs across seams touch, a finite stored time |
| Registration.StrandedIff | libfloorfield/src/multi_region.rs:402-413 | an agent is without a way to its stage exactly where no direction can be given, and where all pairs across seams touch, where the stored time is infinite |
| Pocket.BuildPocket | libfloorfield/src/multi_region.rs:1350-1368 | an input: an outline of two rooms joined by a passage narrower than a cell is accepted and built into a grid where an obstacle separates them |
| Pocket.AddInPocket | libfloorfield/src/multi_region.rs:1350-1368 | over any field built from that outline: adding an agent in the far room fails, yet it is in the list, the grid and its stage's counter, and the next iteration fails |
| Simulations.Simulation.constructor | libsimulator/src/simulation.cpp:57-66 | a new simulation is consistent, its grid filed |
| Simulations.Simulation.RemoveAgents | libsimulator/src/agent_removal_system.hpp:28-50 | exactly the listed agents go, survivors keep their order, counters match, the list is cleared |
| Simulations.Simulation.DropListed | libsimulator/src/stage.hpp:77-81 | each removed agent takes one off a positive counter, however often it is listed |
| Simulations.Simulation.Decide | libsimulator/src/journey.hpp:188-198 | one agent's decision as a whole: exit list, transition, counters, stage and target; a failure of the completion test, or a stage that is not part of the journey, leaves everything as it was |
| Simulations.Simulation.DecideFrom | libsimulator/src/strategical_desicion_system.hpp:20-31 | decisions follow one another, each on what the ones before it left; the first one that fails ends the run |
| Simulations.Simulation.TurnFrom | libsimulator/src/tactical_decision_system.hpp:16-22 | every agent gets the direction to its target; the first one for which there is none ends the run, with those before it turned |
| Simulations.Simulation.NextGeneration | libsimulator/src/operational_decision_system.hpp:41-49 | every agent's next state is computed from the current generation alone |
| Simulations.Simulation.Operate | libsimulator/src/operational_decision_system.hpp:33-55 | all agents move simultaneously, or none does |
| Simulations.Simulation.Iterate | libsimulator/src/simulation.cpp:82-118 | one time step from a consistent state to a consistent one, also when it fails; removal, decisions, directions and step compose, and what stopped a failed one is stated; refused while iterating, and the flag is always cleared |
| Simulations.Simulation.AddStage | libsimulator/src/simulation.cpp:197-224 | accepted iff not iterating, the id is unused, a waypoint's distance is positive and its area, like an exit's, meets its region and has cells; it is then of the kind described with counter zero, else nothing changes |
| Simulations.Simulation.AddJourney | libsimulator/src/simulation.cpp:120-195 | accepted iff not iterating, all stages exist, no weight is zero and direct steering stands alone; every stage then has the transition described, at its beginning; else nothing changes; the simulation stays valid iff it was refused or every list of a transition names a stage, which is not checked |
| Simulations.Simulation.AddAgent | libsimulator/src/simulation.cpp:226-265 | refused without a trace iff iterating, the journey has no such stage or the model does not admit the agent; otherwise registered, and the call succeeds iff routing answers for its first decision and direction |
| Simulations.Simulation.MarkForRemoval | libsimulator/src/simulation.cpp:288-299 | lists the agent iff it exists and no iteration is under way |
| Simulations.Simulation.SwitchJourney | libsimulator/src/simulation.cpp:353-372 | moves one agent, with its counters, iff journey, stage and agent exist; else nothing changes |
| Simulations.Simulation.AgentsInRange | libsimulator/src/simulation.cpp:374-382 | the ids of exactly the agents on the disc of the given radius, each once |
| RegionPieces.FinishedSearch | libsimulator/src/geometry/geometry.cpp:340-359 | a finished search has done exactly the regions reached through seams that meet the area, each once, cycles or not |
| RegionPieces.OneOrder | libsimulator/src/geometry/geometry.cpp:344-359 | there is only one order in which regions are done |
| RegionPieces.VisitLeast | libsimulator/src/geometry/geometry.cpp:347-357 | the least waiting region is done and its unseen neighbours across such seams wait |
| RegionPieces.SplitIntoRegionPieces | libsimulator/src/geometry/geometry.cpp:311-361 | the pieces of exactly the regions reached, region by region; an error without a region graph or where the area misses the seed region |
| Trajectories.ParseHeader | scripts/Merge_Trajectories.py:326-368 | reads the header up to the first other line; the last frame rate and geometry count |
| Trajectories.Parse | scripts/Merge_Trajectories.py:326-386 | accepts exactly the files with a readable header, a frame rate, a geometry, and then only lines that count for a frame, leaving out none |
| Trajectories.CorrectIff | scripts/Merge_Trajectories.py:326-386 | what a correct file is, line by line: a readable header with a frame rate and a geometry, then a record, then lines that count for the frame of the line before or the next, by their frame or by the number in the second column of a line starting with # |
| Trajectories.EmptyLineAtTheEnd | scripts/Merge_Trajectories.py:367-386 | an input: a correct file with an empty line after its last record is refused |
| Trajectories.CommentHidesGap | scripts/Merge_Trajectories.py:367-386 | an input: a comment fills a gap in the frames, so the file is accepted, but its copied lines leave that frame out |
| Trajectories.EntriesCoverIffBacked | scripts/Merge_Trajectories.py:480-490 | what is copied of an accepted file follows the frame rule over its range exactly if every frame that a comment counts for is also that of a record |
| Trajectories.FrameRuleCovers | scripts/Merge_Trajectories.py:370-383 | records that equal or follow the last by one take every frame from first to last |
| Trajectories.CheckData | scripts/Merge_Trajectories.py:436-458 | accepts iff every start is the least one or follows an end, and no start appears twice |
| Trajectories.MatchingIffTiles | scripts/Merge_Trajectories.py:436-458 | sorted by start, files are accepted iff each ends right before the next starts |
| Trajectories.MatchingIgnoresOrder | scripts/Merge_Trajectories.py:436-465 | acceptance does not depend on the order of the files |
| Trajectories.TilesMergeWell | scripts/Merge_Trajectories.py:461-490 | entries of tiling files of that kind, one after the other, follow the frame rule again over the whole range |
| Trajectories.MergeTrajectories | scripts/Merge_Trajectories.py:461-490 | the merged lines are records, file by file in the order of their starts, and have every frame from the least start to the greatest end by the frame rule iff all files are of that kind |

## Left out

- Rounding, NaN, overflow of 32- and 64-bit integers, and saturation: values are exact reals and unbounded integers.
- The claim that times over several regions equal those of one grid: it is only approximate.
- How close the gradient comes to the slope of a field that is not linear around a cell: a matter of discretisation.
- The keys of the propagation's heap: any queued region may be popped, which covers every key order; the region's field is put back before its seams are crossed rather than after, which is the same since no seam leads back to its own region.
- Distances to walls and the cells inside a polygon: the speed at a cell's centre is a function of region and point, and an area's cells come with its sources.
- SeamDescent.AlwaysDownhill: is not shown for worlds with a pair whose cells do not touch; `WidePairs.WidePairGetsStuck` shows that it can fail there.
- Propagation.Propagate: that its budget only ends exchanges of ever smaller improvements is not so, as `Combs` shows; `Budgets` has a condition under which no run ends within it and one under which it is not used up, and between the two it depends on the order of regions.
- The mesh library: a mesh is its faces, halfedges and their opposites, or for the walk its faces' corners, neighbours and fans; AABB queries, visibility and shortest paths are not modelled.
- Patch neighbour lists are not sorted and made unique before merging: only which patches they hold matters, as their roots are sorted at each use.
- The certificate inside the merge is any verdict on a set of boundary halfedges; `SplitCertificates` shows that the actual one is such a verdict and what follows.
- The certificate's cell size: any positive one, so the mean segment length is not computed.
- StraightWalks.StraightWalk: does not say that the fan of a vertex lists all faces around it, because that is the mesh library's promise; leaving through a vertex is leaving the faces listed.
- Stages as objects shared by pointer: journeys and agents name stages by id, and a map holds the counters.
- Shortest paths to single places, which agents of direct steering follow: any function of target and place that may fail.
- Simulations.Simulation.AddAgent: takes the position as already located on the surface, because finding a face is the mesh library's work.
- Runs after a journey with an empty list of next stages was accepted: using such a list is undefined (a remainder by zero, an element of an empty list), so the other operations require a simulation without one (`Valid`).
- Simulations.Simulation.Iterate: an operational model is any function of the current generation, and a failing one moves nobody; what a custom model calls back is refused by the flag.
- `NeighborhoodSearch::remove_agent`, timers, tracing, logging and error texts.
- Cutting and rounding of polygons in RegionPieces: the pieces of a region are a function of the region.
- Files without records: the check of starts and ends needs them.
- Plotting, viewers, input and output formats, bindings and examples.
