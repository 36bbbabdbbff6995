// Cutting an area along the regions it lies in (libsimulator/src/geometry/geometry.cpp):
// a search over the regions joined by seams that meet the area.
module RegionPieces {
  import opened Sequences
  import opened Wrappers

  type Region = nat

  datatype Edge = Edge(target: Region, seam: nat)

  /** The directed region graph: the edges out of each region. */
  type Graph = seq<seq<Edge>>

  ghost predicate ValidGraph(g: Graph) {
    forall r: Region, e :: r < |g| && e in g[r] ==> e.target < |g|
  }

  /** A seam from a to b meets the area. */
  ghost predicate Joined(g: Graph, meets: nat -> bool, a: Region, b: Region) {
    a < |g| && exists e :: e in g[a] && e.target == b && meets(e.seam)
  }

  // ---- Reachability ----

  /** The walk goes through seams that meet the area. */
  ghost predicate Walk(g: Graph, meets: nat -> bool, w: seq<Region>) {
    if |w| <= 1 then
      w != []
    else
      var n := |w| - 1;
      Walk(g, meets, w[..n]) && Joined(g, meets, w[n - 1], w[n])
  }

  ghost predicate Reached(g: Graph, meets: nat -> bool, from: Region, to: Region) {
    exists w :: Walk(g, meets, w) && w[0] == from && w[|w| - 1] == to
  }

  lemma ReachedOneMore(g: Graph, meets: nat -> bool, from: Region, a: Region, b: Region)
    requires Reached(g, meets, from, a) && Joined(g, meets, a, b)
    ensures Reached(g, meets, from, b)
  {
    var w :| Walk(g, meets, w) && w[0] == from && w[|w| - 1] == a;
    assert (w + [b])[..|w|] == w;
    assert Walk(g, meets, w + [b]);
  }

  // ---- The order of the search ----

  /** What is left to do after the regions in `done`: the seed at first, then every other region
      joined to one of them. */
  ghost predicate Waiting(g: Graph, meets: nat -> bool, seed: Region, done: seq<Region>, r: Region) {
    r !in done && (if done == [] then r == seed else exists d :: d in done && Joined(g, meets, d, r))
  }

  ghost predicate LeastWaiting(g: Graph, meets: nat -> bool, seed: Region, done: seq<Region>, r: Region) {
    Waiting(g, meets, seed, done, r) && forall s :: Waiting(g, meets, seed, done, s) ==> r <= s
  }

  /** Each region is, in its turn, the least of those waiting. */
  ghost predicate Explored(g: Graph, meets: nat -> bool, seed: Region, done: seq<Region>) {
    done != [] ==>
      var n := |done| - 1;
      Explored(g, meets, seed, done[..n]) && LeastWaiting(g, meets, seed, done[..n], done[n])
  }

  lemma {:induction false} ExploredOnce(g: Graph, meets: nat -> bool, seed: Region, done: seq<Region>)
    requires Explored(g, meets, seed, done)
    ensures NoDuplicates(done)
    ensures done != [] ==> done[0] == seed
    ensures forall r :: r in done ==> Reached(g, meets, seed, r)
  {
    if done != [] {
      var n := |done| - 1;
      var front, last := done[..n], done[n];
      ExploredOnce(g, meets, seed, front);
      NoDuplicatesConcat(front, [last]);
      assert done == front + [last];
      if n == 0 {
        assert Walk(g, meets, [seed]);
      } else {
        var d :| d in front && Joined(g, meets, d, last);
        ReachedOneMore(g, meets, seed, d, last);
      }
    }
  }

  /** Once nothing is waiting, every region that a walk reaches is done. */
  lemma {:induction false} NothingMissed(g: Graph, meets: nat -> bool, seed: Region, done: seq<Region>, w: seq<Region>)
    requires Explored(g, meets, seed, done) && done != []
    requires forall r :: !Waiting(g, meets, seed, done, r)
    requires Walk(g, meets, w) && w[0] == seed
    ensures w[|w| - 1] in done
  {
    ExploredOnce(g, meets, seed, done);
    if |w| > 1 {
      var n := |w| - 1;
      NothingMissed(g, meets, seed, done, w[..n]);
      assert !Waiting(g, meets, seed, done, w[n]);
    }
  }

  /** A finished search has done exactly the regions reached from the seed through seams that meet
      the area, each once, whether or not the graph has cycles. */
  lemma FinishedSearch(g: Graph, meets: nat -> bool, seed: Region, done: seq<Region>)
    requires Explored(g, meets, seed, done) && forall r :: !Waiting(g, meets, seed, done, r)
    ensures NoDuplicates(done) && forall r :: r in done <==> Reached(g, meets, seed, r)
  {
    ExploredOnce(g, meets, seed, done);
    assert done == [] ==> Waiting(g, meets, seed, done, seed);
    forall r | Reached(g, meets, seed, r) ensures r in done {
      var w :| Walk(g, meets, w) && w[0] == seed && w[|w| - 1] == r;
      NothingMissed(g, meets, seed, done, w);
    }
  }

  lemma LeastIsUnique(g: Graph, meets: nat -> bool, seed: Region, done: seq<Region>, r: Region, s: Region)
    requires LeastWaiting(g, meets, seed, done, r) && LeastWaiting(g, meets, seed, done, s)
    ensures r == s
  {
  }

  /** And there is only one such order. */
  lemma {:induction false} OneOrder(g: Graph, meets: nat -> bool, seed: Region, a: seq<Region>, b: seq<Region>)
    requires Explored(g, meets, seed, a) && Explored(g, meets, seed, b) && |a| <= |b|
    ensures a == b[..|a|]
  {
    if |b| > |a| {
      assert b[..|b| - 1][..|a|] == b[..|a|];
      OneOrder(g, meets, seed, a, b[..|b| - 1]);
    } else if a != [] {
      var n := |a| - 1;
      OneOrder(g, meets, seed, a[..n], b[..n]);
      assert b[..n][..n] == b[..n];
      LeastIsUnique(g, meets, seed, a[..n], a[n], b[n]);
      assert a == a[..n] + [a[n]] && b == b[..n] + [b[n]] && b[..|a|] == b;
    }
  }

  // ---- The search ----

  /** The search state: `seen` marks the regions done, `todo` holds those waiting. */
  ghost predicate Searching(
    g: Graph, meets: nat -> bool, seed: Region, seen: seq<bool>, todo: set<Region>, done: seq<Region>) {
    && |seen| == |g|
    && Explored(g, meets, seed, done)
    && (forall r: Region :: r in done <==> r < |g| && seen[r])
    && forall r: Region :: r in todo <==> Waiting(g, meets, seed, done, r)
  }

  /** The edges of region r looked at so far have added their targets. */
  ghost predicate Spreading(
    g: Graph, meets: nat -> bool, seed: Region, todo: set<Region>, todo': set<Region>, done: seq<Region>, r: Region,
    i: nat)
    requires r < |g| && i <= |g[r]|
  {
    forall x: Region :: x in todo' <==>
      x in todo || (x !in done && exists k :: 0 <= k < i && g[r][k].target == x && meets(g[r][k].seam))
  }

  lemma AllSpread(
    g: Graph, meets: nat -> bool, seed: Region, seen: seq<bool>, todo: set<Region>, todo': set<Region>,
    done: seq<Region>, r: Region)
    requires ValidGraph(g) && Searching(g, meets, seed, seen, todo, done)
    requires r < |g| && LeastWaiting(g, meets, seed, done, r)
    requires Spreading(g, meets, seed, todo - {r}, todo', done + [r], r, |g[r]|)
    ensures Searching(g, meets, seed, seen[r := true], todo', done + [r])
  {
    assert (done + [r])[..|done|] == done;
    forall x: Region ensures x in todo' <==> Waiting(g, meets, seed, done + [r], x) {
      if Joined(g, meets, r, x) {
        var e :| e in g[r] && e.target == x && meets(e.seam);
        var k :| 0 <= k < |g[r]| && g[r][k] == e;
      }
      assert (exists d :: d in done + [r] && Joined(g, meets, d, x)) <==>
             (exists d :: d in done && Joined(g, meets, d, x)) || Joined(g, meets, r, x) by {
        assert r in done + [r];
      }
      if done == [] {
        assert x in todo <==> x == seed;
        assert r == seed;
      }
    }
  }

  lemma WaitingInGraph(g: Graph, meets: nat -> bool, seed: Region, done: seq<Region>, r: Region)
    requires ValidGraph(g) && seed < |g| && Waiting(g, meets, seed, done, r)
    ensures r < |g|
  {
  }

  lemma LeastExists(s: set<Region>)
    requires s != {}
    ensures exists r :: r in s && forall x :: x in s ==> r <= x
  {
    var x :| x in s;
    if exists y :: y in s && y < x {
      LeastBelow(s, x);
    }
  }

  lemma {:induction false} LeastBelow(s: set<Region>, x: Region)
    requires x in s
    ensures exists r :: r in s && forall y :: y in s ==> r <= y
  {
    if y :| y in s && y < x {
      LeastBelow(s, y);
    }
  }

  /** Mark region r done and add the regions its edges lead to. */
  method Spread(
    g: Graph, meets: nat -> bool, ghost seed: Region, seen: seq<bool>, todo: set<Region>, ghost done: seq<Region>,
    r: Region)
    returns (seen': seq<bool>, todo': set<Region>)
    requires ValidGraph(g) && Searching(g, meets, seed, seen, todo, done)
    requires r < |g| && LeastWaiting(g, meets, seed, done, r)
    ensures Searching(g, meets, seed, seen', todo', done + [r])
    ensures seen' == seen[r := true]
  {
    seen' := seen[r := true];
    todo' := todo - {r};
    for i := 0 to |g[r]|
      invariant Spreading(g, meets, seed, todo - {r}, todo', done + [r], r, i)
    {
      var n := g[r][i].target;
      if !seen'[n] && meets(g[r][i].seam) {
        todo' := todo' + {n};
      }
    }
    AllSpread(g, meets, seed, seen, todo, todo', done, r);
  }

  /** The pieces of the regions done, in order. */
  function PiecesOf<P>(cut: Region -> seq<P>, done: seq<Region>): seq<(P, Region)> {
    if done == [] then []
    else
      var r := done[|done| - 1];
      PiecesOf(cut, done[..|done| - 1]) + Tagged(cut(r), r)
  }

  function Tagged<P>(pieces: seq<P>, r: Region): (t: seq<(P, Region)>)
    ensures |t| == |pieces| && forall i :: 0 <= i < |t| ==> t[i] == (pieces[i], r)
  {
    seq(|pieces|, i requires 0 <= i < |pieces| => (pieces[i], r))
  }

  datatype Error = NoRegionGraph | AreaOutsideRegion

  datatype Result<P> = Ok(pieces: seq<(P, Region)>) | Err(error: Error)

  function Unseen(seen: seq<bool>): nat {
    if seen == [] then 0 else Unseen(seen[..|seen| - 1]) + (if seen[|seen| - 1] then 0 else 1)
  }

  lemma {:induction false} MarkSeen(seen: seq<bool>, r: nat)
    requires r < |seen| && !seen[r]
    ensures Unseen(seen[r := true]) == Unseen(seen) - 1
  {
    var n := |seen| - 1;
    if r == n {
      assert seen[r := true][..n] == seen[..n];
    } else {
      assert seen[r := true][..n] == seen[..n][r := true];
      MarkSeen(seen[..n], r);
    }
  }

  /** Take the least region waiting. */
  method VisitLeast(
    g: Graph, meets: nat -> bool, ghost seed: Region, seen: seq<bool>, todo: set<Region>, ghost done: seq<Region>)
    returns (r: Region, seen': seq<bool>, todo': set<Region>)
    requires ValidGraph(g) && seed < |g| && Searching(g, meets, seed, seen, todo, done) && todo != {}
    ensures Searching(g, meets, seed, seen', todo', done + [r]) && Unseen(seen') < Unseen(seen)
  {
    LeastExists(todo);
    r :| r in todo && forall y :: y in todo ==> r <= y;
    WaitingInGraph(g, meets, seed, done, r);
    MarkSeen(seen, r);
    seen', todo' := Spread(g, meets, seed, seen, todo, done, r);
  }

  method SplitIntoRegionPieces<P>(
    graph: Option<Graph>, meets: nat -> bool, touches: Region -> bool, cut: Region -> seq<P>, seed: Region)
    returns (r: Result<P>, ghost done: seq<Region>)
    requires graph.Some? ==> ValidGraph(graph.value) && seed < |graph.value|
    ensures r == Err(NoRegionGraph) <==> graph.None?
    ensures r == Err(AreaOutsideRegion) <==> graph.Some? && !touches(seed)
    ensures r.Ok? ==> r.pieces == PiecesOf(cut, done)
    ensures r.Ok? ==> NoDuplicates(done) && forall x :: x in done <==> Reached(graph.value, meets, seed, x)
    ensures r.Ok? ==> Explored(graph.value, meets, seed, done)
  {
    done := [];
    if graph.None? {
      return Err(NoRegionGraph), done;
    }
    var g := graph.value;
    if !touches(seed) {
      return Err(AreaOutsideRegion), done;
    }
    var seen := seq(|g|, _ => false);
    var pieces: seq<(P, Region)> := [];
    var todo: set<Region> := {seed};
    while todo != {}
      invariant Searching(g, meets, seed, seen, todo, done)
      invariant pieces == PiecesOf(cut, done)
      decreases Unseen(seen)
    {
      var x;
      x, seen, todo := VisitLeast(g, meets, seed, seen, todo, done);
      assert (done + [x])[..|done|] == done;
      pieces := pieces + Tagged(cut(x), x);
      done := done + [x];
    }
    FinishedSearch(g, meets, seed, done);
    r := Ok(pieces);
  }
}
