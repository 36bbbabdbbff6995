// The numbers of patches play no part in the split: greedy merging goes by the keys of regions, and
// regions are numbered in the order in which faces first show them
// (libsimulator/src/geometry/region_split.cpp).
module Renaming {
  import opened Sequences
  import opened SurfaceMesh
  import opened UnionFind
  import opened RegionMerging
  import opened PatchGrowing
  import opened GreedyMerging
  import opened GrowthOrder
  import opened RegionSplit

  /** Other numbers for the same patches: to[p] is the other number of p, and from[q] leads back. */
  datatype Names = Names(to: seq<nat>, from: seq<nat>)

  ghost predicate OneToOne(n: Names) {
    && |n.to| == |n.from|
    && (forall p {:trigger n.to[p]} :: 0 <= p < |n.to| ==> n.to[p] < |n.from| && n.from[n.to[p]] == p)
    && forall q {:trigger n.from[q]} :: 0 <= q < |n.from| ==> n.from[q] < |n.to| && n.to[n.from[q]] == q
  }

  ghost predicate RootsInRange(root: seq<nat>) {
    forall p :: 0 <= p < |root| ==> root[p] < |root|
  }

  /** The faces' patches under both names. */
  ghost predicate Renames(n: Names, a: seq<nat>, b: seq<nat>) {
    && OneToOne(n) && |a| == |b|
    && forall f {:trigger a[f]} {:trigger b[f]} :: 0 <= f < |a| ==> a[f] < |n.to| && b[f] == n.to[a[f]]
  }

  ghost function Renamed(n: Names, root: seq<nat>): (r: seq<nat>)
    requires OneToOne(n) && |root| == |n.to| && RootsInRange(root)
    ensures |r| == |root| && RootsInRange(r)
    ensures forall q {:trigger r[q]} :: 0 <= q < |r| ==> r[q] == n.to[root[n.from[q]]]
  {
    seq(|root|, q requires 0 <= q < |root| => n.to[root[n.from[q]]])
  }

  lemma RenamedAt(n: Names, root: seq<nat>, p: nat)
    requires OneToOne(n) && |root| == |n.to| && RootsInRange(root) && p < |root|
    ensures Renamed(n, root)[n.to[p]] == n.to[root[p]]
  {
  }

  lemma SameName(n: Names, p: nat, q: nat)
    requires OneToOne(n) && p < |n.to| && q < |n.to|
    ensures n.to[p] == n.to[q] <==> p == q
  {
  }

  // ---- Two settings that differ in the names of patches ----

  ghost predicate Twins(n: Names, s: Setting, t: Setting) {
    && t.mesh == s.mesh && t.simple == s.simple && ValidMesh(s.mesh)
    && Renames(n, s.patchOf, t.patchOf) && |s.patchOf| == |s.mesh.around|
  }

  ghost predicate Meant(n: Names, s: Setting, t: Setting, root: seq<nat>) {
    Twins(n, s, t) && |root| == |n.to| && RootsInRange(root)
  }

  lemma BothFit(n: Names, s: Setting, t: Setting, root: seq<nat>)
    requires Meant(n, s, t, root)
    ensures Fits(s, root) && Fits(t, Renamed(n, root))
  {
    forall f | 0 <= f < |t.patchOf| ensures t.patchOf[f] < |n.to| {
      assert t.patchOf[f] == n.to[s.patchOf[f]];
    }
  }

  lemma SameFaces(n: Names, s: Setting, t: Setting, root: seq<nat>, r: nat)
    requires Meant(n, s, t, root) && r < |root| && Fits(s, root) && Fits(t, Renamed(n, root))
    ensures FacesOf(t.patchOf, Renamed(n, root), n.to[r]) == FacesOf(s.patchOf, root, r)
  {
    forall f | 0 <= f < |s.patchOf| ensures Renamed(n, root)[t.patchOf[f]] == n.to[r] <==> root[s.patchOf[f]] == r {
      RenamedAt(n, root, s.patchOf[f]);
      SameName(n, root[s.patchOf[f]], r);
    }
  }

  lemma SameRoot(n: Names, root: seq<nat>, r: nat)
    requires OneToOne(n) && |root| == |n.to| && RootsInRange(root) && r < |root|
    ensures IsRoot(Renamed(n, root), n.to[r]) <==> IsRoot(root, r)
  {
    RenamedAt(n, root, r);
    SameName(n, root[r], r);
  }

  lemma SameMeet(n: Names, s: Setting, t: Setting, p: nat, q: nat)
    requires Twins(n, s, t) && p < |n.to| && q < |n.to|
    ensures Meet(t.mesh, t.patchOf, n.to[p], n.to[q]) <==> Meet(s.mesh, s.patchOf, p, q)
  {
    SameName(n, p, q);
    forall h | 0 <= h < |s.mesh.faceOf|
      ensures Between(t.mesh, t.patchOf, n.to[p], n.to[q], h) <==> Between(s.mesh, s.patchOf, p, q, h)
    {
      var x, y := s.mesh.faceOf[h], s.mesh.faceOf[s.mesh.opposite[h]];
      if x.Some? && y.Some? {
        SameName(n, s.patchOf[x.value], p);
        SameName(n, s.patchOf[y.value], q);
      }
    }
  }

  lemma SameRegionsMeet(n: Names, s: Setting, t: Setting, root: seq<nat>, a: nat, b: nat)
    requires Meant(n, s, t, root) && a < |root| && b < |root|
    ensures RegionsMeet(t.mesh, t.patchOf, Renamed(n, root), n.to[a], n.to[b]) <==>
              RegionsMeet(s.mesh, s.patchOf, root, a, b)
  {
    var r := Renamed(n, root);
    if RegionsMeet(s.mesh, s.patchOf, root, a, b) {
      var p, q :| 0 <= p < |root| && 0 <= q < |root| && root[p] == a && root[q] == b && Meet(s.mesh, s.patchOf, p, q);
      RenamedAt(n, root, p);
      RenamedAt(n, root, q);
      SameMeet(n, s, t, p, q);
    }
    if RegionsMeet(t.mesh, t.patchOf, r, n.to[a], n.to[b]) {
      var p, q :| 0 <= p < |r| && 0 <= q < |r| && r[p] == n.to[a] && r[q] == n.to[b] && Meet(t.mesh, t.patchOf, p, q);
      SameName(n, root[n.from[p]], a);
      SameName(n, root[n.from[q]], b);
      SameMeet(n, s, t, n.from[p], n.from[q]);
    }
  }

  lemma SameMergeable(n: Names, s: Setting, t: Setting, root: seq<nat>, a: nat, b: nat)
    requires Meant(n, s, t, root) && a < |root| && b < |root| && Fits(s, root) && Fits(t, Renamed(n, root))
    ensures Mergeable(t, Renamed(n, root), n.to[a], n.to[b]) <==> Mergeable(s, root, a, b)
  {
    SameRoot(n, root, b);
    SameName(n, a, b);
    SameRegionsMeet(n, s, t, root, a, b);
    SameFaces(n, s, t, root, a);
    SameFaces(n, s, t, root, b);
  }

  lemma SameBefore(n: Names, s: Setting, t: Setting, root: seq<nat>, a: nat, b: nat)
    requires Meant(n, s, t, root) && a < |root| && b < |root| && Fits(s, root) && Fits(t, Renamed(n, root))
    ensures Before(t, Renamed(n, root), n.to[a], n.to[b]) <==> Before(s, root, a, b)
  {
    SameFaces(n, s, t, root, a);
    SameFaces(n, s, t, root, b);
  }

  lemma SameFirst(n: Names, s: Setting, t: Setting, root: seq<nat>, a: nat, b: nat)
    requires Meant(n, s, t, root) && a < |root| && b < |root| && Fits(s, root) && Fits(t, Renamed(n, root))
    requires FirstMergeable(s, root, a, b)
    ensures FirstMergeable(t, Renamed(n, root), n.to[a], n.to[b])
  {
    var r := Renamed(n, root);
    SameMergeable(n, s, t, root, a, b);
    forall c: nat | Mergeable(t, r, n.to[a], c) && c != n.to[b] ensures Before(t, r, n.to[b], c) {
      var d := n.from[c];
      SameMergeable(n, s, t, root, a, d);
      SameBefore(n, s, t, root, b, d);
    }
  }

  lemma SameNone(n: Names, s: Setting, t: Setting, root: seq<nat>, a: nat)
    requires Meant(n, s, t, root) && a < |root| && Fits(s, root) && Fits(t, Renamed(n, root))
    requires NoneMergeable(s, root, a)
    ensures NoneMergeable(t, Renamed(n, root), n.to[a])
  {
    forall c: nat ensures !Mergeable(t, Renamed(n, root), n.to[a], c) {
      if c < |root| {
        SameMergeable(n, s, t, root, a, n.from[c]);
      }
    }
  }

  lemma SameUnited(n: Names, root: seq<nat>, a: nat, b: nat)
    requires OneToOne(n) && |root| == |n.to| && RootsInRange(root) && a < |root| && b < |root|
    ensures RootsInRange(United(root, a, b))
    ensures Renamed(n, United(root, a, b)) == United(Renamed(n, root), n.to[a], n.to[b])
  {
    forall q | 0 <= q < |root| ensures Renamed(n, United(root, a, b))[q] ==
      United(Renamed(n, root), n.to[a], n.to[b])[q] {
      SameName(n, root[n.from[q]], b);
    }
  }

  ghost function NamesOf(n: Names, ids: seq<nat>): (r: seq<nat>)
    requires OneToOne(n) && forall i :: 0 <= i < |ids| ==> ids[i] < |n.to|
    ensures |r| == |ids| && forall i :: 0 <= i < |r| ==> r[i] == n.to[ids[i]]
  {
    seq(|ids|, i requires 0 <= i < |ids| => n.to[ids[i]])
  }

  // ---- Runs under both names ----
  lemma {:induction false} SaturatesToo(
    n: Names, s: Setting, t: Setting, root: seq<nat>, a: nat, steps: seq<nat>, root': seq<nat>)
    returns (steps': seq<nat>)
    requires Meant(n, s, t, root) && a < |root| && Fits(s, root) && Fits(t, Renamed(n, root))
    requires Saturates(s, root, a, steps, root')
    ensures Meant(n, s, t, root') && Saturates(t, Renamed(n, root), n.to[a], steps', Renamed(n, root'))
    decreases |steps|
  {
    if steps == [] {
      SameNone(n, s, t, root, a);
      steps' := [];
    } else {
      var b := steps[0];
      var mid := United(root, a, b);
      SameFirst(n, s, t, root, a, b);
      SameUnited(n, root, a, b);
      BothFit(n, s, t, mid);
      var rest := SaturatesToo(n, s, t, mid, a, steps[1..], root');
      steps' := [n.to[b]] + rest;
      assert steps'[1..] == rest;
    }
  }

  lemma VisitedToo(n: Names, s: Setting, t: Setting, mid: seq<nat>, a: nat, root': seq<nat>)
    requires Meant(n, s, t, mid) && a < |mid| && Fits(s, mid) && Fits(t, Renamed(n, mid)) && Visited(s, mid, a, root')
    ensures Meant(n, s, t, root') && Visited(t, Renamed(n, mid), n.to[a], Renamed(n, root'))
  {
    SameRoot(n, mid, a);
    if IsRoot(mid, a) {
      var steps :| Saturates(s, mid, a, steps, root');
      var steps' := SaturatesToo(n, s, t, mid, a, steps, root');
    }
  }

  lemma {:induction false} SweptToo(
    n: Names, s: Setting, t: Setting, root: seq<nat>, order: seq<nat>, k: nat, root': seq<nat>)
    requires Meant(n, s, t, root) && Fits(s, root) && Fits(t, Renamed(n, root)) && k <= |order|
    requires (forall i :: 0 <= i < |order| ==> order[i] < |n.to|) && Swept(s, root, order, k, root')
    ensures Meant(n, s, t, root') && Swept(t, Renamed(n, root), NamesOf(n, order), k, Renamed(n, root'))
    decreases k
  {
    if k > 0 {
      var mid :| |mid| == |root| && Swept(s, root, order, k - 1, mid) && Visited(s, mid, order[k - 1], root');
      SweptToo(n, s, t, root, order, k - 1, mid);
      SweptStepToo(n, s, t, root, order, k, mid, root');
    }
  }

  lemma SweptStepToo(
    n: Names, s: Setting, t: Setting, root: seq<nat>, order: seq<nat>, k: nat, mid: seq<nat>, root': seq<nat>)
    requires Meant(n, s, t, root) && Fits(t, Renamed(n, root)) && 0 < k <= |order| && |mid| == |root|
    requires forall i :: 0 <= i < |order| ==> order[i] < |n.to|
    requires Meant(n, s, t, mid) && Swept(t, Renamed(n, root), NamesOf(n, order), k - 1, Renamed(n, mid))
    requires Fits(s, mid) && Visited(s, mid, order[k - 1], root')
    ensures Meant(n, s, t, root') && Swept(t, Renamed(n, root), NamesOf(n, order), k, Renamed(n, root'))
  {
    BothFit(n, s, t, mid);
    VisitedToo(n, s, t, mid, order[k - 1], root');
    SweptByStep(t, Renamed(n, root), NamesOf(n, order), k, Renamed(n, mid), Renamed(n, root'));
  }

  lemma SweptByStep(t: Setting, root: seq<nat>, order: seq<nat>, k: nat, mid: seq<nat>, root': seq<nat>)
    requires Fits(t, root) && 0 < k <= |order| && |mid| == |root|
    requires Swept(t, root, order, k - 1, mid) && Visited(t, mid, order[k - 1], root')
    ensures Swept(t, root, order, k, root')
  {
  }

  lemma OrderToo(n: Names, s: Setting, t: Setting, root: seq<nat>, order: seq<nat>)
    requires Meant(n, s, t, root) && Fits(s, root) && Fits(t, Renamed(n, root)) && InOrder(s, root, order)
    requires forall i :: 0 <= i < |order| ==> order[i] < |n.to|
    ensures InOrder(t, Renamed(n, root), NamesOf(n, order))
  {
    var r, order' := Renamed(n, root), NamesOf(n, order);
    forall q: nat ensures q in order' <==> IsRoot(r, q) {
      if q < |r| {
        var p := n.from[q];
        SameRoot(n, root, p);
        if p in order {
          var i :| 0 <= i < |order| && order[i] == p;
          assert order'[i] == q;
        }
      }
      if q in order' {
        var i :| 0 <= i < |order'| && order'[i] == q;
        assert order[i] in order;
        SameRoot(n, root, order[i]);
      }
    }
    forall i, j | 0 <= i < j < |order'| ensures Before(t, r, order'[i], order'[j]) {
      SameBefore(n, s, t, root, order[i], order[j]);
      assert Before(s, root, order[i], order[j]);
    }
  }

  lemma SweepsToo(n: Names, s: Setting, t: Setting, root: seq<nat>, root': seq<nat>)
    requires Meant(n, s, t, root) && Fits(s, root) && Fits(t, Renamed(n, root)) && SweepsOnce(s, root, root')
    ensures Meant(n, s, t, root') && SweepsOnce(t, Renamed(n, root), Renamed(n, root'))
  {
    var order := SweepOrder(s, root, root');
    forall i | 0 <= i < |order| ensures order[i] < |n.to| {
      assert order[i] in order;
    }
    OrderToo(n, s, t, root, order);
    SweptToo(n, s, t, root, order, |order|, root');
  }

  lemma RenamedDiffers(n: Names, a: seq<nat>, b: seq<nat>)
    requires OneToOne(n) && |a| == |b| == |n.to| && RootsInRange(a) && RootsInRange(b)
    ensures Renamed(n, a) == Renamed(n, b) <==> a == b
  {
    if a != b {
      var p :| 0 <= p < |a| && a[p] != b[p];
      RenamedAt(n, a, p);
      RenamedAt(n, b, p);
      SameName(n, a[p], b[p]);
    }
  }

  lemma {:induction false} MergesToo(
    n: Names, s: Setting, t: Setting, root: seq<nat>, mids: seq<seq<nat>>, root': seq<nat>)
    returns (mids': seq<seq<nat>>)
    requires Meant(n, s, t, root) && Fits(s, root) && Fits(t, Renamed(n, root)) && MergesTo(s, root, mids, root')
    ensures Meant(n, s, t, root') && MergesTo(t, Renamed(n, root), mids', Renamed(n, root'))
    decreases |mids|
  {
    if mids == [] {
      SweepsToo(n, s, t, root, root);
      mids' := [];
    } else {
      SweepsToo(n, s, t, root, mids[0]);
      RenamedDiffers(n, root, mids[0]);
      BothFit(n, s, t, mids[0]);
      var rest := MergesToo(n, s, t, mids[0], mids[1..], root');
      mids' := [Renamed(n, mids[0])] + rest;
      assert mids'[1..] == rest;
    }
  }

  /** Under other names, greedy merging ends in the same partition. */
  lemma GreedyToo(n: Names, s: Setting, t: Setting, r1: seq<nat>, r2: seq<nat>)
    requires Meant(n, s, t, r1) && |r2| == |r1| && Fits(s, r1) && Fits(t, r2) && IsGreedy(s, r1) && IsGreedy(t, r2)
    ensures r2 == Renamed(n, r1)
  {
    var apart := Apart(|r1|);
    var mids :| MergesTo(s, apart, mids, r1);
    BothFit(n, s, t, apart);
    var mids' := MergesToo(n, s, t, apart, mids, r1);
    assert Renamed(n, apart) == apart;
    assert IsGreedy(t, Renamed(n, r1)) by {
      assert MergesTo(t, Apart(|Renamed(n, r1)|), mids', Renamed(n, r1));
    }
    GreedyIsUnique(t, Renamed(n, r1), r2);
  }

  // ---- The numbers of regions ----

  /** Numbering regions in the order in which faces first show them leaves no choice. */
  lemma {:induction false} NumbersAgree(
    a: seq<nat>, ra: seq<nat>, x: seq<nat>, cx: nat, b: seq<nat>, rb: seq<nat>, y: seq<nat>, cy: nat, n: nat)
    requires (forall f :: 0 <= f < |a| ==> a[f] < |ra|) && (forall f :: 0 <= f < |b| ==> b[f] < |rb|)
    requires |x| == |y| == |a| == |b| && Compacted(a, ra, x, cx) && Compacted(b, rb, y, cy) && n <= |x|
    requires forall f, g :: 0 <= f < |a| && 0 <= g < |a| ==> (ra[a[f]] == ra[a[g]] <==> rb[b[f]] == rb[b[g]])
    ensures x[..n] == y[..n]
    decreases n
  {
    if n > 0 {
      var k := n - 1;
      NumbersAgree(a, ra, x, cx, b, rb, y, cy, k);
      if g :| 0 <= g < k && ra[a[g]] == ra[a[k]] {
        assert x[..k][g] == y[..k][g];
      } else {
        NewNumber(a, ra, x, cx, k);
        NewNumber(b, rb, y, cy, k);
        LeastMissing(x[..k], x[k], y[k]);
      }
      assert x[..n] == x[..k] + [x[k]] && y[..n] == y[..k] + [y[k]];
    }
  }

  /** A face of a region not shown before gets the least number not used yet. */
  lemma NewNumber(a: seq<nat>, root: seq<nat>, x: seq<nat>, count: nat, k: nat)
    requires (forall f :: 0 <= f < |a| ==> a[f] < |root|) && Compacted(a, root, x, count) && k < |x|
    requires forall g :: 0 <= g < k ==> root[a[g]] != root[a[k]]
    ensures x[k] !in x[..k] && forall i: nat :: i < x[k] ==> i in x[..k]
  {
    forall g | 0 <= g < k ensures x[..k][g] != x[k] {
      assert x[..k][g] == x[g];
    }
  }

  lemma LeastMissing(used: seq<nat>, u: nat, v: nat)
    requires u !in used && forall i: nat :: i < u ==> i in used
    requires v !in used && forall i: nat :: i < v ==> i in used
    ensures u == v
  {
  }

  lemma CountsAgree(a: seq<nat>, ra: seq<nat>, cx: nat, b: seq<nat>, rb: seq<nat>, cy: nat, x: seq<nat>)
    requires (forall f :: 0 <= f < |a| ==> a[f] < |ra|) && (forall f :: 0 <= f < |b| ==> b[f] < |rb|)
    requires Compacted(a, ra, x, cx) && Compacted(b, rb, x, cy)
    ensures cx == cy
  {
    assert cx < cy ==> cx in x;
    assert cy < cx ==> cy in x;
  }

  // ---- Other names from two growths ----

  lemma {:induction false} AsManyAsDistinct(ids: seq<nat>)
    requires NoDuplicates(ids)
    ensures |Elements(ids)| == |ids|
  {
    if ids != [] {
      var front, last := ids[..|ids| - 1], ids[|ids| - 1];
      AsManyAsDistinct(front);
      assert Elements(ids) == Elements(front) + {last};
    }
  }

  lemma FewDistinct(ids: seq<nat>, n: nat)
    requires NoDuplicates(ids) && forall i :: 0 <= i < |ids| ==> ids[i] < n
    ensures |ids| <= n
  {
    AsManyAsDistinct(ids);
    BoundedSet(Elements(ids), n);
  }

  /** For every patch of one growth, the number that one of its faces has in the other. */
  lemma NumbersOver(u: Rules, a: Growth, b: Growth, n: nat) returns (to: seq<nat>)
    requires ValidRules(u) && Grew(u, a) && Grew(u, b) && n <= a.count
    requires forall f: nat, g: nat :: SharedPatch(a.patchOf, f, g) <==> SharedPatch(b.patchOf, f, g)
    ensures |to| == n
    ensures forall f: nat :: f < |a.patchOf| && a.patchOf[f] < n ==> f < |b.patchOf| && to[a.patchOf[f]] == b.patchOf[f]
    decreases n
  {
    if n == 0 {
      to := [];
    } else {
      to := NumbersOver(u, a, b, n - 1);
      var f := PatchHasFace(u, a, n - 1, |a.log|);
      assert SharedPatch(a.patchOf, f, f) && SharedPatch(b.patchOf, f, f);
      to := to + [b.patchOf[f]];
      forall g: nat | g < |a.patchOf| && a.patchOf[g] < n ensures g < |b.patchOf| && to[a.patchOf[g]] == b.patchOf[g] {
        assert SharedPatch(a.patchOf, g, g) && SharedPatch(b.patchOf, g, g);
        if a.patchOf[g] == n - 1 {
          assert SharedPatch(a.patchOf, f, g) && SharedPatch(b.patchOf, f, g);
        }
      }
    }
  }

  lemma LeadsBack(u: Rules, a: Growth, b: Growth, to: seq<nat>, from: seq<nat>)
    requires ValidRules(u) && Grew(u, a) && Grew(u, b) && |to| == a.count && |from| == b.count &&
               |a.patchOf| == |b.patchOf|
    requires forall f: nat :: f < |a.patchOf| ==> a.patchOf[f] < a.count && b.patchOf[f] < b.count
    requires forall f: nat :: f < |a.patchOf| ==> to[a.patchOf[f]] == b.patchOf[f] && from[b.patchOf[f]] == a.patchOf[f]
    ensures forall p :: 0 <= p < |to| ==> to[p] < |from| && from[to[p]] == p
    ensures |to| <= |from|
  {
    forall p | 0 <= p < |to| ensures to[p] < |from| && from[to[p]] == p {
      var f := PatchHasFace(u, a, p, |a.log|);
    }
    FewDistinct(to, |from|);
  }

  lemma GrewInRange(u: Rules, g: Growth)
    requires ValidRules(u) && Grew(u, g)
    ensures |g.patchOf| == |u.m.around| && forall f: nat :: f < |g.patchOf| ==> g.patchOf[f] < g.count
  {
    forall f: nat | f < |g.patchOf| ensures g.patchOf[f] < g.count {
      assert Complete(g.patchOf)[f].value < g.count;
    }
  }

  /** Two growths by the same rules differ at most in the numbers of patches. */
  lemma OnlyNamesDiffer(u: Rules, a: Growth, b: Growth) returns (n: Names)
    requires ValidRules(u) && Grew(u, a) && Grew(u, b)
    ensures Renames(n, a.patchOf, b.patchOf) && |n.to| == a.count == b.count
  {
    PatchesAreDetermined(u, a, b);
    GrewInRange(u, a);
    GrewInRange(u, b);
    var to := NumbersOver(u, a, b, a.count);
    var from := NumbersOver(u, b, a, b.count);
    LeadsBack(u, a, b, to, from);
    LeadsBack(u, b, a, from, to);
    n := Names(to, from);
  }

  // ---- The whole split ----

  /** What SplitIntoRegions promises of its result. */
  ghost predicate IsResult(u: Rules, g: Growth, root: seq<nat>, region: seq<nat>, count: nat)
    requires ValidRules(u)
  {
    && Grew(u, g) && |root| == g.count && ValidPatchOf(u.m, g.patchOf, |root|)
    && IsSplit(u.m, g.patchOf, u.simple, root)
    && |region| == |u.m.around| && Compacted(g.patchOf, root, region, count)
  }

  /** Under other names, faces share a region as before. */
  lemma SameRegionsOfFaces(n: Names, a: seq<nat>, rootA: seq<nat>, b: seq<nat>, rootB: seq<nat>)
    requires Renames(n, a, b) && |rootA| == |n.to| && RootsInRange(rootA) && rootB == Renamed(n, rootA)
    ensures (forall f :: 0 <= f < |a| ==> a[f] < |rootA|) && forall f :: 0 <= f < |b| ==> b[f] < |rootB|
    ensures forall f, g :: 0 <= f < |a| && 0 <= g < |a| ==> (rootA[a[f]] == rootA[a[g]] <==> rootB[b[f]] == rootB[b[g]])
  {
    forall f | 0 <= f < |a| ensures a[f] < |rootA| && b[f] < |rootB| && rootB[b[f]] == n.to[rootA[a[f]]] {
      RenamedAt(n, rootA, a[f]);
    }
    forall f, g | 0 <= f < |a| && 0 <= g < |a|
      ensures rootA[a[f]] == rootA[a[g]] <==> rootB[b[f]] == rootB[b[g]]
    {
      SameName(n, rootA[a[f]], rootA[a[g]]);
    }
  }

  /** The split is determined: any two results number the same regions in the same way, whatever the
      order in which floods grew. */
  lemma SplitIsDetermined(
    u: Rules, a: Growth, rootA: seq<nat>, regionA: seq<nat>, countA: nat, b: Growth, rootB: seq<nat>,
    regionB: seq<nat>, countB: nat)
    requires ValidRules(u) && IsResult(u, a, rootA, regionA, countA) && IsResult(u, b, rootB, regionB, countB)
    ensures regionA == regionB && countA == countB
  {
    var n := OnlyNamesDiffer(u, a, b);
    var s, t := Setting(u.m, a.patchOf, u.simple), Setting(u.m, b.patchOf, u.simple);
    assert Meant(n, s, t, rootA);
    GreedyToo(n, s, t, rootA, rootB);
    SameRegionsOfFaces(n, a.patchOf, rootA, b.patchOf, rootB);
    NumbersAgree(a.patchOf, rootA, regionA, countA, b.patchOf, rootB, regionB, countB, |regionA|);
    assert regionA[..|regionA|] == regionA && regionB[..|regionB|] == regionB;
    CountsAgree(a.patchOf, rootA, countA, b.patchOf, rootB, countB, regionA);
  }
}
