// What the merging of regions computes, without cache, stored boundaries or neighbour lists: the
// greedy rule on the partition alone (merge_to_fixpoint in
// libsimulator/src/geometry/region_split.cpp). The rule determines the result.
module GreedyMerging {
  import opened Sequences
  import opened UnionFind
  import opened SurfaceMesh
  import opened RegionMerging

  /** Mesh, patches and certificate: what stays the same throughout. */
  datatype Setting = Setting(mesh: Mesh, patchOf: seq<nat>, simple: set<nat> -> bool)

  ghost predicate Fits(s: Setting, root: seq<nat>) {
    ValidMesh(s.mesh) && ValidPatchOf(s.mesh, s.patchOf, |root|)
  }

  predicate IsRoot(root: seq<nat>, r: nat) {
    r < |root| && root[r] == r
  }

  // ---- The order of regions ----

  /** The key of the region r is minZ, seed. */
  ghost predicate HasKey(s: Setting, root: seq<nat>, r: nat, patch: Patch)
    requires Fits(s, root)
  {
    HasKeyOf(s.mesh, FacesOf(s.patchOf, root, r), patch)
  }

  /** Some face of x reaches lower than all faces of y. */
  ghost predicate Lower(m: Mesh, x: set<nat>, y: set<nat>) {
    && (forall f :: f in x + y ==> f < |m.minZ|)
    && exists f :: f in x && forall e :: e in y ==> m.minZ[f] < m.minZ[e]
  }

  /** The faces of x come before those of y: they reach lower or, if they reach equally low, one of them comes
      before all of y. */
  ghost predicate ComeBefore(m: Mesh, x: set<nat>, y: set<nat>) {
    Lower(m, x, y) || (!Lower(m, y, x) && exists f :: f in x && forall e :: e in y ==> f < e)
  }

  ghost predicate Before(s: Setting, root: seq<nat>, a: nat, b: nat)
    requires Fits(s, root)
  {
    ComeBefore(s.mesh, FacesOf(s.patchOf, root, a), FacesOf(s.patchOf, root, b))
  }

  lemma LowerByKeys(m: Mesh, facesA: set<nat>, facesB: set<nat>, x: Patch, y: Patch)
    requires ValidMesh(m) && HasKeyOf(m, facesA, x) && HasKeyOf(m, facesB, y)
    ensures Lower(m, facesA, facesB) <==> x.minZ < y.minZ
  {
    var f :| f in facesA && m.minZ[f] == x.minZ;
    var e :| e in facesB && m.minZ[e] == y.minZ;
  }

  lemma BeforeByKeys(s: Setting, root: seq<nat>, a: nat, b: nat, x: Patch, y: Patch)
    requires Fits(s, root) && HasKey(s, root, a, x) && HasKey(s, root, b, y)
    ensures Before(s, root, a, b) <==> KeyLess(x, y)
  {
    var facesA, facesB := FacesOf(s.patchOf, root, a), FacesOf(s.patchOf, root, b);
    LowerByKeys(s.mesh, facesA, facesB, x, y);
    LowerByKeys(s.mesh, facesB, facesA, y, x);
    assert x.seed in facesA && y.seed in facesB;
  }

  /** Different regions have different keys, as they have no face in common. */
  lemma KeysDiffer(s: Setting, root: seq<nat>, a: nat, b: nat, x: Patch, y: Patch)
    requires Fits(s, root) && HasKey(s, root, a, x) && HasKey(s, root, b, y) && a != b
    ensures KeyLess(x, y) || KeyLess(y, x)
  {
    assert x.seed in FacesOf(s.patchOf, root, a) && y.seed in FacesOf(s.patchOf, root, b);
  }

  lemma NotBothFirst(m: Mesh, x: set<nat>, y: set<nat>)
    ensures !(ComeBefore(m, x, y) && ComeBefore(m, y, x))
  {
  }

  lemma NotBoth(s: Setting, root: seq<nat>, a: nat, b: nat)
    requires Fits(s, root)
    ensures !(Before(s, root, a, b) && Before(s, root, b, a))
  {
    NotBothFirst(s.mesh, FacesOf(s.patchOf, root, a), FacesOf(s.patchOf, root, b));
  }

  // ---- Absorbing ----

  ghost predicate Mergeable(s: Setting, root: seq<nat>, a: nat, b: nat)
    requires Fits(s, root)
  {
    && IsRoot(root, b) && b != a
    && RegionsMeet(s.mesh, s.patchOf, root, a, b)
    && !Rejects(s.mesh, s.simple, FacesOf(s.patchOf, root, a), FacesOf(s.patchOf, root, b))
  }

  /** b is the first region that a can absorb. */
  ghost predicate FirstMergeable(s: Setting, root: seq<nat>, a: nat, b: nat)
    requires Fits(s, root)
  {
    && Mergeable(s, root, a, b)
    && forall c {:trigger Before(s, root, b, c)} :: Mergeable(s, root, a, c) && c != b ==> Before(s, root, b, c)
  }

  ghost predicate NoneMergeable(s: Setting, root: seq<nat>, a: nat)
    requires Fits(s, root)
  {
    forall b :: !Mergeable(s, root, a, b)
  }

  lemma FirstIsUnique(s: Setting, root: seq<nat>, a: nat, b: nat, c: nat)
    requires Fits(s, root) && FirstMergeable(s, root, a, b) && FirstMergeable(s, root, a, c)
    ensures b == c
  {
    if b != c {
      NotBoth(s, root, b, c);
    }
  }

  /** Region a absorbs the given regions, each the first mergeable one in its turn, until there is
      none. */
  ghost predicate Saturates(s: Setting, root: seq<nat>, a: nat, steps: seq<nat>, root': seq<nat>)
    requires Fits(s, root) && a < |root|
    decreases |steps|
  {
    if steps == [] then
      root' == root && NoneMergeable(s, root, a)
    else
      steps[0] < |root| && FirstMergeable(s, root, a, steps[0]) &&
        Saturates(s, United(root, a, steps[0]), a, steps[1..], root')
  }

  lemma NoneIsNotFirst(s: Setting, root: seq<nat>, a: nat, b: nat)
    requires Fits(s, root) && NoneMergeable(s, root, a)
    ensures !FirstMergeable(s, root, a, b)
  {
  }

  lemma {:induction false} SaturationIsDetermined(
    s: Setting, root: seq<nat>, a: nat, steps1: seq<nat>, r1: seq<nat>, steps2: seq<nat>, r2: seq<nat>)
    requires Fits(s, root) && a < |root|
    requires Saturates(s, root, a, steps1, r1) && Saturates(s, root, a, steps2, r2)
    ensures r1 == r2
    decreases |steps1|
  {
    if steps1 != [] && steps2 != [] {
      FirstIsUnique(s, root, a, steps1[0], steps2[0]);
      SaturationIsDetermined(s, United(root, a, steps1[0]), a, steps1[1..], r1, steps2[1..], r2);
    } else if steps1 != [] {
      NoneIsNotFirst(s, root, a, steps1[0]);
    } else if steps2 != [] {
      NoneIsNotFirst(s, root, a, steps2[0]);
    }
  }

  /** The same, not yet finished. */
  ghost predicate Absorbs(s: Setting, root: seq<nat>, a: nat, steps: seq<nat>, root': seq<nat>)
    requires Fits(s, root) && a < |root|
    decreases |steps|
  {
    if steps == [] then
      root' == root
    else
      steps[0] < |root| && FirstMergeable(s, root, a, steps[0]) &&
        Absorbs(s, United(root, a, steps[0]), a, steps[1..], root')
  }

  lemma {:induction false} AbsorbsOneMore(s: Setting, root: seq<nat>, a: nat, steps: seq<nat>, mid: seq<nat>, b: nat)
    requires Fits(s, root) && a < |root| && Absorbs(s, root, a, steps, mid)
    requires |mid| == |root| && b < |root| && FirstMergeable(s, mid, a, b)
    ensures Absorbs(s, root, a, steps + [b], United(mid, a, b))
    decreases |steps|
  {
    if steps != [] {
      AbsorbsOneMore(s, United(root, a, steps[0]), a, steps[1..], mid, b);
      assert (steps + [b])[1..] == steps[1..] + [b];
    }
  }

  lemma {:induction false} AbsorbsAll(s: Setting, root: seq<nat>, a: nat, steps: seq<nat>, root': seq<nat>)
    requires Fits(s, root) && a < |root| && Absorbs(s, root, a, steps, root')
    requires |root'| == |root| && NoneMergeable(s, root', a)
    ensures Saturates(s, root, a, steps, root')
    decreases |steps|
  {
    if steps != [] {
      AbsorbsAll(s, United(root, a, steps[0]), a, steps[1..], root');
    }
  }

  // ---- Lists of regions in order of their keys ----

  /** The patches hold the keys of the regions in the list. */
  ghost predicate Keyed(s: Setting, root: seq<nat>, patches: seq<Patch>, ids: seq<nat>)
    requires Fits(s, root)
  {
    forall b {:trigger HasKey(s, root, b, patches[b])} :: b in ids ==> b < |patches| && HasKey(s, root, b, patches[b])
  }

  ghost predicate StrictlyAscending(patches: seq<Patch>, ids: seq<nat>) {
    && (forall i :: 0 <= i < |ids| ==> ids[i] < |patches|)
    && forall i, j {:trigger KeyLess(patches[ids[i]], patches[ids[j]])} ::
         0 <= i < j < |ids| ==> KeyLess(patches[ids[i]], patches[ids[j]])
  }

  /** Sorted by key and rid of adjacent repetitions, a list has no repetition at all. */
  lemma {:induction false} UniqueIsStrict(s: Setting, root: seq<nat>, patches: seq<Patch>, ids: seq<nat>)
    requires Fits(s, root) && Keyed(s, root, patches, ids)
    requires (forall i :: 0 <= i < |ids| ==> ids[i] < |patches|) && Ascending(patches, ids)
    ensures StrictlyAscending(patches, Unique(ids))
  {
    if |ids| >= 2 {
      var rest := ids[1..];
      assert Ascending(patches, rest) by {
        forall i, j | 0 <= i < j < |rest| ensures !KeyLess(patches[rest[j]], patches[rest[i]]) {
          assert rest[i] == ids[i + 1] && rest[j] == ids[j + 1];
        }
      }
      assert Keyed(s, root, patches, rest);
      UniqueIsStrict(s, root, patches, rest);
      if ids[0] != ids[1] {
        forall y | y in rest ensures y < |patches| && KeyLess(patches[ids[0]], patches[y]) {
          FirstIsLess(s, root, patches, ids, y);
        }
        ConsIsStrict(patches, ids[0], Unique(rest));
      }
    } else {
      assert Unique(ids) == ids;
    }
  }

  lemma ConsIsStrict(patches: seq<Patch>, x: nat, ids: seq<nat>)
    requires StrictlyAscending(patches, ids) && x < |patches|
    requires forall y :: y in ids ==> y < |patches| && KeyLess(patches[x], patches[y])
    ensures StrictlyAscending(patches, [x] + ids)
  {
    var all := [x] + ids;
    forall i, j | 0 <= i < j < |all| ensures KeyLess(patches[all[i]], patches[all[j]]) {
      if i == 0 {
        assert ids[j - 1] in ids;
      } else {
        var k, l := i - 1, j - 1;
        assert KeyLess(patches[ids[k]], patches[ids[l]]);
      }
    }
  }

  lemma FirstIsLess(s: Setting, root: seq<nat>, patches: seq<Patch>, ids: seq<nat>, y: nat)
    requires Fits(s, root) && Keyed(s, root, patches, ids) && |ids| >= 2 && ids[0] != ids[1] && y in ids[1..]
    requires (forall i :: 0 <= i < |ids| ==> ids[i] < |patches|) && Ascending(patches, ids)
    ensures y < |patches| && KeyLess(patches[ids[0]], patches[y])
  {
    var j :| 1 <= j < |ids| && ids[j] == y;
    var x, z := ids[0], ids[1];
    assert HasKey(s, root, x, patches[x]) && HasKey(s, root, y, patches[y]) && HasKey(s, root, z, patches[z]);
    KeysDiffer(s, root, x, z, patches[x], patches[z]);
    assert !KeyLess(patches[z], patches[x]) && !KeyLess(patches[y], patches[x]);
    assert j > 1 ==> !KeyLess(patches[y], patches[z]);
    if y != x {
      KeysDiffer(s, root, x, y, patches[x], patches[y]);
    }
  }

  /** Sorting repeats nothing that was not repeated before. */
  lemma {:induction false} SortKeepsDistinct(patches: seq<Patch>, ids: seq<nat>)
    requires (forall i :: 0 <= i < |ids| ==> ids[i] < |patches|) && NoDuplicates(ids)
    ensures NoDuplicates(SortByKey(patches, ids))
  {
    if ids != [] {
      SortKeepsDistinct(patches, ids[1..]);
      assert ids[0] !in ids[1..];
      InsertKeepsDistinct(patches, ids[0], SortByKey(patches, ids[1..]));
    }
  }

  lemma {:induction false} InsertKeepsDistinct(patches: seq<Patch>, x: nat, ids: seq<nat>)
    requires x < |patches| && (forall i :: 0 <= i < |ids| ==> ids[i] < |patches|) && Ascending(patches, ids)
    requires NoDuplicates(ids) && x !in ids
    ensures NoDuplicates(Insert(patches, x, ids))
  {
    if ids != [] && KeyLess(patches[ids[0]], patches[x]) {
      InsertKeepsDistinct(patches, x, ids[1..]);
      assert ids[0] !in ids[1..];
      NoDuplicatesConcat([ids[0]], Insert(patches, x, ids[1..]));
    } else if ids != [] {
      NoDuplicatesConcat([x], ids);
    }
  }

  lemma ByOrder(s: Setting, root: seq<nat>, a: nat, b: nat, x: Patch, y: Patch)
    requires Fits(s, root) && HasKey(s, root, a, x) && HasKey(s, root, b, y) && a != b && !KeyLess(y, x)
    ensures Before(s, root, a, b)
  {
    BeforeByKeys(s, root, a, b, x, y);
    KeysDiffer(s, root, a, b, x, y);
  }

  lemma SortedIsInOrder(s: Setting, root: seq<nat>, patches: seq<Patch>, order: seq<nat>)
    requires Fits(s, root) && Keyed(s, root, patches, order) && NoDuplicates(order)
    requires (forall i :: 0 <= i < |order| ==> order[i] < |patches|) && Ascending(patches, order)
    requires forall r :: r in order <==> IsRoot(root, r)
    ensures InOrder(s, root, order)
  {
    forall i, j | 0 <= i < j < |order| ensures Before(s, root, order[i], order[j]) {
      var x, y := order[i], order[j];
      assert x in order && y in order && HasKey(s, root, x, patches[x]) && HasKey(s, root, y, patches[y]);
      assert !KeyLess(patches[y], patches[x]);
      ByOrder(s, root, x, y, patches[x], patches[y]);
    }
  }

  /** The first of a sorted list of all regions around a that is not stuck is the first mergeable
      one. */
  lemma FirstInList(s: Setting, root: seq<nat>, patches: seq<Patch>, a: nat, roots: seq<nat>, i: nat)
    requires Fits(s, root) && Keyed(s, root, patches, roots) && StrictlyAscending(patches, roots)
    requires forall b :: b in roots <==> IsRoot(root, b) && b != a && RegionsMeet(s.mesh, s.patchOf, root, a, b)
    requires forall j :: 0 <= j < i ==> j < |roots| && !Mergeable(s, root, a, roots[j])
    requires i < |roots| && Mergeable(s, root, a, roots[i])
    ensures FirstMergeable(s, root, a, roots[i])
  {
    forall c: nat | Mergeable(s, root, a, c) && c != roots[i] ensures Before(s, root, roots[i], c) {
      assert c in roots;
      var j :| 0 <= j < |roots| && roots[j] == c;
      assert j > i;
      var x := roots[i];
      assert x in roots && HasKey(s, root, x, patches[x]) && HasKey(s, root, c, patches[c]);
      assert KeyLess(patches[roots[i]], patches[roots[j]]);
      ByOrder(s, root, x, c, patches[x], patches[c]);
    }
  }

  // ---- Sweeps ----

  /** All regions in their order. */
  ghost predicate InOrder(s: Setting, root: seq<nat>, order: seq<nat>)
    requires Fits(s, root)
  {
    && (forall r :: r in order <==> IsRoot(root, r))
    && forall i, j {:trigger Before(s, root, order[i], order[j])} :: 0 <= i < j < |order| ==>
         Before(s, root, order[i], order[j])
  }

  lemma {:induction false} OrderIsDetermined(s: Setting, root: seq<nat>, a: seq<nat>, b: seq<nat>, n: nat)
    requires Fits(s, root) && InOrder(s, root, a) && InOrder(s, root, b) && n <= |a|
    ensures n <= |b| && a[..n] == b[..n]
  {
    if n > 0 {
      var k := n - 1;
      OrderIsDetermined(s, root, a, b, k);
      var i := PositionOf(b, a[k]);
      var j := k;
      if k < |b| {
        j := PositionOf(a, b[k]);
      }
      NextInBoth(s, root, a, b, k, i, j);
    }
  }

  lemma PositionOf(order: seq<nat>, r: nat) returns (i: nat)
    requires r in order
    ensures i < |order| && order[i] == r
  {
    i :| 0 <= i < |order| && order[i] == r;
  }

  /** Two orders that agree so far agree on the next region. */
  lemma NextInBoth(s: Setting, root: seq<nat>, a: seq<nat>, b: seq<nat>, k: nat, i: nat, j: nat)
    requires Fits(s, root) && InOrder(s, root, a) && InOrder(s, root, b)
    requires k < |a| && k <= |b| && a[..k] == b[..k]
    requires i < |b| && b[i] == a[k]
    requires k < |b| ==> j < |a| && a[j] == b[k]
    ensures k < |b| && a[..k + 1] == b[..k + 1]
  {
    if i < k {
      assert a[i] == a[..k][i] == b[..k][i];
      assert Before(s, root, a[i], a[k]);
      NotBoth(s, root, a[i], a[k]);
    } else if i > k {
      assert Before(s, root, b[k], b[i]);
      if j < k {
        assert b[j] == b[..k][j] == a[..k][j];
        assert Before(s, root, b[j], b[k]);
        NotBoth(s, root, b[j], b[k]);
      } else if j > k {
        assert Before(s, root, a[k], a[j]);
        NotBoth(s, root, a[k], a[j]);
      }
    }
  }

  /** The first k regions of the order, if still there when it is their turn, have absorbed what
      they can. */
  ghost predicate Swept(s: Setting, root: seq<nat>, order: seq<nat>, k: nat, root': seq<nat>)
    requires Fits(s, root)
    decreases k
  {
    if k == 0 then
      root' == root
    else
      k <= |order| &&
      exists mid :: |mid| == |root| && Swept(s, root, order, k - 1, mid) && Visited(s, mid, order[k - 1], root')
  }

  ghost predicate Visited(s: Setting, mid: seq<nat>, a: nat, root': seq<nat>)
    requires Fits(s, mid)
  {
    if IsRoot(mid, a) then exists steps :: Saturates(s, mid, a, steps, root') else root' == mid
  }

  /** Part of a sweep is done; `merged` says whether anything has changed. */
  ghost predicate SweptSoFar(s: Setting, root: seq<nat>, order: seq<nat>, k: nat, root': seq<nat>, merged: bool)
    requires Fits(s, root)
  {
    && |root'| == |root| && k <= |order|
    && Swept(s, root, order, k, root')
    && (if merged then |LiveRoots(root')| < |LiveRoots(root)|
        else root' == root && NoneMergeableIn(s, root, order[..k]))
  }

  ghost predicate NoneMergeableIn(s: Setting, root: seq<nat>, ids: seq<nat>)
    requires Fits(s, root)
  {
    forall a {:trigger NoneMergeable(s, root, a)} :: a in ids && IsRoot(root, a) ==> NoneMergeable(s, root, a)
  }

  lemma SweptOneMore(
    s: Setting, root: seq<nat>, order: seq<nat>, k: nat, mid: seq<nat>, merged: bool, root': seq<nat>, changed: bool)
    requires Fits(s, root) && k < |order| && SweptSoFar(s, root, order, k, mid, merged)
    requires |root'| == |mid| && Visited(s, mid, order[k], root')
    requires if changed then |LiveRoots(root')| < |LiveRoots(mid)|
             else root' == mid && (IsRoot(mid, order[k]) ==> NoneMergeable(s, mid, order[k]))
    ensures SweptSoFar(s, root, order, k + 1, root', merged || changed)
  {
    assert order[..k + 1] == order[..k] + [order[k]];
  }

  lemma SweepStarts(s: Setting, root: seq<nat>, order: seq<nat>)
    requires Fits(s, root)
    ensures SweptSoFar(s, root, order, 0, root, false)
  {
  }

  lemma SweepEnds(s: Setting, root: seq<nat>, order: seq<nat>, root': seq<nat>, merged: bool)
    requires Fits(s, root) && InOrder(s, root, order) && SweptSoFar(s, root, order, |order|, root', merged)
    ensures SweepsOnce(s, root, root') && |root'| == |root|
    ensures if merged then |LiveRoots(root')| < |LiveRoots(root)| else root' == root && NothingMergeable(s, root)
  {
    assert order[..|order|] == order;
  }

  /** No two regions that meet can be merged. */
  ghost predicate NothingMergeable(s: Setting, root: seq<nat>)
    requires Fits(s, root)
  {
    forall a {:trigger NoneMergeable(s, root, a)} :: IsRoot(root, a) ==> NoneMergeable(s, root, a)
  }

  lemma VisitIsDetermined(s: Setting, mid: seq<nat>, a: nat, r1: seq<nat>, r2: seq<nat>)
    requires Fits(s, mid) && Visited(s, mid, a, r1) && Visited(s, mid, a, r2)
    ensures r1 == r2
  {
    if IsRoot(mid, a) {
      var steps1 :| Saturates(s, mid, a, steps1, r1);
      var steps2 :| Saturates(s, mid, a, steps2, r2);
      SaturationIsDetermined(s, mid, a, steps1, r1, steps2, r2);
    }
  }

  lemma {:induction false} SweepIsDetermined(
    s: Setting, root: seq<nat>, order: seq<nat>, k: nat, r1: seq<nat>, r2: seq<nat>)
    requires Fits(s, root) && Swept(s, root, order, k, r1) && Swept(s, root, order, k, r2)
    ensures r1 == r2
    decreases k
  {
    if k > 0 {
      var m1 :| |m1| == |root| && Swept(s, root, order, k - 1, m1) && Visited(s, m1, order[k - 1], r1);
      var m2 :| |m2| == |root| && Swept(s, root, order, k - 1, m2) && Visited(s, m2, order[k - 1], r2);
      SweepIsDetermined(s, root, order, k - 1, m1, m2);
      VisitIsDetermined(s, m1, order[k - 1], r1, r2);
    }
  }

  ghost predicate SweepsOnce(s: Setting, root: seq<nat>, root': seq<nat>)
    requires Fits(s, root)
  {
    exists order :: InOrder(s, root, order) && Swept(s, root, order, |order|, root')
  }

  lemma OneOrder(s: Setting, root: seq<nat>, a: seq<nat>, b: seq<nat>)
    requires Fits(s, root) && InOrder(s, root, a) && InOrder(s, root, b)
    ensures a == b
  {
    OrderIsDetermined(s, root, a, b, |a|);
    OrderIsDetermined(s, root, b, a, |b|);
    assert a[..|a|] == a && b[..|b|] == b;
  }

  lemma SweepOrder(s: Setting, root: seq<nat>, root': seq<nat>) returns (order: seq<nat>)
    requires Fits(s, root) && SweepsOnce(s, root, root')
    ensures InOrder(s, root, order) && Swept(s, root, order, |order|, root')
  {
    order :| InOrder(s, root, order) && Swept(s, root, order, |order|, root');
  }

  lemma OneSweepIsDetermined(s: Setting, root: seq<nat>, r1: seq<nat>, r2: seq<nat>)
    requires Fits(s, root) && SweepsOnce(s, root, r1) && SweepsOnce(s, root, r2)
    ensures r1 == r2
  {
    var a := SweepOrder(s, root, r1);
    var b := SweepOrder(s, root, r2);
    OneOrder(s, root, a, b);
    SweepIsDetermined(s, root, a, |a|, r1, r2);
  }

  // ---- To the fixpoint ----

  /** Sweeps that change the partition, to each of `mids` in turn, then one that does not. */
  ghost predicate MergesTo(s: Setting, root: seq<nat>, mids: seq<seq<nat>>, root': seq<nat>)
    requires Fits(s, root)
    decreases |mids|
  {
    if mids == [] then
      root' == root && SweepsOnce(s, root, root)
    else
      && |mids[0]| == |root| && mids[0] != root && SweepsOnce(s, root, mids[0])
      && MergesTo(s, mids[0], mids[1..], root')
  }

  /** The greedy rule determines the final partition. */
  lemma {:induction false} MergingIsDetermined(
    s: Setting, root: seq<nat>, mids1: seq<seq<nat>>, r1: seq<nat>, mids2: seq<seq<nat>>, r2: seq<nat>)
    requires Fits(s, root) && MergesTo(s, root, mids1, r1) && MergesTo(s, root, mids2, r2)
    ensures r1 == r2
    decreases |mids1|
  {
    if mids1 != [] && mids2 != [] {
      OneSweepIsDetermined(s, root, mids1[0], mids2[0]);
      MergingIsDetermined(s, mids1[0], mids1[1..], r1, mids2[1..], r2);
    } else if mids1 != [] {
      OneSweepIsDetermined(s, root, mids1[0], root);
    } else if mids2 != [] {
      OneSweepIsDetermined(s, root, mids2[0], root);
    }
  }

  /** From path[k], a sweep leads on to path[k + 1]. */
  ghost predicate MoveAt(s: Setting, path: seq<seq<nat>>, k: int)
    requires 0 <= k < |path| - 1
  {
    && Fits(s, path[k]) && |path[k + 1]| == |path[k]| && path[k + 1] != path[k]
    && SweepsOnce(s, path[k], path[k + 1])
  }

  ghost predicate Moves(s: Setting, path: seq<seq<nat>>) {
    forall k {:trigger MoveAt(s, path, k)} :: 0 <= k < |path| - 1 ==> MoveAt(s, path, k)
  }

  /** Sweeps that change something, one after the other, lead from `root` through `mids` to root'. */
  ghost predicate Merges(s: Setting, root: seq<nat>, mids: seq<seq<nat>>, root': seq<nat>) {
    root' == ([root] + mids)[|mids|] && Moves(s, [root] + mids)
  }

  lemma MergesOneMore(s: Setting, root: seq<nat>, mids: seq<seq<nat>>, last: seq<nat>, next: seq<nat>)
    requires Merges(s, root, mids, last) && Fits(s, last)
    requires |next| == |last| && next != last && SweepsOnce(s, last, next)
    ensures Merges(s, root, mids + [next], next)
  {
    var path := [root] + mids;
    MovesOn(s, path, next);
    assert [root] + (mids + [next]) == path + [next];
  }

  lemma MovesOn(s: Setting, path: seq<seq<nat>>, next: seq<nat>)
    requires path != [] && Moves(s, path)
    requires var last := path[|path| - 1];
             Fits(s, last) && |next| == |last| && next != last && SweepsOnce(s, last, next)
    ensures Moves(s, path + [next])
  {
    var n := |path| - 1;
    var path' := path + [next];
    forall k | 0 <= k <= n ensures MoveAt(s, path', k) {
      if k < n {
        MoveStays(s, path, path', k, k);
      } else {
        LastMove(s, path', k, path[n], next);
      }
    }
  }

  lemma LastMove(s: Setting, path: seq<seq<nat>>, k: int, last: seq<nat>, next: seq<nat>)
    requires 0 <= k < |path| - 1 && path[k] == last && path[k + 1] == next
    requires Fits(s, last) && |next| == |last| && next != last && SweepsOnce(s, last, next)
    ensures MoveAt(s, path, k)
  {
  }

  lemma MoveStays(s: Setting, path: seq<seq<nat>>, path': seq<seq<nat>>, k: int, l: int)
    requires 0 <= k < |path| - 1 && 0 <= l < |path'| - 1 && MoveAt(s, path, k)
    requires path'[l] == path[k] && path'[l + 1] == path[k + 1]
    ensures MoveAt(s, path', l)
  {
  }

  lemma {:induction false} MergesAll(s: Setting, root: seq<nat>, mids: seq<seq<nat>>, root': seq<nat>)
    requires Fits(s, root) && Merges(s, root, mids, root')
    requires |root'| == |root| && SweepsOnce(s, root', root')
    ensures MergesTo(s, root, mids, root')
    decreases |mids|
  {
    if mids != [] {
      MergesRest(s, root, mids, root');
      MergesAll(s, mids[0], mids[1..], root');
    }
  }

  lemma MergesRest(s: Setting, root: seq<nat>, mids: seq<seq<nat>>, root': seq<nat>)
    requires Fits(s, root) && Merges(s, root, mids, root') && mids != []
    ensures |mids[0]| == |root| && mids[0] != root && SweepsOnce(s, root, mids[0]) && Fits(s, mids[0])
    ensures Merges(s, mids[0], mids[1..], root')
  {
    var path := [root] + mids;
    assert [mids[0]] + mids[1..] == path[1..] && MoveAt(s, path, 0);
    MovesFromNext(s, path);
  }

  lemma MovesFromNext(s: Setting, path: seq<seq<nat>>)
    requires |path| > 1 && Moves(s, path)
    ensures Moves(s, path[1..])
  {
    var rest := path[1..];
    forall k | 0 <= k < |rest| - 1 ensures MoveAt(s, rest, k) {
      MoveStays(s, path, rest, k + 1, k);
    }
  }

  /** Every patch by itself. */
  function Apart(n: nat): (root: seq<nat>)
    ensures |root| == n && forall i :: 0 <= i < n ==> root[i] == i
  {
    seq(n, i => i)
  }

  /** `root` is the result of greedy merging from patches by themselves. */
  ghost predicate IsGreedy(s: Setting, root: seq<nat>)
    requires Fits(s, root)
  {
    exists mids :: MergesTo(s, Apart(|root|), mids, root)
  }

  lemma GreedyIsUnique(s: Setting, r1: seq<nat>, r2: seq<nat>)
    requires |r1| == |r2| && Fits(s, r1) && IsGreedy(s, r1) && IsGreedy(s, r2)
    ensures r1 == r2
  {
    var mids1 :| MergesTo(s, Apart(|r1|), mids1, r1);
    var mids2 :| MergesTo(s, Apart(|r2|), mids2, r2);
    MergingIsDetermined(s, Apart(|r1|), mids1, r1, mids2, r2);
  }

  /** Without patches there is nothing to merge. */
  lemma NoPatchesIsGreedy(s: Setting)
    requires Fits(s, [])
    ensures IsGreedy(s, [])
  {
    var none: seq<nat> := [];
    assert InOrder(s, none, none) && Swept(s, none, none, 0, none);
    assert SweepsOnce(s, none, none) && Apart(0) == none;
    assert MergesTo(s, Apart(0), [], none);
  }
}
