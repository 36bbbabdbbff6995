// The merging loop of the region split and what it leaves to its caller (merge_to_fixpoint and
// split_into_regions in libsimulator/src/geometry/region_split.cpp). The projection certificate
// is a parameter: a verdict on a set of boundary halfedges.
module RegionSplit {
  import opened Sequences
  import opened Wrappers
  import opened UnionFind
  import opened SurfaceMesh
  import opened RegionMerging
  import opened PatchGrowing
  import opened GreedyMerging

  class Merger {
    const mesh: Mesh
    const patchOf: seq<nat>
    const simple: set<nat> -> bool
    const parent: array<nat>
    var patches: seq<Patch>
    var failed: map<(nat, nat), (nat, nat)>
    ghost var root: seq<nat>
    ghost var depth: seq<nat>
    ghost var shape: seq<seq<set<nat>>>

    /** Every patch starts as a region of its own. */
    constructor (mesh: Mesh, patchOf: seq<nat>, simple: set<nat> -> bool, patches: seq<Patch>)
      requires ValidMesh(mesh) && ValidPatchOf(mesh, patchOf, |patches|)
      requires forall p :: 0 <= p < |patches| ==> StartsAlone(mesh, patchOf, patches[p], p)
      ensures Valid() && Flat() && root == Apart(|patches|)
      ensures this.mesh == mesh && this.patchOf == patchOf && this.simple == simple
      ensures fresh(parent)
    {
      this.mesh, this.patchOf, this.simple, this.patches := mesh, patchOf, simple, patches;
      parent := new nat[|patches|](i => i);
      failed := map[];
      root := Apart(|patches|);
      depth := seq(|patches|, _ => 0);
      shape := seq(|patches|, p => [set f | 0 <= f < |patchOf| && patchOf[f] == p]);
      new;
      AloneIsCoherent(mesh, patchOf, patches, root);
      forall p | 0 <= p < |root| ensures patches[p].version == 0 && shape[p][0] == FacesOf(patchOf, root, p) {
        assert StartsAlone(mesh, patchOf, patches[p], p);
      }
    }

    ghost predicate Valid()
      reads this, parent
    {
      && ValidMesh(mesh)
      && Sound(mesh, patchOf, simple, patches, root, shape, failed)
      && Forest(parent[..], root, depth)
    }

    /** Every element points straight at its root. */
    ghost predicate Flat()
      requires |root| == parent.Length
      reads this, parent
    {
      forall i :: 0 <= i < parent.Length ==> Level1(parent[..], root, i)
    }

    /** The same, but for the class of a, which may be one step further off. */
    ghost predicate FlatBut(a: nat)
      requires |root| == parent.Length && InRange(parent[..])
      reads this, parent
    {
      forall i :: 0 <= i < parent.Length ==>
        Level1(parent[..], root, i) || (root[i] == a && Level2(parent[..], root, i))
    }

    ghost predicate Root(r: nat)
      reads this
    {
      IsRoot(root, r)
    }

    /** What stays the same throughout. */
    function Given(): Setting {
      Setting(mesh, patchOf, simple)
    }

    lemma RootsAreKeyed(ids: seq<nat>)
      requires Valid() && forall b :: b in ids ==> Root(b)
      ensures Keyed(Given(), root, patches, ids)
    {
      forall b | b in ids ensures b < |patches| && HasKey(Given(), root, b, patches[b]) {
        assert RegionExact(mesh, patchOf, patches, root, b);
      }
    }

    /** Regions a and b cannot be merged. */
    ghost predicate Stuck(a: nat, b: nat)
      requires ValidMesh(mesh) && ValidPatchOf(mesh, patchOf, |root|)
      reads this
    {
      Rejects(mesh, simple, FacesOf(patchOf, root, a), FacesOf(patchOf, root, b))
    }

    /** The boundary halfedges of one region that a merge of roots a and b keeps. */
    method KeepOuter(boundary: seq<nat>, a: nat, b: nat) returns (result: seq<nat>)
      requires Valid()
      requires NoDuplicates(boundary) && forall h :: h in boundary ==> h < |mesh.faceOf|
      modifies parent
      ensures Valid() && Shortened(old(parent[..]), parent[..], root)
      ensures NoDuplicates(result)
      ensures forall h :: h in result <==> h in boundary && Outer(h, a, b)
    {
      result := [];
      for k := 0 to |boundary|
        invariant Forest(parent[..], root, depth)
        invariant Shortened(old(parent[..]), parent[..], root)
        invariant NoDuplicates(result)
        invariant forall h :: h in result <==> h in boundary[..k] && h in boundary && Outer(h, a, b)
      {
        var h := boundary[k];
        assert h in boundary && h !in boundary[..k];
        var opp := mesh.opposite[h];
        var keep := true;
        if mesh.faceOf[opp].Some? {
          var r := FindRoot(parent, patchOf[mesh.faceOf[opp].value], root, depth);
          keep := r != a && r != b;
        }
        assert boundary[..k + 1] == boundary[..k] + [h];
        if keep {
          result := result + [h];
        }
      }
      assert boundary[..|boundary|] == boundary;
    }

    /** Across h lies the border or a region other than a and b. */
    ghost predicate Outer(h: nat, a: nat, b: nat)
      requires ValidMesh(mesh) && ValidPatchOf(mesh, patchOf, |root|) && h < |mesh.faceOf|
      reads this
    {
      var across := mesh.faceOf[mesh.opposite[h]];
      across.None? || (root[patchOf[across.value]] != a && root[patchOf[across.value]] != b)
    }

    /** The boundary a merge of roots a and b would have. */
    method MergedBoundary(a: nat, b: nat) returns (result: seq<nat>)
      requires Valid() && Root(a) && Root(b) && a != b
      modifies parent
      ensures Valid() && Shortened(old(parent[..]), parent[..], root)
      ensures ListsBoundary(mesh, FacesOf(patchOf, root, a) + FacesOf(patchOf, root, b), result)
    {
      ghost var facesA, facesB := FacesOf(patchOf, root, a), FacesOf(patchOf, root, b);
      assert RegionExact(mesh, patchOf, patches, root, a) && RegionExact(mesh, patchOf, patches, root, b);
      var fromA := KeepOuter(patches[a].boundary, a, b);
      label L:
      var fromB := KeepOuter(patches[b].boundary, a, b);
      ShortenedTransitive(old(parent[..]), old@L(parent[..]), parent[..], root);
      result := fromA + fromB;
      BoundariesDisjoint(mesh, facesA, facesB);
      NoDuplicatesConcat(fromA, fromB);
      forall h ensures h in result <==> h in BoundaryOf(mesh, facesA + facesB) {
        if 0 <= h < |mesh.faceOf| {
          BoundaryOfUnion(mesh, facesA, facesB, h);
        }
      }
    }

    /** The roots of the regions that region r meets, by ascending key. Looking them up points
        every element of r's class straight at r. */
    method NeighborRoots(r: nat) returns (roots: seq<nat>)
      requires Valid() && Root(r)
      requires FlatBut(r)
      modifies parent
      ensures Valid() && Flat()
      ensures forall b :: b in roots <==> Root(b) && b != r && RegionsMeet(mesh, patchOf, root, r, b)
      ensures StrictlyAscending(patches, roots)
    {
      NeighborsLeadToRegions(mesh, patchOf, patches, root, r, r);
      var found := FindRoots(patches[r].neighbors);
      MembersAreLevel1(r);
      var others := Others(found, r);
      RootsInRange(others);
      var sorted := SortByKey(patches, others);
      roots := Unique(sorted);
      SortedIsStrict(sorted);
      forall b: nat ensures b in roots <==> Root(b) && b != r && RegionsMeet(mesh, patchOf, root, r, b) {
        NeighborsLeadToRegions(mesh, patchOf, patches, root, r, b);
        RootsOfElements(b);
      }
    }

    lemma SortedIsStrict(sorted: seq<nat>)
      requires Valid() && (forall b :: b in sorted ==> exists i :: 0 <= i < |root| && root[i] == b)
      requires (forall i :: 0 <= i < |sorted| ==> sorted[i] < |patches|) && Ascending(patches, sorted)
      ensures StrictlyAscending(patches, Unique(sorted))
    {
      forall b | b in sorted ensures Root(b) {
        RootsOfElements(b);
      }
      RootsAreKeyed(sorted);
      UniqueIsStrict(Given(), root, patches, sorted);
    }

    function Others(ids: seq<nat>, r: nat): (others: seq<nat>)
      ensures forall b :: b in others <==> b in ids && b != r
    {
      if ids == [] then [] else (if ids[0] != r then [ids[0]] else []) + Others(ids[1..], r)
    }

    lemma RootsInRange(ids: seq<nat>)
      requires forall b :: b in ids ==> b < |patches|
      ensures forall i :: 0 <= i < |ids| ==> ids[i] < |patches|
    {
      forall i | 0 <= i < |ids| ensures ids[i] < |patches| {
        assert ids[i] in ids;
      }
    }

    /** Once its neighbours have been looked up, every element of r's class points at r. */
    lemma MembersAreLevel1(r: nat)
      requires Valid() && Root(r)
      requires forall i :: 0 <= i < parent.Length && root[i] != r ==> Level1(parent[..], root, i)
      requires forall n :: n in patches[r].neighbors && n < parent.Length ==> Level1(parent[..], root, n)
      ensures Flat()
    {
      forall i | 0 <= i < parent.Length ensures Level1(parent[..], root, i) {
        assert Linked(parent[..], root, depth, i);
        if root[i] == r && i != r {
          MembersAreNeighbors(mesh, patchOf, patches, root, r, i);
        }
      }
    }

    /** The representatives of the given patches, each at most two steps off. */
    method FindRoots(ids: seq<nat>) returns (found: seq<nat>)
      requires Valid() && forall n :: n in ids ==> n < |root|
      requires forall n :: n in ids ==> Level1(parent[..], root, n) || Level2(parent[..], root, n)
      modifies parent
      ensures Valid() && Shortened(old(parent[..]), parent[..], root)
      ensures forall n :: n in ids ==> Level1(parent[..], root, n)
      ensures forall b :: b in found <==> exists n :: n in ids && root[n] == b
      ensures forall b :: b in found ==> b < |root|
    {
      found := [];
      for k := 0 to |ids|
        invariant Forest(parent[..], root, depth)
        invariant Shortened(old(parent[..]), parent[..], root)
        invariant forall n :: n in ids[..k] ==> n in ids && Level1(parent[..], root, n)
        invariant forall b :: b in found ==> b < |root| && exists n :: n in ids && root[n] == b
        invariant forall n :: n in ids[..k] ==> root[n] in found
      {
        var n := ids[k];
        assert n in ids && ids[..k + 1] == ids[..k] + [n];
        ghost var before := parent[..];
        assert Level1(before, root, n) || Level2(before, root, n);
        var b := FindRoot(parent, n, root, depth);
        ShortenedTransitive(old(parent[..]), before, parent[..], root);
        assert Linked(parent[..], root, depth, n);
        found := found + [b];
      }
      assert ids[..|ids|] == ids;
    }

    /** A representative is its own. */
    lemma RootsOfElements(b: nat)
      requires |root| == parent.Length && Forest(parent[..], root, depth)
      ensures forall i :: 0 <= i < |root| && root[i] == b ==> Root(b)
    {
      forall i | 0 <= i < |root| && root[i] == b ensures Root(b) {
        assert Linked(parent[..], root, depth, i) && Linked(parent[..], root, depth, root[i]);
      }
    }

    /** The boundary of a merge of roots a and b if it passes the certificate. A pair that failed
        at these versions before is not tried again: it would fail again. */
    method Attempt(a: nat, b: nat) returns (candidate: Option<seq<nat>>)
      requires Valid() && Root(a) && Root(b) && a != b && Flat()
      modifies this`failed, parent
      ensures Valid() && Flat()
      ensures candidate.Some? <==> !Stuck(a, b)
      ensures candidate.Some? ==>
                ListsBoundary(mesh, FacesOf(patchOf, root, a) + FacesOf(patchOf, root, b), candidate.value)
      ensures failed == if candidate.Some? then old(failed)
                        else old(failed)[(if a < b then (a, b) else (b, a)) := (patches[a].version, patches[b].version)]
    {
      var key := Key(a, b);
      var versions := (patches[a].version, patches[b].version);
      if key in failed && failed[key] == versions {
        CacheHitWasRejected(mesh, patchOf, simple, patches, root, shape, failed, a, b);
        return None;
      }
      var boundary := MergedBoundary(a, b);
      var halfedges := set h | h in boundary;
      assert halfedges == BoundaryOf(mesh, FacesOf(patchOf, root, a) + FacesOf(patchOf, root, b));
      if simple(halfedges) {
        return Some(boundary);
      }
      RecordKeepsCacheSound(mesh, patchOf, simple, patches, root, shape, failed, a, b);
      failed := failed[key := versions];
      return None;
    }

    /** Try to let root a absorb root b. */
    method TryAbsorb(a: nat, b: nat) returns (absorbed: bool)
      requires Valid() && Root(a) && Root(b) && a != b && Flat()
      requires RegionsMeet(mesh, patchOf, root, a, b)
      modifies this`patches, this`failed, this`root, this`depth, this`shape, parent
      ensures Valid()
      ensures absorbed <==> old(!Stuck(a, b))
      ensures !absorbed ==> patches == old(patches) && root == old(root) && Flat()
      ensures absorbed ==> root == United(old(root), a, b) && FlatBut(a)
    {
      var candidate := Attempt(a, b);
      absorbed := candidate.Some?;
      if absorbed {
        Absorb(a, b, candidate.value);
      }
    }

    /** Root a takes over b's faces and neighbours. */
    method Absorb(a: nat, b: nat, boundary: seq<nat>)
      requires Valid() && Root(a) && Root(b) && a != b
      requires RegionsMeet(mesh, patchOf, root, a, b)
      requires Flat()
      requires ListsBoundary(mesh, FacesOf(patchOf, root, a) + FacesOf(patchOf, root, b), boundary)
      requires !Stuck(a, b)
      modifies this`patches, this`root, this`depth, this`shape, parent
      ensures Valid()
      ensures root == United(old(root), a, b) && FlatBut(a)
    {
      AbsorbKeepsSound(mesh, patchOf, simple, patches, root, shape, failed, a, b, boundary);
      patches := Absorbed(patches, a, b, boundary);
      shape := Grown(shape, a, FacesOf(patchOf, root, a) + FacesOf(patchOf, root, b));
      Link(a, b);
    }

    /** Point root b at root a. */
    method Link(a: nat, b: nat)
      requires |root| == parent.Length && Forest(parent[..], root, depth) && InRange(parent[..]) && Flat()
      requires Root(a) && Root(b) && a != b
      modifies this`root, this`depth, parent
      ensures root == United(old(root), a, b)
      ensures |root| == parent.Length && Forest(parent[..], root, depth) && InRange(parent[..]) && FlatBut(a)
    {
      ghost var oldParent := parent[..];
      UniteKeepsForest(oldParent, root, depth, a, b);
      forall i | 0 <= i < parent.Length
        ensures InRange(oldParent[b := a])
        ensures if root[i] == b then Level2(oldParent[b := a], United(root, a, b), i)
                else Level1(oldParent[b := a], United(root, a, b), i)
      {
        UniteLevels(oldParent, root, depth, a, b, i);
      }
      parent[b] := a;
      assert parent[..] == oldParent[b := a];
      depth := Deepened(root, depth, b, depth[a] + 1);
      root := United(root, a, b);
    }

    /** Let root a absorb the first of the given regions that it can. */
    method AbsorbFirst(a: nat, roots: seq<nat>) returns (absorbed: bool, ghost b: nat)
      requires Valid() && Root(a) && Flat()
      requires forall b :: b in roots <==> Root(b) && b != a && RegionsMeet(mesh, patchOf, root, a, b)
      requires StrictlyAscending(patches, roots)
      modifies this`patches, this`failed, this`root, this`depth, this`shape, parent
      ensures Valid() && Root(a) && FlatBut(a) && |root| == |old(root)|
      ensures !absorbed ==> root == old(root) && Flat() && NoneMergeable(Given(), root, a)
      ensures absorbed ==> b < |root| && FirstMergeable(Given(), old(root), a, b) && root == United(old(root), a, b)
      ensures absorbed ==> |LiveRoots(root)| < |LiveRoots(old(root))|
    {
      absorbed, b := false, a;
      RootsAreKeyed(roots);
      ghost var keys := patches;
      for i := 0 to |roots|
        invariant Valid() && Root(a) && Flat() && root == old(root) && patches == keys
        invariant forall j :: 0 <= j < i ==> !Mergeable(Given(), root, a, roots[j])
      {
        b := roots[i];
        assert b in roots;
        absorbed := TryAbsorb(a, roots[i]);
        if absorbed {
          FirstInList(Given(), old(root), keys, a, roots, i);
          UnitingDropsOne(old(root), a, b);
          return;
        }
      }
      forall c | 0 <= c < |root| ensures !Mergeable(Given(), root, a, c) {
        if c in roots {
          var j :| 0 <= j < |roots| && roots[j] == c;
        }
      }
    }

    /** Let root a absorb its neighbours, one after the other, until none can be absorbed. */
    method AbsorbNeighbors(a: nat) returns (merged: bool, ghost steps: seq<nat>)
      requires Valid() && Root(a) && Flat()
      modifies this`patches, this`failed, this`root, this`depth, this`shape, parent
      ensures Valid() && Root(a) && Flat() && |root| == |old(root)|
      ensures Saturates(Given(), old(root), a, steps, root) && NoneMergeable(Given(), root, a)
      ensures !merged ==> root == old(root)
      ensures merged ==> |LiveRoots(root)| < |LiveRoots(old(root))|
    {
      merged, steps := false, [];
      var absorbed := true;
      while absorbed
        invariant Valid() && Root(a) && FlatBut(a) && |root| == |old(root)|
        invariant Absorbs(Given(), old(root), a, steps, root)
        invariant !absorbed ==> Flat() && NoneMergeable(Given(), root, a)
        invariant !merged ==> root == old(root)
        invariant merged ==> |LiveRoots(root)| < |LiveRoots(old(root))|
        decreases |LiveRoots(root)|, absorbed
      {
        var roots := NeighborRoots(a);
        ghost var mid := root;
        ghost var b;
        absorbed, b := AbsorbFirst(a, roots);
        if absorbed {
          AbsorbsOneMore(Given(), old(root), a, steps, mid, b);
          steps := steps + [b];
        }
        merged := merged || absorbed;
      }
      AbsorbsAll(Given(), old(root), a, steps, root);
    }

    /** The live regions, bottom-up. */
    method Order() returns (order: seq<nat>)
      requires Valid()
      ensures forall i :: 0 <= i < |order| ==> order[i] < |patches|
      ensures InOrder(Given(), root, order)
    {
      var live: seq<nat> := [];
      for i := 0 to |patches|
        invariant forall k :: 0 <= k < |live| ==> live[k] < i
        invariant NoDuplicates(live)
        invariant forall r: nat :: r in live <==> r < i && Root(r)
      {
        if patches[i].alive {
          live := live + [i];
        }
      }
      order := SortByKey(patches, live);
      SortKeepsDistinct(patches, live);
      RootsAreKeyed(order);
      SortedIsInOrder(Given(), root, patches, order);
    }

    /** Region a's turn in a sweep. */
    method Visit(a: nat) returns (merged: bool)
      requires Valid() && Flat() && a < |patches|
      modifies this`patches, this`failed, this`root, this`depth, this`shape, parent
      ensures Valid() && Flat() && |root| == |old(root)|
      ensures Visited(Given(), old(root), a, root)
      ensures !merged ==> root == old(root) && (Root(a) ==> NoneMergeable(Given(), root, a))
      ensures merged ==> |LiveRoots(root)| < |LiveRoots(old(root))|
    {
      merged := false;
      if patches[a].alive {
        ghost var steps;
        merged, steps := AbsorbNeighbors(a);
      }
    }

    /** The first k regions of a sweep that began with `first` have had their turns. */
    ghost predicate SweptTo(first: seq<nat>, order: seq<nat>, k: nat, merged: bool)
      reads this, parent
    {
      Valid() && Flat() && Fits(Given(), first) && SweptSoFar(Given(), first, order, k, root, merged)
    }

    /** The turn of the k-th region in a sweep that began with `first`. */
    method SweepStep(ghost first: seq<nat>, order: seq<nat>, k: nat, mergedBefore: bool) returns (merged: bool)
      requires k < |order| && order[k] < |patches| && SweptTo(first, order, k, mergedBefore)
      modifies this`patches, this`failed, this`root, this`depth, this`shape, parent
      ensures |patches| == |old(patches)| && SweptTo(first, order, k + 1, merged)
    {
      var visited := Visit(order[k]);
      SweptOneMore(Given(), first, order, k, old(root), mergedBefore, root, visited);
      merged := mergedBefore || visited;
    }

    /** The turns of all regions in `order`. */
    method VisitAll(order: seq<nat>) returns (merged: bool)
      requires Valid() && Flat() && forall i :: 0 <= i < |order| ==> order[i] < |patches|
      modifies this`patches, this`failed, this`root, this`depth, this`shape, parent
      ensures Valid() && Flat()
      ensures SweptSoFar(Given(), old(root), order, |order|, root, merged)
    {
      ghost var first := root;
      merged := false;
      SweepStarts(Given(), root, order);
      for k := 0 to |order|
        invariant |patches| == |old(patches)| && SweptTo(first, order, k, merged)
      {
        merged := SweepStep(first, order, k, merged);
      }
    }

    /** One sweep over the live regions, bottom-up. */
    method Sweep() returns (merged: bool)
      requires Valid() && Flat()
      modifies this`patches, this`failed, this`root, this`depth, this`shape, parent
      ensures Valid() && Flat() && |root| == |old(root)|
      ensures SweepsOnce(Given(), old(root), root)
      ensures !merged ==> root == old(root) && NothingMergeable(Given(), root)
      ensures merged ==> |LiveRoots(root)| < |LiveRoots(old(root))|
    {
      var order := Order();
      merged := VisitAll(order);
      SweepEnds(Given(), old(root), order, root, merged);
    }

    /** Sweep until nothing merges: then no two regions that meet can be merged, and there were at
        most as many sweeps as patches, and one more. */
    method MergeToFixpoint() returns (ghost sweeps: nat, ghost mids: seq<seq<nat>>)
      requires Valid() && Flat()
      modifies this`patches, this`failed, this`root, this`depth, this`shape, parent
      ensures Valid() && Flat() && |root| == |old(root)|
      ensures MergesTo(Given(), old(root), mids, root) && NothingMergeable(Given(), root)
      ensures sweeps <= |patches| + 1
    {
      sweeps, mids := SweepToFixpoint();
      for i := 0 to parent.Length
        invariant Valid() && Flat() && |root| == |old(root)|
        invariant MergesTo(Given(), old(root), mids, root) && NothingMergeable(Given(), root)
      {
        var _ := FindRoot(parent, i, root, depth);
      }
    }

    method SweepToFixpoint() returns (ghost sweeps: nat, ghost mids: seq<seq<nat>>)
      requires Valid() && Flat()
      modifies this`patches, this`failed, this`root, this`depth, this`shape, parent
      ensures Valid() && Flat() && |root| == |old(root)|
      ensures MergesTo(Given(), old(root), mids, root) && NothingMergeable(Given(), root)
      ensures sweeps <= |patches| + 1
    {
      var mergedAny := true;
      sweeps, mids := 0, [];
      LiveRootsBound(root);
      while mergedAny
        invariant Valid() && Flat() && |root| == |old(root)|
        invariant Merges(Given(), old(root), mids, root)
        invariant !mergedAny ==> SweepsOnce(Given(), root, root) && NothingMergeable(Given(), root)
        invariant sweeps + |LiveRoots(root)| <= |patches| + (if mergedAny then 0 else 1)
        decreases |LiveRoots(root)|, mergedAny
      {
        ghost var last := root;
        mergedAny := Sweep();
        if mergedAny {
          MergesOneMore(Given(), old(root), mids, last, root);
          mids := mids + [root];
        }
        sweeps := sweeps + 1;
      }
      MergesAll(Given(), old(root), mids, root);
    }

    /** What merging arrives at is a split. */
    lemma SplitReached(mids: seq<seq<nat>>)
      requires Valid() && MergesTo(Given(), Apart(|root|), mids, root) && NothingMergeable(Given(), root)
      ensures IsSplit(mesh, patchOf, simple, root)
    {
      forall a: nat, b: nat | a < |root| && root[a] == a && b < |root| && root[b] == b && a != b &&
                              RegionsMeet(mesh, patchOf, root, a, b)
        ensures Stuck(a, b)
      {
        assert NoneMergeable(Given(), root, a) && !Mergeable(Given(), root, a, b);
      }
      forall p | 0 <= p < |root| ensures root[p] < |root| && root[root[p]] == root[p] {
        assert Linked(parent[..], root, depth, p);
        assert Linked(parent[..], root, depth, root[p]);
      }
      forall p, q | 0 <= p < |root| && 0 <= q < |root| && root[p] == root[q] ensures Joined(mesh, patchOf, root, p, q) {
        assert Rooted(mesh, patchOf, root, p) && Rooted(mesh, patchOf, root, q);
        RegionHangsTogether(mesh, patchOf, root, p, q);
      }
    }

    lemma LiveRootsBound(root: seq<nat>)
      ensures |LiveRoots(root)| <= |root|
    {
      BoundedSet(LiveRoots(root), |root|);
    }
  }

  /** The neighbours that the first h halfedges show, and nothing else changed. */
  ghost predicate LinkedUpTo(m: Mesh, patchOf: seq<nat>, grown: seq<Patch>, patches: seq<Patch>, h: nat)
    requires ValidMesh(m) && |patchOf| == |m.around| && h <= |m.faceOf|
  {
    && |patches| == |grown|
    && (forall p :: 0 <= p < |grown| ==> patches[p].(neighbors := []) == grown[p])
    && forall p, q: nat :: 0 <= p < |patches| ==> (q in patches[p].neighbors <==> MeetBefore(m, patchOf, p, q, h))
  }

  function WithNeighbor(patches: seq<Patch>, a: nat, b: nat): (r: seq<Patch>)
    requires a < |patches|
    ensures |r| == |patches| && forall p :: 0 <= p < |r| ==> r[p].(neighbors := []) == patches[p].(neighbors := [])
    ensures forall p, q: nat :: 0 <= p < |r| ==>
              (q in r[p].neighbors <==> q in patches[p].neighbors || (p == a && q == b))
  {
    patches[a := patches[a].(neighbors := patches[a].neighbors + [b])]
  }

  lemma LinkOneMore(m: Mesh, patchOf: seq<nat>, grown: seq<Patch>, patches: seq<Patch>, h: nat, patches': seq<Patch>)
    requires ValidMesh(m) && ValidPatchOf(m, patchOf, |grown|) && h < |m.faceOf| &&
               LinkedUpTo(m, patchOf, grown, patches, h)
    requires var opp := m.opposite[h];
             patches' ==
             if h < opp && m.faceOf[h].Some? && m.faceOf[opp].Some? &&
                patchOf[m.faceOf[h].value] != patchOf[m.faceOf[opp].value]
             then WithNeighbor(WithNeighbor(patches, patchOf[m.faceOf[h].value], patchOf[m.faceOf[opp].value]),
                               patchOf[m.faceOf[opp].value], patchOf[m.faceOf[h].value])
             else patches
    ensures LinkedUpTo(m, patchOf, grown, patches', h + 1)
  {
    forall p, q: nat | 0 <= p < |patches'| ensures q in patches'[p].neighbors <==> MeetBefore(m, patchOf, p, q, h + 1) {
      MeetOneMore(m, patchOf, p, q, h);
    }
  }

  /** Which patches are neighbours, edge by edge. */
  method LinkNeighbors(m: Mesh, patchOf: seq<nat>, grown: seq<Patch>) returns (patches: seq<Patch>)
    requires ValidMesh(m) && ValidPatchOf(m, patchOf, |grown|)
    requires forall p :: 0 <= p < |grown| ==> JustGrown(m, patchOf, grown[p], p)
    ensures |patches| == |grown|
    ensures forall p :: 0 <= p < |patches| ==> StartsAlone(m, patchOf, patches[p], p)
  {
    patches := grown;
    for h := 0 to |m.faceOf|
      invariant LinkedUpTo(m, patchOf, grown, patches, h)
    {
      ghost var before := patches;
      var opp := m.opposite[h];
      if h < opp && m.faceOf[h].Some? && m.faceOf[opp].Some? {
        var a, b := patchOf[m.faceOf[h].value], patchOf[m.faceOf[opp].value];
        if a != b {
          patches := WithNeighbor(patches, a, b);
          patches := WithNeighbor(patches, b, a);
        }
      }
      LinkOneMore(m, patchOf, grown, before, h, patches);
    }
    forall p, q: nat | 0 <= p < |patches| ensures q in patches[p].neighbors <==> Meet(m, patchOf, p, q) {
      MeetAll(m, patchOf, p, q);
    }
  }

  /** Regions are numbered without gaps, each new one when a face first shows it. */
  ghost predicate Compacted(patchOf: seq<nat>, root: seq<nat>, region: seq<nat>, count: nat)
    requires forall f :: 0 <= f < |patchOf| ==> patchOf[f] < |root|
  {
    && |region| <= |patchOf|
    && (forall f :: 0 <= f < |region| ==> region[f] < count)
    && (forall k :: 0 <= k < count ==> k in region)
    && (forall f, k :: 0 <= f < |region| && 0 <= k < region[f] ==> k in region[..f])
    && forall f, g :: 0 <= f < |region| && 0 <= g < |region| ==>
         (region[f] == region[g] <==> root[patchOf[f]] == root[patchOf[g]])
  }

  /** The regions of a mesh: a partition of its faces, coarser than the patches. */
  ghost predicate IsSplit(m: Mesh, patchOf: seq<nat>, simple: set<nat> -> bool, root: seq<nat>)
    requires ValidMesh(m) && ValidPatchOf(m, patchOf, |root|)
  {
    // the greedy rule leads to it,
    && IsGreedy(Setting(m, patchOf, simple), root)
    // every representative is its own,
    && (forall p :: 0 <= p < |root| ==> root[p] < |root| && root[root[p]] == root[p])
    // regions hang together,
    && (forall p, q {:trigger Joined(m, patchOf, root, p, q)} ::
         0 <= p < |root| && 0 <= q < |root| && root[p] == root[q] ==> Joined(m, patchOf, root, p, q))
    // every merged region passes the certificate,
    && Certified(m, patchOf, simple, root)
    // and no two regions that meet could be merged further.
    && forall a, b | 0 <= a < |root| && root[a] == a && 0 <= b < |root| && root[b] == b && a != b &&
                     RegionsMeet(m, patchOf, root, a, b) ::
         Rejects(m, simple, FacesOf(patchOf, root, a), FacesOf(patchOf, root, b))
  }

  /** Number the regions. The parent array is read directly: every patch points at its root. */
  method NumberRegions(
    patchOf: seq<nat>, parent: array<nat>, ghost root: seq<nat>) returns (region: seq<nat>, count: nat)
    requires |root| == parent.Length && forall p :: 0 <= p < parent.Length ==> Level1(parent[..], root, p)
    requires forall f :: 0 <= f < |patchOf| ==> patchOf[f] < |root|
    ensures |region| == |patchOf| && Compacted(patchOf, root, region, count)
  {
    region, count := [], 0;
    var compact: map<nat, nat> := map[];
    for f := 0 to |patchOf|
      invariant |region| == f && Compacted(patchOf, root, region, count)
      invariant forall r :: r in compact ==> compact[r] < count && exists g :: 0 <= g < f && root[patchOf[g]] == r
      invariant forall g :: 0 <= g < f ==> root[patchOf[g]] in compact && compact[root[patchOf[g]]] == region[g]
    {
      var r := parent[patchOf[f]];
      assert Level1(parent[..], root, patchOf[f]);
      ghost var before := region;
      if r !in compact {
        compact := compact[r := count];
        count := count + 1;
      }
      region := region + [compact[r]];
      CompactedOneMore(patchOf, root, before, region, count, r);
    }
  }

  lemma CompactedOneMore(patchOf: seq<nat>, root: seq<nat>, region: seq<nat>, region': seq<nat>, count': nat, r: nat)
    requires forall f :: 0 <= f < |patchOf| ==> patchOf[f] < |root|
    requires |region| < |patchOf| && r == root[patchOf[|region|]] && |region'| == |region| + 1 &&
               region' == region + [region'[|region|]]
    requires
      || (Compacted(patchOf, root, region, count') &&
          exists g :: 0 <= g < |region| && root[patchOf[g]] == r && region[g] == region'[|region|])
      || (count' > 0 && Compacted(patchOf, root, region, count' - 1) && region'[|region|] == count' - 1 &&
          forall g :: 0 <= g < |region| ==> root[patchOf[g]] != r)
    ensures Compacted(patchOf, root, region', count')
  {
    forall k | 0 <= k < count' ensures k in region' {
      if k in region {
        assert k in region';
      } else {
        assert region'[|region|] == k;
      }
    }
    forall f, k | 0 <= f < |region'| && 0 <= k < region'[f] ensures k in region'[..f] {
      if f < |region| {
        assert region'[..f] == region[..f];
      } else {
        assert region'[..f] == region;
      }
    }
  }

  /** Merge the grown patches into regions and number these. */
  method MergePatches(m: Mesh, patchOf: seq<nat>, grown: seq<Patch>, simple: set<nat> -> bool)
    returns (region: seq<nat>, count: nat, ghost root: seq<nat>)
    requires ValidMesh(m) && ValidPatchOf(m, patchOf, |grown|)
    requires forall p :: 0 <= p < |grown| ==> JustGrown(m, patchOf, grown[p], p)
    ensures |root| == |grown| && IsSplit(m, patchOf, simple, root)
    ensures |region| == |m.around| && Compacted(patchOf, root, region, count)
  {
    var patches := LinkNeighbors(m, patchOf, grown);
    var merger := new Merger(m, patchOf, simple, patches);
    ghost var sweeps, mids := merger.MergeToFixpoint();
    root := merger.root;
    merger.SplitReached(mids);
    region, count := NumberRegions(patchOf, merger.parent, root);
  }

  /** Split a surface into regions: planar patches are grown, then merged. Every face gets a region,
      and a region is either one planar patch or has passed the certificate as a whole. */
  method SplitIntoRegions(m: Mesh, fits: (nat, nat) -> bool, coplanar: (nat, nat) -> bool, simple: set<nat> -> bool)
    returns (region: seq<nat>, count: nat, ghost patchOf: seq<nat>, ghost root: seq<nat>, ghost log: seq<Round>)
    requires ValidMesh(m)
    ensures |m.around| == 0 ==> region == [] && count == 0
    ensures ValidPatchOf(m, patchOf, |root|)
    ensures Logged(m, fits, coplanar, simple, Complete(patchOf), |root|, log)
    ensures IsSplit(m, patchOf, simple, root)
    ensures |region| == |m.around| && Compacted(patchOf, root, region, count)
  {
    if |m.around| == 0 {
      NoPatchesIsGreedy(Setting(m, [], simple));
      return [], 0, [], [], [];
    }
    var assignment, patches, rounds := GrowPlanarPatches(m, fits, coplanar, simple);
    patchOf, log := assignment, rounds;
    region, count, root := MergePatches(m, assignment, patches, simple);
  }
}
