// Greedy merging of planar patches into regions (merge_to_fixpoint in
// libsimulator/src/geometry/region_split.cpp).
module RegionMerging {
  import opened UnionFind
  import opened SurfaceMesh

  /** A patch, later a merged region while its id is a union-find root. */
  datatype Patch = Patch(seed: nat, minZ: real, boundary: seq<nat>, neighbors: seq<nat>, version: nat, alive: bool)

  // ---- Regions as sets of faces ----

  /** Every face belongs to a patch. */
  ghost predicate ValidPatchOf(m: Mesh, patchOf: seq<nat>, patches: nat) {
    |patchOf| == |m.around| && forall f :: 0 <= f < |patchOf| ==> patchOf[f] < patches
  }

  /** The faces of region r: those whose patch has representative r. */
  ghost function FacesOf(patchOf: seq<nat>, root: seq<nat>, r: nat): set<nat>
    requires forall f :: 0 <= f < |patchOf| ==> patchOf[f] < |root|
  {
    set f | 0 <= f < |patchOf| && root[patchOf[f]] == r
  }

  lemma UnitedFaces(patchOf: seq<nat>, root: seq<nat>, a: nat, b: nat, r: nat)
    requires forall f :: 0 <= f < |patchOf| ==> patchOf[f] < |root|
    requires a != b
    ensures FacesOf(patchOf, United(root, a, b), r) ==
            if r == a then FacesOf(patchOf, root, a) + FacesOf(patchOf, root, b)
            else if r == b then {}
            else FacesOf(patchOf, root, r)
  {
  }

  /** Two different patches meet along an interior edge. */
  ghost predicate Meet(m: Mesh, patchOf: seq<nat>, p: nat, q: nat)
    requires ValidMesh(m) && |patchOf| == |m.around|
  {
    p != q && exists h :: 0 <= h < |m.faceOf| && Between(m, patchOf, p, q, h)
  }

  /** Halfedge h lies on patch p and has patch q across. */
  ghost predicate Between(m: Mesh, patchOf: seq<nat>, p: nat, q: nat, h: nat)
    requires ValidMesh(m) && |patchOf| == |m.around| && h < |m.faceOf|
  {
    var opp := m.opposite[h];
    && m.faceOf[h].Some? && m.faceOf[opp].Some?
    && patchOf[m.faceOf[h].value] == p && patchOf[m.faceOf[opp].value] == q
  }

  lemma MeetSymmetric(m: Mesh, patchOf: seq<nat>, p: nat, q: nat)
    requires ValidMesh(m) && |patchOf| == |m.around| && Meet(m, patchOf, p, q)
    ensures Meet(m, patchOf, q, p)
  {
    var h :| 0 <= h < |m.faceOf| && Between(m, patchOf, p, q, h);
    assert Between(m, patchOf, q, p, m.opposite[h]);
  }

  /** Two regions meet: some patch of one meets some patch of the other. */
  ghost predicate RegionsMeet(m: Mesh, patchOf: seq<nat>, root: seq<nat>, a: nat, b: nat)
    requires ValidMesh(m) && |patchOf| == |m.around|
  {
    exists p, q :: 0 <= p < |root| && 0 <= q < |root| && root[p] == a && root[q] == b && Meet(m, patchOf, p, q)
  }

  // ---- What is known of the patches at every moment ----

  /** The key of a set of faces: its smallest face index and its lowest height. */
  ghost predicate HasKeyOf(m: Mesh, faces: set<nat>, patch: Patch)
    requires ValidMesh(m)
  {
    && (forall f :: f in faces ==> f < |m.minZ|)
    && patch.seed in faces && (forall f :: f in faces ==> patch.seed <= f && patch.minZ <= m.minZ[f])
    && exists f :: f in faces && m.minZ[f] == patch.minZ
  }

  /** What a live region stores: its exact key and boundary, and as neighbours exactly the patches that
      some patch of the region meets. */
  ghost predicate RegionExact(m: Mesh, patchOf: seq<nat>, patches: seq<Patch>, root: seq<nat>, r: nat)
    requires ValidMesh(m) && ValidPatchOf(m, patchOf, |root|) && r < |patches| == |root|
  {
    && HasKeyOf(m, FacesOf(patchOf, root, r), patches[r])
    && ListsBoundary(m, FacesOf(patchOf, root, r), patches[r].boundary)
    && (forall q: nat :: q in patches[r].neighbors <==>
          q < |root| && exists p :: 0 <= p < |root| && root[p] == r && Meet(m, patchOf, p, q))
  }

  /** The k-th and the next patch of the path belong to one region and meet. */
  ghost predicate LinkAt(m: Mesh, patchOf: seq<nat>, root: seq<nat>, path: seq<nat>, k: int)
    requires ValidMesh(m) && |patchOf| == |m.around|
  {
    && 0 <= k < |path| - 1 && path[k] < |root| && path[k + 1] < |root|
    && root[path[k]] == root[path[k + 1]] && Meet(m, patchOf, path[k], path[k + 1])
  }

  /** A chain of patches of one region from p to q, each meeting the next. */
  ghost predicate IsChain(m: Mesh, patchOf: seq<nat>, root: seq<nat>, path: seq<nat>, p: nat, q: nat)
    requires ValidMesh(m) && |patchOf| == |m.around|
  {
    && path != [] && path[0] == p && path[|path| - 1] == q
    && forall k {:trigger LinkAt(m, patchOf, root, path, k)} :: 0 <= k < |path| - 1 ==>
         LinkAt(m, patchOf, root, path, k)
  }

  /** Patches p and q hang together within their region. */
  ghost predicate Joined(m: Mesh, patchOf: seq<nat>, root: seq<nat>, p: nat, q: nat)
    requires ValidMesh(m) && |patchOf| == |m.around|
  {
    exists path :: IsChain(m, patchOf, root, path, p, q)
  }

  lemma JoinedToItself(m: Mesh, patchOf: seq<nat>, root: seq<nat>, p: nat)
    requires ValidMesh(m) && |patchOf| == |m.around|
    ensures Joined(m, patchOf, root, p, p)
  {
    assert IsChain(m, patchOf, root, [p], p, p);
  }

  lemma JoinedByMeeting(m: Mesh, patchOf: seq<nat>, root: seq<nat>, p: nat, q: nat)
    requires ValidMesh(m) && |patchOf| == |m.around| && p < |root| && q < |root|
    requires root[p] == root[q] && Meet(m, patchOf, p, q)
    ensures Joined(m, patchOf, root, p, q)
  {
    var path := [p, q];
    assert LinkAt(m, patchOf, root, path, 0);
    assert IsChain(m, patchOf, root, path, p, q);
  }

  lemma JoinedTransitive(m: Mesh, patchOf: seq<nat>, root: seq<nat>, p: nat, q: nat, r: nat)
    requires ValidMesh(m) && |patchOf| == |m.around|
    requires Joined(m, patchOf, root, p, q) && Joined(m, patchOf, root, q, r)
    ensures Joined(m, patchOf, root, p, r)
  {
    var a :| IsChain(m, patchOf, root, a, p, q);
    var b :| IsChain(m, patchOf, root, b, q, r);
    var path := a + b[1..];
    forall k | 0 <= k < |path| - 1 ensures LinkAt(m, patchOf, root, path, k) {
      if k < |a| - 1 {
        assert LinkAt(m, patchOf, root, a, k);
      } else {
        var j := k - (|a| - 1);
        assert LinkAt(m, patchOf, root, b, j);
      }
    }
    assert IsChain(m, patchOf, root, path, p, r);
  }

  lemma JoinedSymmetric(m: Mesh, patchOf: seq<nat>, root: seq<nat>, p: nat, q: nat)
    requires ValidMesh(m) && |patchOf| == |m.around| && Joined(m, patchOf, root, p, q)
    ensures Joined(m, patchOf, root, q, p)
  {
    var a :| IsChain(m, patchOf, root, a, p, q);
    var path := seq(|a|, k requires 0 <= k < |a| => a[|a| - 1 - k]);
    forall k | 0 <= k < |path| - 1 ensures LinkAt(m, patchOf, root, path, k) {
      var j := |a| - 2 - k;
      assert LinkAt(m, patchOf, root, a, j);
      MeetSymmetric(m, patchOf, a[j], a[j + 1]);
    }
    assert IsChain(m, patchOf, root, path, q, p);
  }

  /** Uniting classes breaks no chain. */
  lemma JoinedStays(m: Mesh, patchOf: seq<nat>, root: seq<nat>, a: nat, b: nat, p: nat, q: nat)
    requires ValidMesh(m) && |patchOf| == |m.around| && Joined(m, patchOf, root, p, q)
    ensures Joined(m, patchOf, United(root, a, b), p, q)
  {
    var path :| IsChain(m, patchOf, root, path, p, q);
    forall k | 0 <= k < |path| - 1 ensures LinkAt(m, patchOf, United(root, a, b), path, k) {
      assert LinkAt(m, patchOf, root, path, k);
    }
    assert IsChain(m, patchOf, United(root, a, b), path, p, q);
  }

  /** Patch p hangs together with its representative. */
  ghost predicate Rooted(m: Mesh, patchOf: seq<nat>, root: seq<nat>, p: nat)
    requires ValidMesh(m) && |patchOf| == |m.around| && p < |root|
  {
    Joined(m, patchOf, root, p, root[p])
  }

  /** So any two patches of a region hang together. */
  lemma RegionHangsTogether(m: Mesh, patchOf: seq<nat>, root: seq<nat>, p: nat, q: nat)
    requires ValidMesh(m) && |patchOf| == |m.around| && p < |root| && q < |root| && root[p] == root[q]
    requires Rooted(m, patchOf, root, p) && Rooted(m, patchOf, root, q)
    ensures Joined(m, patchOf, root, p, q)
  {
    JoinedSymmetric(m, patchOf, root, q, root[q]);
    JoinedTransitive(m, patchOf, root, p, root[p], q);
  }

  ghost predicate Coherent(m: Mesh, patchOf: seq<nat>, patches: seq<Patch>, root: seq<nat>)
    requires ValidMesh(m)
  {
    && |patches| == |root|
    && ValidPatchOf(m, patchOf, |root|)
    && (forall r :: 0 <= r < |root| ==> (patches[r].alive <==> root[r] == r))
    && (forall r {:trigger RegionExact(m, patchOf, patches, root, r)} ::
          0 <= r < |root| && root[r] == r ==> RegionExact(m, patchOf, patches, root, r))
    && (forall p {:trigger Rooted(m, patchOf, root, p)} :: 0 <= p < |root| ==> Rooted(m, patchOf, root, p))
  }

  /** Region a with region b absorbed. */
  function Absorbing(a: Patch, b: Patch, boundary: seq<nat>): Patch {
    Patch(
      if b.seed < a.seed then b.seed else a.seed,
      if b.minZ < a.minZ then b.minZ else a.minZ,
      boundary, a.neighbors + b.neighbors, a.version + 1, a.alive)
  }

  lemma UnionHasKey(m: Mesh, facesA: set<nat>, facesB: set<nat>, a: Patch, b: Patch, boundary: seq<nat>)
    requires ValidMesh(m) && HasKeyOf(m, facesA, a) && HasKeyOf(m, facesB, b)
    ensures HasKeyOf(m, facesA + facesB, Absorbing(a, b, boundary))
  {
    var fa :| fa in facesA && m.minZ[fa] == a.minZ;
    var fb :| fb in facesB && m.minZ[fb] == b.minZ;
    assert fa in facesA + facesB && fb in facesA + facesB;
  }

  lemma AbsorbKeepsExact(
    m: Mesh, patchOf: seq<nat>, patches: seq<Patch>, root: seq<nat>, patches': seq<Patch>, a: nat, b: nat, r: nat)
    requires ValidMesh(m) && ValidPatchOf(m, patchOf, |root|) && |patches| == |root| == |patches'|
    requires a < |root| && b < |root| && a != b && r < |root| && r != b
    requires RegionExact(m, patchOf, patches, root, a) && RegionExact(m, patchOf, patches, root, b)
    requires RegionExact(m, patchOf, patches, root, r)
    requires r != a ==> patches'[r] == patches[r]
    requires patches'[a] == Absorbing(patches[a], patches[b], patches'[a].boundary)
    requires ListsBoundary(m, FacesOf(patchOf, root, a) + FacesOf(patchOf, root, b), patches'[a].boundary)
    ensures RegionExact(m, patchOf, patches', United(root, a, b), r)
  {
    UnitedFaces(patchOf, root, a, b, r);
    var root' := United(root, a, b);
    if r == a {
      UnionHasKey(m, FacesOf(patchOf, root, a), FacesOf(patchOf, root, b), patches[a], patches[b],
        patches'[a].boundary);
      forall q: nat ensures q in patches'[a].neighbors <==>
          q < |root| && exists p :: 0 <= p < |root| && root'[p] == a && Meet(m, patchOf, p, q)
      {
        assert forall p :: 0 <= p < |root| ==> (root'[p] == a <==> root[p] == a || root[p] == b);
      }
    } else {
      assert forall p :: 0 <= p < |root| ==> (root'[p] == r <==> root[p] == r);
    }
  }

  lemma UniteKeepsRooted(m: Mesh, patchOf: seq<nat>, root: seq<nat>, a: nat, b: nat, x: nat, y: nat, p: nat)
    requires ValidMesh(m) && |patchOf| == |m.around|
    requires a < |root| && b < |root| && a != b && root[a] == a && root[b] == b && p < |root|
    requires x < |root| && y < |root| && root[x] == a && root[y] == b && Meet(m, patchOf, x, y)
    requires Rooted(m, patchOf, root, p) && Rooted(m, patchOf, root, x) && Rooted(m, patchOf, root, y)
    ensures Rooted(m, patchOf, United(root, a, b), p)
  {
    var root' := United(root, a, b);
    JoinedStays(m, patchOf, root, a, b, p, root[p]);
    if root[p] == b {
      JoinedStays(m, patchOf, root, a, b, x, a);
      JoinedStays(m, patchOf, root, a, b, y, b);
      JoinedSymmetric(m, patchOf, root', y, b);
      JoinedTransitive(m, patchOf, root', p, b, y);
      MeetSymmetric(m, patchOf, x, y);
      JoinedByMeeting(m, patchOf, root', y, x);
      JoinedTransitive(m, patchOf, root', p, y, x);
      JoinedTransitive(m, patchOf, root', p, x, a);
    }
  }

  /** Every patch of a region, other than a lone one, is among its neighbours. */
  lemma MembersAreNeighbors(m: Mesh, patchOf: seq<nat>, patches: seq<Patch>, root: seq<nat>, r: nat, p: nat)
    requires ValidMesh(m) && Coherent(m, patchOf, patches, root)
    requires r < |root| && root[r] == r && p < |root| && root[p] == r && p != r
    ensures p in patches[r].neighbors
  {
    assert Rooted(m, patchOf, root, p) && RegionExact(m, patchOf, patches, root, r);
    var path :| IsChain(m, patchOf, root, path, p, r);
    assert LinkAt(m, patchOf, root, path, 0);
    MeetSymmetric(m, patchOf, p, path[1]);
  }

  /** The roots of a region's neighbours, other than itself, are the regions it meets. */
  lemma NeighborsLeadToRegions(m: Mesh, patchOf: seq<nat>, patches: seq<Patch>, root: seq<nat>, r: nat, b: nat)
    requires ValidMesh(m) && Coherent(m, patchOf, patches, root) && r < |root| && root[r] == r
    ensures forall q :: q in patches[r].neighbors ==> q < |root|
    ensures (exists q :: q in patches[r].neighbors && root[q] == b) <==> RegionsMeet(m, patchOf, root, r, b)
  {
    assert RegionExact(m, patchOf, patches, root, r);
    if q :| q in patches[r].neighbors && root[q] == b {
      var p :| 0 <= p < |root| && root[p] == r && Meet(m, patchOf, p, q);
    }
    if RegionsMeet(m, patchOf, root, r, b) {
      var p, q :| 0 <= p < |root| && 0 <= q < |root| && root[p] == r && root[q] == b && Meet(m, patchOf, p, q);
      assert q in patches[r].neighbors;
    }
  }

  // ---- The failed-pair cache ----

  /** The certificate rejects the union of two face sets. */
  ghost predicate Rejects(m: Mesh, simple: set<nat> -> bool, a: set<nat>, b: set<nat>)
    requires ValidMesh(m)
  {
    !simple(BoundaryOf(m, a + b))
  }

  /** `shape[x][n]` are the faces that region x had at version n; the last entry is what it has
      now, or had when it was absorbed. */
  ghost predicate ShapesTrack(patchOf: seq<nat>, patches: seq<Patch>, root: seq<nat>, shape: seq<seq<set<nat>>>)
    requires forall f :: 0 <= f < |patchOf| ==> patchOf[f] < |root|
  {
    && |shape| == |patches| == |root|
    && forall x :: 0 <= x < |shape| ==>
         && |shape[x]| == patches[x].version + 1
         && (root[x] == x ==> shape[x][patches[x].version] == FacesOf(patchOf, root, x))
  }

  ghost predicate RejectedAt(
    m: Mesh, simple: set<nat> -> bool, shape: seq<seq<set<nat>>>, x: nat, i: nat, y: nat, j: nat)
    requires ValidMesh(m)
  {
    x < |shape| && y < |shape| && i < |shape[x]| && j < |shape[y]| && Rejects(m, simple, shape[x][i], shape[y][j])
  }

  /** A cached pair was rejected at the cached versions - in one order or the other: the key is
      ordered by id, the versions by who tried to absorb whom. */
  ghost predicate CacheSound(
    m: Mesh, simple: set<nat> -> bool, shape: seq<seq<set<nat>>>, failed: map<(nat, nat), (nat, nat)>)
    requires ValidMesh(m)
  {
    forall key :: key in failed ==>
      || RejectedAt(m, simple, shape, key.0, failed[key].0, key.1, failed[key].1)
      || RejectedAt(m, simple, shape, key.0, failed[key].1, key.1, failed[key].0)
  }

  function Key(a: nat, b: nat): (nat, nat) {
    if a < b then (a, b) else (b, a)
  }

  /** A cache hit means that exactly this union has been rejected, although the versions may have
      been recorded the other way round: they only grow, so a match in the wrong order forces the
      two to be equal. */
  lemma CacheHitWasRejected(
    m: Mesh, patchOf: seq<nat>, simple: set<nat> -> bool, patches: seq<Patch>, root: seq<nat>,
    shape: seq<seq<set<nat>>>, failed: map<(nat, nat), (nat, nat)>, a: nat, b: nat)
    requires ValidMesh(m) && ValidPatchOf(m, patchOf, |root|)
    requires ShapesTrack(patchOf, patches, root, shape) && CacheSound(m, simple, shape, failed)
    requires a < |root| && b < |root| && a != b && root[a] == a && root[b] == b
    requires Key(a, b) in failed && failed[Key(a, b)] == (patches[a].version, patches[b].version)
    ensures Rejects(m, simple, FacesOf(patchOf, root, a), FacesOf(patchOf, root, b))
  {
    assert FacesOf(patchOf, root, a) + FacesOf(patchOf, root, b) ==
      FacesOf(patchOf, root, b) + FacesOf(patchOf, root, a);
  }

  /** Recording a rejection at the current versions keeps the cache sound. */
  lemma RecordKeepsCacheSound(
    m: Mesh, patchOf: seq<nat>, simple: set<nat> -> bool, patches: seq<Patch>, root: seq<nat>,
    shape: seq<seq<set<nat>>>, failed: map<(nat, nat), (nat, nat)>, a: nat, b: nat)
    requires ValidMesh(m) && ValidPatchOf(m, patchOf, |root|)
    requires ShapesTrack(patchOf, patches, root, shape) && CacheSound(m, simple, shape, failed)
    requires a < |root| && b < |root| && a != b && root[a] == a && root[b] == b
    requires Rejects(m, simple, FacesOf(patchOf, root, a), FacesOf(patchOf, root, b))
    ensures CacheSound(m, simple, shape, failed[Key(a, b) := (patches[a].version, patches[b].version)])
  {
    assert FacesOf(patchOf, root, a) + FacesOf(patchOf, root, b) ==
      FacesOf(patchOf, root, b) + FacesOf(patchOf, root, a);
    assert a < b ==> RejectedAt(m, simple, shape, a, patches[a].version, b, patches[b].version);
    assert b < a ==> RejectedAt(m, simple, shape, b, patches[b].version, a, patches[a].version);
  }

  ghost function Grown(shape: seq<seq<set<nat>>>, a: nat, faces: set<nat>): seq<seq<set<nat>>>
    requires a < |shape|
  {
    shape[a := shape[a] + [faces]]
  }

  lemma AbsorbKeepsShapes(
    patchOf: seq<nat>, patches: seq<Patch>, root: seq<nat>, shape: seq<seq<set<nat>>>, patches': seq<Patch>, a: nat,
    b: nat)
    requires forall f :: 0 <= f < |patchOf| ==> patchOf[f] < |root|
    requires ShapesTrack(patchOf, patches, root, shape) && |patches'| == |patches|
    requires a < |root| && b < |root| && a != b && root[a] == a && root[b] == b
    requires patches'[a].version == patches[a].version + 1
    requires forall x :: 0 <= x < |patches| && x != a ==> patches'[x].version == patches[x].version
    ensures ShapesTrack(patchOf, patches', United(root, a, b),
              Grown(shape, a, FacesOf(patchOf, root, a) + FacesOf(patchOf, root, b)))
  {
    forall x | 0 <= x < |root| && United(root, a, b)[x] == x
      ensures FacesOf(patchOf, United(root, a, b), x) ==
              if x == a then FacesOf(patchOf, root, a) + FacesOf(patchOf, root, b) else FacesOf(patchOf, root, x)
    {
      UnitedFaces(patchOf, root, a, b, x);
    }
  }

  /** A region's growth only adds to its history. */
  lemma GrowthKeepsCacheSound(
    m: Mesh, simple: set<nat> -> bool, shape: seq<seq<set<nat>>>, failed: map<(nat, nat), (nat, nat)>, a: nat,
    faces: set<nat>)
    requires ValidMesh(m) && CacheSound(m, simple, shape, failed) && a < |shape|
    ensures CacheSound(m, simple, Grown(shape, a, faces), failed)
  {
    var shape' := Grown(shape, a, faces);
    forall x: nat, i: nat, y: nat,
      j: nat | RejectedAt(m, simple, shape, x, i, y, j) ensures RejectedAt(m, simple, shape', x, i, y, j) {
      assert shape'[x][i] == shape[x][i] && shape'[y][j] == shape[y][j];
    }
  }

  // ---- Everything that holds between merges ----

  /** Every region of more than one patch passes the certificate. */
  ghost predicate Certified(m: Mesh, patchOf: seq<nat>, simple: set<nat> -> bool, root: seq<nat>)
    requires ValidMesh(m) && ValidPatchOf(m, patchOf, |root|)
  {
    forall r, p :: 0 <= r < |root| && root[r] == r && 0 <= p < |root| && root[p] == r && p != r ==>
      simple(BoundaryOf(m, FacesOf(patchOf, root, r)))
  }

  ghost predicate Sound(
    m: Mesh, patchOf: seq<nat>, simple: set<nat> -> bool, patches: seq<Patch>, root: seq<nat>,
    shape: seq<seq<set<nat>>>, failed: map<(nat, nat), (nat, nat)>)
    requires ValidMesh(m)
  {
    && Coherent(m, patchOf, patches, root)
    && ShapesTrack(patchOf, patches, root, shape)
    && CacheSound(m, simple, shape, failed)
    && Certified(m, patchOf, simple, root)
  }

  /** The patches after root a has absorbed root b. */
  function Absorbed(patches: seq<Patch>, a: nat, b: nat, boundary: seq<nat>): seq<Patch>
    requires a < |patches| && b < |patches|
  {
    patches[a := Absorbing(patches[a], patches[b], boundary)][b := patches[b].(alive := false)]
  }

  lemma UniteKeepsAllRooted(m: Mesh, patchOf: seq<nat>, root: seq<nat>, a: nat, b: nat)
    requires ValidMesh(m) && |patchOf| == |m.around|
    requires a < |root| && b < |root| && a != b && root[a] == a && root[b] == b && RegionsMeet(m, patchOf, root, a, b)
    requires forall p {:trigger Rooted(m, patchOf, root, p)} :: 0 <= p < |root| ==> Rooted(m, patchOf, root, p)
    ensures forall p {:trigger Rooted(m, patchOf, United(root, a, b), p)} ::
              0 <= p < |root| ==> Rooted(m, patchOf, United(root, a, b), p)
  {
    var x, y :| 0 <= x < |root| && 0 <= y < |root| && root[x] == a && root[y] == b && Meet(m, patchOf, x, y);
    assert Rooted(m, patchOf, root, x) && Rooted(m, patchOf, root, y);
    forall p | 0 <= p < |root| ensures Rooted(m, patchOf, United(root, a, b), p) {
      assert Rooted(m, patchOf, root, p);
      UniteKeepsRooted(m, patchOf, root, a, b, x, y, p);
    }
  }

  lemma AbsorbKeepsCoherent(
    m: Mesh, patchOf: seq<nat>, patches: seq<Patch>, root: seq<nat>, a: nat, b: nat, boundary: seq<nat>)
    requires ValidMesh(m) && Coherent(m, patchOf, patches, root)
    requires a < |root| && b < |root| && a != b && root[a] == a && root[b] == b
    requires RegionsMeet(m, patchOf, root, a, b)
    requires ListsBoundary(m, FacesOf(patchOf, root, a) + FacesOf(patchOf, root, b), boundary)
    ensures Coherent(m, patchOf, Absorbed(patches, a, b, boundary), United(root, a, b))
  {
    var patches', root' := Absorbed(patches, a, b, boundary), United(root, a, b);
    forall r | 0 <= r < |root| && root'[r] == r ensures RegionExact(m, patchOf, patches', root', r) {
      AbsorbKeepsExact(m, patchOf, patches, root, patches', a, b, r);
    }
    UniteKeepsAllRooted(m, patchOf, root, a, b);
  }

  lemma UniteKeepsCertified(m: Mesh, patchOf: seq<nat>, simple: set<nat> -> bool, root: seq<nat>, a: nat, b: nat)
    requires ValidMesh(m) && ValidPatchOf(m, patchOf, |root|)
    requires a < |root| && b < |root| && a != b && root[a] == a && root[b] == b
    requires Certified(m, patchOf, simple, root)
    requires !Rejects(m, simple, FacesOf(patchOf, root, a), FacesOf(patchOf, root, b))
    ensures Certified(m, patchOf, simple, United(root, a, b))
  {
    var root' := United(root, a, b);
    forall r, p | 0 <= r < |root| && root'[r] == r && 0 <= p < |root| && root'[p] == r && p != r
      ensures simple(BoundaryOf(m, FacesOf(patchOf, root', r)))
    {
      UnitedFaces(patchOf, root, a, b, r);
    }
  }

  lemma AbsorbKeepsSound(
    m: Mesh, patchOf: seq<nat>, simple: set<nat> -> bool, patches: seq<Patch>, root: seq<nat>,
    shape: seq<seq<set<nat>>>, failed: map<(nat, nat), (nat, nat)>, a: nat, b: nat, boundary: seq<nat>)
    requires ValidMesh(m) && Sound(m, patchOf, simple, patches, root, shape, failed)
    requires a < |root| && b < |root| && a != b && root[a] == a && root[b] == b
    requires RegionsMeet(m, patchOf, root, a, b)
    requires ListsBoundary(m, FacesOf(patchOf, root, a) + FacesOf(patchOf, root, b), boundary)
    requires !Rejects(m, simple, FacesOf(patchOf, root, a), FacesOf(patchOf, root, b))
    ensures Sound(m, patchOf, simple, Absorbed(patches, a, b, boundary), United(root, a, b),
                  Grown(shape, a, FacesOf(patchOf, root, a) + FacesOf(patchOf, root, b)), failed)
  {
    AbsorbKeepsCoherent(m, patchOf, patches, root, a, b, boundary);
    AbsorbKeepsShapes(patchOf, patches, root, shape, Absorbed(patches, a, b, boundary), a, b);
    GrowthKeepsCacheSound(m, simple, shape, failed, a, FacesOf(patchOf, root, a) + FacesOf(patchOf, root, b));
    UniteKeepsCertified(m, patchOf, simple, root, a, b);
  }

  // ---- The patches to begin with ----

  /** Patch p as the growing phase leaves it: its exact boundary, and no neighbours yet. */
  ghost predicate JustGrown(m: Mesh, patchOf: seq<nat>, patch: Patch, p: nat)
    requires ValidMesh(m)
  {
    && patch.alive && patch.version == 0 && patch.neighbors == []
    && HasKeyOf(m, (set f | 0 <= f < |patchOf| && patchOf[f] == p), patch)
    && ListsBoundary(m, (set f | 0 <= f < |patchOf| && patchOf[f] == p), patch.boundary)
  }

  /** The same with its neighbours linked. */
  ghost predicate StartsAlone(m: Mesh, patchOf: seq<nat>, patch: Patch, p: nat)
    requires ValidMesh(m) && |patchOf| == |m.around|
  {
    && patch.alive && patch.version == 0
    && HasKeyOf(m, (set f | 0 <= f < |patchOf| && patchOf[f] == p), patch)
    && ListsBoundary(m, (set f | 0 <= f < |patchOf| && patchOf[f] == p), patch.boundary)
    && forall q: nat :: q in patch.neighbors <==> Meet(m, patchOf, p, q)
  }

  lemma AloneIsCoherent(m: Mesh, patchOf: seq<nat>, patches: seq<Patch>, root: seq<nat>)
    requires ValidMesh(m) && ValidPatchOf(m, patchOf, |patches|)
    requires |root| == |patches| && forall i :: 0 <= i < |root| ==> root[i] == i
    requires forall p :: 0 <= p < |patches| ==> StartsAlone(m, patchOf, patches[p], p)
    ensures Coherent(m, patchOf, patches, root)
  {
    forall r | 0 <= r < |root| ensures patches[r].alive && RegionExact(m, patchOf, patches, root, r) {
      assert StartsAlone(m, patchOf, patches[r], r);
      assert FacesOf(patchOf, root, r) == set f | 0 <= f < |patchOf| && patchOf[f] == r;
    }
    forall p | 0 <= p < |root| ensures Rooted(m, patchOf, root, p) {
      JoinedToItself(m, patchOf, root, p);
    }
  }

  /** Patches p and q meet along one of the first n halfedges' edges; an edge counts at the lower
      of its two halfedges. */
  ghost predicate MeetBefore(m: Mesh, patchOf: seq<nat>, p: nat, q: nat, n: nat)
    requires ValidMesh(m) && |patchOf| == |m.around| && n <= |m.faceOf|
  {
    p != q &&
    exists h :: 0 <= h < n && h < m.opposite[h] && (Between(m, patchOf, p, q, h) || Between(m, patchOf, q, p, h))
  }

  lemma MeetOneMore(m: Mesh, patchOf: seq<nat>, p: nat, q: nat, h: nat)
    requires ValidMesh(m) && |patchOf| == |m.around| && h < |m.faceOf|
    ensures MeetBefore(m, patchOf, p, q, h + 1) <==>
            MeetBefore(m, patchOf, p, q, h) ||
            (p != q && h < m.opposite[h] && (Between(m, patchOf, p, q, h) || Between(m, patchOf, q, p, h)))
  {
  }

  lemma MeetAll(m: Mesh, patchOf: seq<nat>, p: nat, q: nat)
    requires ValidMesh(m) && |patchOf| == |m.around|
    ensures MeetBefore(m, patchOf, p, q, |m.faceOf|) <==> Meet(m, patchOf, p, q)
  {
    if Meet(m, patchOf, p, q) {
      var h :| 0 <= h < |m.faceOf| && Between(m, patchOf, p, q, h);
      assert Between(m, patchOf, q, p, m.opposite[h]);
    }
    if MeetBefore(m, patchOf, p, q, |m.faceOf|) {
      var h :| 0 <= h < |m.faceOf| && (Between(m, patchOf, p, q, h) || Between(m, patchOf, q, p, h));
      if Between(m, patchOf, q, p, h) {
        assert Between(m, patchOf, p, q, m.opposite[h]);
      }
    }
  }

  ghost function LiveRoots(root: seq<nat>): set<nat> {
    set r | 0 <= r < |root| && root[r] == r
  }

  lemma UnitingDropsOne(root: seq<nat>, a: nat, b: nat)
    requires a < |root| && b < |root| && a != b && root[a] == a && root[b] == b
    ensures |LiveRoots(United(root, a, b))| == |LiveRoots(root)| - 1
  {
    assert LiveRoots(United(root, a, b)) == LiveRoots(root) - {b};
  }

  // ---- Order ----

  /** Lower regions come first, and of equally low ones the one with the smaller face. */
  predicate KeyLess(a: Patch, b: Patch) {
    if a.minZ != b.minZ then a.minZ < b.minZ else a.seed < b.seed
  }

  predicate Ascending(patches: seq<Patch>, ids: seq<nat>)
    requires forall i :: 0 <= i < |ids| ==> ids[i] < |patches|
  {
    forall i, j :: 0 <= i < j < |ids| ==> !KeyLess(patches[ids[j]], patches[ids[i]])
  }

  function Insert(patches: seq<Patch>, x: nat, ids: seq<nat>): (r: seq<nat>)
    requires x < |patches| && (forall i :: 0 <= i < |ids| ==> ids[i] < |patches|) && Ascending(patches, ids)
    ensures forall y :: y in r <==> y == x || y in ids
    ensures |r| == |ids| + 1
    ensures (forall i :: 0 <= i < |r| ==> r[i] < |patches|) && Ascending(patches, r)
  {
    if ids == [] then [x]
    else if KeyLess(patches[ids[0]], patches[x]) then
      var rest := Insert(patches, x, ids[1..]);
      assert forall j :: 0 <= j < |rest| ==> rest[j] in rest;
      assert forall j :: 0 <= j < |ids| - 1 ==> ids[1..][j] == ids[j + 1];
      [ids[0]] + rest
    else [x] + ids
  }

  /** The ids by ascending key. */
  function SortByKey(patches: seq<Patch>, ids: seq<nat>): (r: seq<nat>)
    requires forall i :: 0 <= i < |ids| ==> ids[i] < |patches|
    ensures forall y :: y in r <==> y in ids
    ensures |r| == |ids|
    ensures (forall i :: 0 <= i < |r| ==> r[i] < |patches|) && Ascending(patches, r)
  {
    if ids == [] then [] else Insert(patches, ids[0], SortByKey(patches, ids[1..]))
  }

  /** `ids` without repetitions of an element right after itself. */
  function Unique(ids: seq<nat>): (r: seq<nat>)
    ensures forall y :: y in r <==> y in ids
  {
    if |ids| < 2 then ids
    else if ids[0] == ids[1] then Unique(ids[1..])
    else [ids[0]] + Unique(ids[1..])
  }
}
