// What the region split sees of a surface mesh: faces, halfedges and the opposite of a halfedge
// (region_boundary in libsimulator/src/geometry/projected_boundary.cpp).
module SurfaceMesh {
  import opened Sequences
  import opened Wrappers

  /** Halfedge h lies on face `faceOf[h]`, or on none if it is a border halfedge; `around[f]` lists
      the halfedges of face f, and `minZ[f]` is its lowest height. */
  datatype Mesh = Mesh(faceOf: seq<Option<nat>>, opposite: seq<nat>, around: seq<seq<nat>>, minZ: seq<real>)

  ghost predicate ValidMesh(m: Mesh) {
    && |m.opposite| == |m.faceOf| && |m.minZ| == |m.around|
    && (forall h :: 0 <= h < |m.faceOf| ==>
          && m.opposite[h] < |m.faceOf| && m.opposite[h] != h && m.opposite[m.opposite[h]] == h
          && (m.faceOf[h].Some? ==> m.faceOf[h].value < |m.around| && h in m.around[m.faceOf[h].value]))
    && (forall f :: 0 <= f < |m.around| ==>
          && NoDuplicates(m.around[f])
          && forall h :: h in m.around[f] ==> h < |m.faceOf| && m.faceOf[h] == Some(f))
  }

  /** h is a boundary halfedge of a set of faces: it lies on one of them, and across it there is
      the border or a face outside the set. */
  ghost predicate OnBoundary(m: Mesh, faces: set<nat>, h: nat)
    requires ValidMesh(m) && h < |m.faceOf|
  {
    && m.faceOf[h].Some? && m.faceOf[h].value in faces
    && (m.faceOf[m.opposite[h]].None? || m.faceOf[m.opposite[h]].value !in faces)
  }

  ghost function BoundaryOf(m: Mesh, faces: set<nat>): set<nat>
    requires ValidMesh(m)
  {
    set h | 0 <= h < |m.faceOf| && OnBoundary(m, faces, h)
  }

  /** `boundary` lists every boundary halfedge of the faces, each once. */
  ghost predicate ListsBoundary(m: Mesh, faces: set<nat>, boundary: seq<nat>)
    requires ValidMesh(m)
  {
    NoDuplicates(boundary) && forall h :: h in boundary <==> h in BoundaryOf(m, faces)
  }

  /** The boundary halfedges of the faces that `keep` selects. */
  method RegionBoundary(m: Mesh, keep: nat -> bool) returns (boundary: seq<nat>)
    requires ValidMesh(m)
    ensures ListsBoundary(m, (set f | 0 <= f < |m.around| && keep(f)), boundary)
  {
    ghost var faces := set f | 0 <= f < |m.around| && keep(f);
    boundary := [];
    for f := 0 to |m.around|
      invariant NoDuplicates(boundary)
      invariant forall h :: h in boundary ==> h < |m.faceOf| && OnBoundary(m, faces, h) && m.faceOf[h].value < f
      invariant forall h :: 0 <= h < |m.faceOf| && OnBoundary(m, faces, h) && m.faceOf[h].value < f ==> h in boundary
    {
      if keep(f) {
        for k := 0 to |m.around[f]|
          invariant NoDuplicates(boundary)
          invariant forall h :: h in boundary ==>
                      h < |m.faceOf| && OnBoundary(m, faces, h) && (m.faceOf[h].value < f || h in m.around[f][..k])
          invariant forall h ::
                      (0 <= h < |m.faceOf| && OnBoundary(m, faces, h) &&
                        (m.faceOf[h].value < f || h in m.around[f][..k]))
                      ==> h in boundary
        {
          var h := m.around[f][k];
          assert h in m.around[f];
          assert m.around[f][..k + 1] == m.around[f][..k] + [h];
          var opp := m.opposite[h];
          if m.faceOf[opp].None? || !keep(m.faceOf[opp].value) {
            boundary := boundary + [h];
          }
        }
        assert m.around[f][..|m.around[f]|] == m.around[f];
      }
    }
  }

  /** Two disjoint face sets together are bounded by what bounds one of them, minus the halfedges
      that have the other one across. */
  lemma BoundaryOfUnion(m: Mesh, a: set<nat>, b: set<nat>, h: nat)
    requires ValidMesh(m) && a !! b && h < |m.faceOf|
    ensures h in BoundaryOf(m, a + b) <==>
              && (h in BoundaryOf(m, a) || h in BoundaryOf(m, b))
              && (m.faceOf[m.opposite[h]].None? || m.faceOf[m.opposite[h]].value !in a + b)
  {
  }

  lemma BoundariesDisjoint(m: Mesh, a: set<nat>, b: set<nat>)
    requires ValidMesh(m) && a !! b
    ensures BoundaryOf(m, a) !! BoundaryOf(m, b)
  {
  }
}
