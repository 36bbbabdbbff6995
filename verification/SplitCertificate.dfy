// The certificate inside the region split: its verdict on a boundary is a function of the set of
// halfedges, and what a split is with that verdict (libsimulator/src/geometry/projected_boundary.cpp,
// libsimulator/src/geometry/region_split.cpp).
module SplitCertificates {
  import opened Sequences
  import opened Plane
  import opened SurfaceMesh
  import opened Certificate
  import opened RegionMerging
  import opened RegionSplit

  /** Where the vertices are, and from which vertex to which each halfedge goes. */
  datatype Shape = Shape(point: Vertex -> Point, ends: nat -> (Vertex, Vertex))

  function SegmentsAlong(s: Shape, boundary: seq<nat>): seq<Segment> {
    SegmentsOf(s.point, Mapped(s.ends, boundary))
  }

  ghost predicate Lists(list: seq<nat>, boundary: set<nat>) {
    NoDuplicates(list) && forall h :: h in list <==> h in boundary
  }

  /** The boundary projects to simple loops, listed in some order. */
  ghost predicate Simple(s: Shape, boundary: set<nat>) {
    exists list :: Lists(list, boundary) && StrictlySimple(SegmentsAlong(s, list))
  }

  /** The verdict on a listed boundary is that on the set: it does not matter how it is listed. */
  lemma VerdictIsOfSet(s: Shape, boundary: set<nat>, list: seq<nat>)
    requires Lists(list, boundary)
    ensures StrictlySimple(SegmentsAlong(s, list)) <==> Simple(s, boundary)
  {
    if Simple(s, boundary) {
      var other :| Lists(other, boundary) && StrictlySimple(SegmentsAlong(s, other));
      SameSet(other, list);
      MappedPermute(s.ends, other, list);
      VerdictIgnoresOrder(s.point, Mapped(s.ends, other), Mapped(s.ends, list));
    }
  }

  /** The certificate run on the boundary of the faces that `keep` selects. */
  method CertifyFaces(
    m: Mesh, s: Shape, keep: nat -> bool, cell: real, intersects: (Segment, Segment) -> bool) returns (simple: bool)
    requires ValidMesh(m) && cell > 0.0 && Exact(intersects)
    ensures simple <==> Simple(s, BoundaryOf(m, set f | 0 <= f < |m.around| && keep(f)))
  {
    var boundary := RegionBoundary(m, keep);
    VerdictIsOfSet(s, BoundaryOf(m, set f | 0 <= f < |m.around| && keep(f)), boundary);
    simple := IsProjectionStrictlySimple(s.point, Mapped(s.ends, boundary), cell, intersects);
  }

  /** The split is run with the certificate's verdict. */
  ghost predicate IsVerdict(s: Shape, simple: set<nat> -> bool) {
    forall b {:trigger simple(b)} :: simple(b) <==> Simple(s, b)
  }

  ghost predicate AlwaysSimple(s: Shape, boundary: set<nat>) {
    forall list :: Lists(list, boundary) ==> StrictlySimple(SegmentsAlong(s, list))
  }

  ghost predicate NeverSimple(s: Shape, boundary: set<nat>) {
    forall list :: Lists(list, boundary) ==> !StrictlySimple(SegmentsAlong(s, list))
  }

  lemma OneVerdict(s: Shape, boundary: set<nat>)
    ensures if Simple(s, boundary) then AlwaysSimple(s, boundary) else NeverSimple(s, boundary)
  {
    forall list | Lists(list, boundary) ensures StrictlySimple(SegmentsAlong(s, list)) <==> Simple(s, boundary) {
      VerdictIsOfSet(s, boundary, list);
    }
  }

  /** With that verdict, the boundary of every region of more than one patch projects to simple loops,
      however it is listed, and that of two regions that meet does not. */
  lemma RegionsAreSimple(m: Mesh, s: Shape, patchOf: seq<nat>, simple: set<nat> -> bool, root: seq<nat>)
    requires ValidMesh(m) && ValidPatchOf(m, patchOf, |root|) && IsVerdict(s, simple)
    requires IsSplit(m, patchOf, simple, root)
    ensures forall r, p | 0 <= r < |root| && root[r] == r && 0 <= p < |root| && root[p] == r && p != r ::
              AlwaysSimple(s, BoundaryOf(m, FacesOf(patchOf, root, r)))
    ensures forall a, b | 0 <= a < |root| && root[a] == a && 0 <= b < |root| && root[b] == b && a != b &&
                          RegionsMeet(m, patchOf, root, a, b) ::
              NeverSimple(s, BoundaryOf(m, FacesOf(patchOf, root, a) + FacesOf(patchOf, root, b)))
  {
    forall r, p | 0 <= r < |root| && root[r] == r && 0 <= p < |root| && root[p] == r && p != r
      ensures AlwaysSimple(s, BoundaryOf(m, FacesOf(patchOf, root, r)))
    {
      OneVerdict(s, BoundaryOf(m, FacesOf(patchOf, root, r)));
    }
    forall a, b | 0 <= a < |root| && root[a] == a && 0 <= b < |root| && root[b] == b && a != b &&
                  RegionsMeet(m, patchOf, root, a, b)
      ensures NeverSimple(s, BoundaryOf(m, FacesOf(patchOf, root, a) + FacesOf(patchOf, root, b)))
    {
      assert Rejects(m, simple, FacesOf(patchOf, root, a), FacesOf(patchOf, root, b));
      OneVerdict(s, BoundaryOf(m, FacesOf(patchOf, root, a) + FacesOf(patchOf, root, b)));
    }
  }
}
