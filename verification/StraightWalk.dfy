// The straight walk across the mesh (libsimulator/src/geometry/location.cpp): its two "cannot
// happen" errors cannot happen, and the faces it goes through cover the whole segment.
module StraightWalks {
  import opened Sequences
  import opened Wrappers
  import opened Reals
  import opened Plane
  import opened Rays

  type Vertex = nat
  type Face = nat

  /** A triangulated surface, seen in projection: each face's corners in order, the face across the
      side from each corner to the next, and the faces around each vertex. */
  datatype Mesh = Mesh(
    point: Vertex -> Point, corners: seq<seq<Vertex>>, across: seq<seq<Option<Face>>>, fan: Vertex -> seq<Face>)

  function Succ(i: nat): (j: nat)
    requires i < 3
    ensures j < 3 && j != i
  {
    if i == 2 then 0 else i + 1
  }

  ghost predicate IsFace(m: Mesh, f: Face) {
    && f < |m.corners| == |m.across|
    && |m.corners[f]| == 3 && |m.across[f]| == 3
  }

  function P(m: Mesh, f: Face, i: nat): Point
    requires IsFace(m, f) && i < 3
  {
    m.point(m.corners[f][i])
  }

  /** Side i of f is side j of g, run through the other way. */
  ghost predicate SameSide(m: Mesh, f: Face, i: nat, g: Face, j: nat) {
    && IsFace(m, f) && IsFace(m, g) && i < 3 && j < 3
    && m.corners[g][j] == m.corners[f][Succ(i)] && m.corners[g][Succ(j)] == m.corners[f][i]
  }

  ghost predicate Faces(m: Mesh, f: Face) {
    && IsFace(m, f)
    && Ccw(P(m, f, 0), P(m, f, 1), P(m, f, 2))
    && forall i: nat :: i < 3 && m.across[f][i].Some? ==> exists j: nat :: SameSide(m, f, i, m.across[f][i].value, j)
  }

  /** All faces are counter-clockwise in projection, and meet their neighbours along whole sides. */
  ghost predicate ValidMesh(m: Mesh) {
    && |m.across| == |m.corners|
    && (forall f: Face {:trigger Faces(m, f)} :: f < |m.corners| ==> Faces(m, f))
    && forall v: Vertex, f {:trigger f in m.fan(v)} :: f in m.fan(v) ==> f < |m.corners| && v in m.corners[f]
  }

  ghost predicate FaceInside(m: Mesh, r: Ray, f: Face, t: real) {
    IsFace(m, f) && InsideAt(r, P(m, f, 0), P(m, f, 1), P(m, f, 2), t)
  }

  /** A face's corners from the i-th on are again a counter-clockwise triangle, the same one. */
  lemma FromCorner(m: Mesh, r: Ray, f: Face, i: nat)
    requires Faces(m, f) && i < 3
    ensures var a, b, c := P(m, f, i), P(m, f, Succ(i)), P(m, f, Succ(Succ(i)));
            Ccw(a, b, c) && forall t :: InsideAt(r, a, b, c, t) <==> FaceInside(m, r, f, t)
  {
    var a, b, c := P(m, f, 0), P(m, f, 1), P(m, f, 2);
    forall t ensures Ccw(b, c, a) && Ccw(c, a, b) && (InsideAt(r, b, c, a, t) <==> InsideAt(r, a, b, c, t)) &&
      (InsideAt(r, c, a, b, t) <==> InsideAt(r, a, b, c, t)) {
      Rotated(a, b, c, At(r, t));
    }
    assert Ccw(b, c, a) && Ccw(c, a, b) by {
      Rotated(a, b, c, a);
    }
  }

  // ---- How a face is entered ----

  datatype Entry = AtStart | ThroughCorner(i: nat) | AcrossSide(i: nat)

  /** The ray comes into face f at t, unless it starts there. */
  ghost predicate EntersAt(m: Mesh, r: Ray, f: Face, e: Entry, t: real)
    requires Moves(r) && IsFace(m, f)
  {
    match e
    case AtStart => t == 0.0 && FaceInside(m, r, f, t)
    case ThroughCorner(i) =>
      && i < 3 && Side(r, P(m, f, i)) == 0.0 && t == Param(r, P(m, f, i))
      && Side(r, P(m, f, Succ(i))) <= 0.0 <= Side(r, P(m, f, Succ(Succ(i))))
    case AcrossSide(i) =>
      && i < 3 && Side(r, P(m, f, Succ(i))) < 0.0 < Side(r, P(m, f, i))
      && Offset(r, P(m, f, i), P(m, f, Succ(i)), t) == 0.0
  }

  /** The last vertex passed lies no further along the ray; it is the corner a face was entered
      through. */
  ghost predicate LastPassed(m: Mesh, r: Ray, f: Face, e: Entry, t: real, last: Option<Vertex>)
    requires Moves(r) && IsFace(m, f)
  {
    && (e.AtStart? ==> last.None?)
    && (e.ThroughCorner? ==> e.i < 3 && last == Some(m.corners[f][e.i]))
    && (last.Some? ==> Side(r, m.point(last.value)) == 0.0 && Param(r, m.point(last.value)) <= t)
  }

  ghost predicate Walking(m: Mesh, r: Ray, f: Face, e: Entry, t: real, last: Option<Vertex>) {
    && Moves(r) && f < |m.corners| && Faces(m, f)
    && 0.0 <= t <= 1.0
    && EntersAt(m, r, f, e, t) && LastPassed(m, r, f, e, t, last)
  }

  lemma InsideOnEntry(m: Mesh, r: Ray, f: Face, e: Entry, t: real, last: Option<Vertex>)
    requires Walking(m, r, f, e, t, last)
    ensures FaceInside(m, r, f, t)
  {
    if !e.AtStart? {
      FromCorner(m, r, f, e.i);
      var a, b, c := P(m, f, e.i), P(m, f, Succ(e.i)), P(m, f, Succ(Succ(e.i)));
      if e.ThroughCorner? {
        AtCorner(r, a, b, c);
      } else {
        CrossingInside(r, a, b, c, t);
      }
    }
  }

  /** Before it enters a face, the ray is outside: so no face is entered a second time. */
  lemma OutsideBeforeEntry(m: Mesh, r: Ray, f: Face, e: Entry, t: real, last: Option<Vertex>, s: real)
    requires Walking(m, r, f, e, t, last) && !e.AtStart? && s < t
    ensures !FaceInside(m, r, f, s)
  {
    FromCorner(m, r, f, e.i);
    var a, b, c := P(m, f, e.i), P(m, f, Succ(e.i)), P(m, f, Succ(Succ(e.i)));
    if e.ThroughCorner? {
      OutsideBeforeCorner(r, a, b, c, s);
    } else {
      OutsideBeforeSide(r, a, b, c, t, s);
    }
  }

  // ---- How a face is left ----

  /** The vertex test: corner i lies ahead on the ray and is not the last one passed. */
  ghost predicate CornerAhead(m: Mesh, r: Ray, f: Face, last: Option<Vertex>, i: nat) {
    && IsFace(m, f) && i < 3
    && Some(m.corners[f][i]) != last
    && Side(r, P(m, f, i)) == 0.0
    && Dot(Minus(P(m, f, i), r.origin), r.direction) >= 0.0
  }

  ghost predicate ExitSide(m: Mesh, r: Ray, f: Face, i: nat) {
    IsFace(m, f) && i < 3 && RightToLeft(r, P(m, f, i), P(m, f, Succ(i)))
  }

  /** The ray leaves f at u, further along than it came in and before its target. */
  ghost predicate LeavesAt(m: Mesh, r: Ray, f: Face, e: Entry, t: real, u: real) {
    t <= u < 1.0 && (!e.AtStart? ==> t < u) && FaceInside(m, r, f, u)
  }

  lemma BeforeTarget(m: Mesh, r: Ray, f: Face, t: real, u: real)
    requires IsFace(m, f) && t <= 1.0 && FaceInside(m, r, f, t) && FaceInside(m, r, f, u) && !FaceInside(m, r, f, 1.0)
    ensures u < 1.0
  {
    if u >= 1.0 {
      InsideBetween(r, P(m, f, 0), P(m, f, 1), P(m, f, 2), t, 1.0, u);
    }
  }

  /** A vertex hit is progress. */
  lemma CornerIsProgress(m: Mesh, r: Ray, f: Face, e: Entry, t: real, last: Option<Vertex>, i: nat)
    requires Walking(m, r, f, e, t, last) && !FaceInside(m, r, f, 1.0) && CornerAhead(m, r, f, last, i)
    ensures LeavesAt(m, r, f, e, t, Param(r, P(m, f, i)))
  {
    var u := Param(r, P(m, f, i));
    ParamReaches(r, P(m, f, i));
    FromCorner(m, r, f, i);
    AtCorner(r, P(m, f, i), P(m, f, Succ(i)), P(m, f, Succ(Succ(i))));
    InsideOnEntry(m, r, f, e, t, last);
    BeforeTarget(m, r, f, t, u);
    if !e.AtStart? {
      FromCorner(m, r, f, e.i);
      var a, b, c := P(m, f, e.i), P(m, f, Succ(e.i)), P(m, f, Succ(Succ(e.i)));
      if e.ThroughCorner? {
        OutAfterCorner(r, a, b, c);
      } else {
        OutAfterSide(r, a, b, c, t);
      }
    }
  }

  /** So is an edge crossed. */
  lemma SideIsProgress(m: Mesh, r: Ray, f: Face, e: Entry, t: real, last: Option<Vertex>, i: nat)
    requires Walking(m, r, f, e, t, last) && !FaceInside(m, r, f, 1.0) && ExitSide(m, r, f, i)
    ensures LeavesAt(m, r, f, e, t, Crossing(r, P(m, f, i), P(m, f, Succ(i))))
  {
    var p, q, o := P(m, f, i), P(m, f, Succ(i)), P(m, f, Succ(Succ(i)));
    var u := Crossing(r, p, q);
    FromCorner(m, r, f, i);
    CrossingReaches(r, p, q);
    CrossingInside(r, p, q, o, u);
    InsideOnEntry(m, r, f, e, t, last);
    BeforeTarget(m, r, f, t, u);
    if e.AtStart? {
      CrossingAhead(r, p, q, o, 0.0);
    } else {
      FromCorner(m, r, f, e.i);
      var a, b, c := P(m, f, e.i), P(m, f, Succ(e.i)), P(m, f, Succ(Succ(e.i)));
      if e.ThroughCorner? {
        OutAfterCorner(r, a, b, c);
      } else {
        OutAfterSide(r, a, b, c, t);
      }
    }
  }

  lemma AheadOfLast(m: Mesh, r: Ray, f: Face, e: Entry, t: real, last: Option<Vertex>, i: nat)
    requires Walking(m, r, f, e, t, last) && i < 3
    requires Side(r, P(m, f, i)) == 0.0 && Param(r, P(m, f, i)) > t
    ensures CornerAhead(m, r, f, last, i)
  {
    ParamReaches(r, P(m, f, i));
  }

  /** A triangle has at most one side from right to left, so it does not matter which one is found
      first. */
  lemma OneExit(m: Mesh, r: Ray, f: Face, i: nat, j: nat)
    requires IsFace(m, f) && ExitSide(m, r, f, i) && ExitSide(m, r, f, j)
    ensures i == j
  {
  }

  /** Exactly one forward exit exists: the first error cannot happen. */
  lemma ExitExists(m: Mesh, r: Ray, f: Face, e: Entry, t: real, last: Option<Vertex>)
    requires Walking(m, r, f, e, t, last)
    requires forall i: nat :: i < 3 ==> !CornerAhead(m, r, f, last, i)
    ensures exists i: nat :: ExitSide(m, r, f, i)
    ensures forall i: nat, j: nat :: ExitSide(m, r, f, i) && ExitSide(m, r, f, j) ==> i == j
  {
    forall i: nat, j: nat | ExitSide(m, r, f, i) && ExitSide(m, r, f, j) ensures i == j {
      OneExit(m, r, f, i, j);
    }

    if e.AtStart? {
      forall i: nat | i < 3 ensures Behind(r, P(m, f, i)) {
        assert !CornerAhead(m, r, f, last, i);
        if Side(r, P(m, f, i)) == 0.0 {
          ParamReaches(r, P(m, f, i));
        }
      }
      OutOfStart(r, P(m, f, 0), P(m, f, 1), P(m, f, 2));
      assert ExitSide(m, r, f, 0) || ExitSide(m, r, f, 1) || ExitSide(m, r, f, 2);
    } else {
      var j := Succ(e.i);
      var k := Succ(j);
      FromCorner(m, r, f, e.i);
      var a, b, c := P(m, f, e.i), P(m, f, j), P(m, f, k);
      if e.ThroughCorner? {
        OutAfterCorner(r, a, b, c);
        if Side(r, b) == 0.0 {
          AheadOfLast(m, r, f, e, t, last, j);
        } else if Side(r, c) == 0.0 {
          AheadOfLast(m, r, f, e, t, last, k);
        } else {
          assert ExitSide(m, r, f, j);
        }
      } else {
        OutAfterSide(r, a, b, c, t);
        if Side(r, c) == 0.0 {
          AheadOfLast(m, r, f, e, t, last, k);
        } else {
          assert ExitSide(m, r, f, j) || ExitSide(m, r, f, k);
        }
      }
    }
  }

  // ---- Into the next face ----

  function CornerOf(m: Mesh, f: Face, v: Vertex): (i: nat)
    requires IsFace(m, f) && v in m.corners[f]
    ensures i < 3 && m.corners[f][i] == v
  {
    if m.corners[f][0] == v then 0 else if m.corners[f][1] == v then 1 else 2
  }

  /** The direction points into the corner that f has at v: not right of its two sides there. */
  predicate InSector(m: Mesh, f: Face, v: Vertex, direction: Point)
    requires IsFace(m, f) && v in m.corners[f]
  {
    var i := CornerOf(m, f, v);
    var p, x := m.point(v), Along(m.point(v), direction, 1.0);
    Orient(p, P(m, f, Succ(i)), x) >= 0.0 && Orient(P(m, f, Succ(Succ(i))), p, x) >= 0.0
  }

  lemma SectorIff(p: Point, x: Point, y: Point, d: Point)
    requires Ccw(p, x, y)
    ensures Orient(p, x, Along(p, d, 1.0)) >= 0.0 && Orient(y, p, Along(p, d, 1.0)) >= 0.0 <==>
              exists s: real :: s > 0.0 && Inside(p, x, y, Along(p, d, s))
  {
    InsideAlong(p, x, y, d, 1.0);
    forall s: real | s > 0.0 && Inside(p, x, y, Along(p, d, s))
      ensures Orient(p, x, Along(p, d, 1.0)) >= 0.0 && Orient(y, p, Along(p, d, 1.0)) >= 0.0
    {
      InsideAlong(p, x, y, d, s);
    }
    var s := NearEnough(Orient(p, x, y), Cross(Minus(y, x), d));
    InsideAlong(p, x, y, d, s);
  }

  lemma InsideAlong(p: Point, x: Point, y: Point, d: Point, s: real)
    requires s > 0.0
    ensures Inside(p, x, y, Along(p, d, s)) <==>
              && Cross(Minus(x, p), d) >= 0.0 && Cross(Minus(p, y), d) >= 0.0
              && Orient(p, x, y) + Scale(s, Cross(Minus(y, x), d)) >= 0.0
    ensures Orient(p, x, Along(p, d, s)) >= 0.0 <==> Cross(Minus(x, p), d) >= 0.0
    ensures Orient(y, p, Along(p, d, s)) >= 0.0 <==> Cross(Minus(p, y), d) >= 0.0
  {
    OffsetAlong(p, x, p, d, s);
    OffsetAlong(y, p, p, d, s);
    OffsetAlong(x, y, p, d, s);
    NotNegative(s, Cross(Minus(x, p), d));
    NotNegative(s, Cross(Minus(p, y), d));
    assert Orient(p, x, p) == 0.0 && Orient(y, p, p) == 0.0 && Orient(x, y, p) == Orient(p, x, y);
  }

  lemma NotNegative(s: real, x: real)
    requires s > 0.0
    ensures Scale(s, x) >= 0.0 <==> x >= 0.0
  {
    Signs(s, x);
  }

  /** A change at any rate is harmless for some time. */
  lemma NearEnough(area: real, rate: real) returns (s: real)
    requires area > 0.0
    ensures s > 0.0 && area + Scale(s, rate) >= 0.0
  {
    if rate >= 0.0 {
      s := 1.0;
      NotNegative(s, rate);
    } else {
      s := area / -rate;
      QuotientTimes(area, -rate);
      Signs(-rate, s);
      assert Scale(s, rate) == -Scale(-rate, s);
    }
  }

  lemma OffsetAlong(x: Point, y: Point, p: Point, d: Point, s: real)
    ensures Orient(x, y, Along(p, d, s)) == Orient(x, y, p) + Scale(s, Cross(Minus(y, x), d))
  {
    assert Orient(x, y, Along(p, d, s)) ==
           Orient(x, y, p) + ((y.0 - x.0) * Scale(s, d.1) - (y.1 - x.1) * Scale(s, d.0));
    assert (y.0 - x.0) * Scale(s, d.1) == Scale(s, (y.0 - x.0) * d.1);
    assert (y.1 - x.1) * Scale(s, d.0) == Scale(s, (y.1 - x.1) * d.0);
    assert Scale(s, Cross(Minus(y, x), d)) == Scale(s, (y.0 - x.0) * d.1) - Scale(s, (y.1 - x.1) * d.0);
  }

  /** It does so exactly if a way from v in that direction, however short, begins on the face. */
  lemma InSectorIff(m: Mesh, f: Face, v: Vertex, direction: Point)
    requires Faces(m, f) && v in m.corners[f]
    ensures InSector(m, f, v, direction) <==> exists s: real :: s > 0.0 && Covers(m, f, Along(m.point(v), direction, s))
  {
    var i := CornerOf(m, f, v);
    var x, y := P(m, f, Succ(i)), P(m, f, Succ(Succ(i)));
    SectorIff(m.point(v), x, y, direction);
    forall s: real
      ensures Covers(m, f, Along(m.point(v), direction, s)) <==>
                Inside(m.point(v), x, y, Along(m.point(v), direction, s))
    {
    }
  }

  ghost predicate NoneInSector(m: Mesh, v: Vertex, direction: Point)
    requires ValidMesh(m)
  {
    forall f :: f in m.fan(v) ==> IsFaceOf(m, f, v) && !InSector(m, f, v, direction)
  }

  ghost predicate IsFaceOf(m: Mesh, f: Face, v: Vertex) {
    IsFace(m, f) && v in m.corners[f]
  }

  lemma FanFaces(m: Mesh, v: Vertex, f: Face)
    requires ValidMesh(m) && f in m.fan(v)
    ensures f < |m.corners| && IsFaceOf(m, f, v) && Faces(m, f)
  {
    assert Faces(m, f);
  }

  /** The first face around v whose corner there holds the direction. */
  method FanFace(m: Mesh, v: Vertex, direction: Point) returns (g: Option<Face>)
    requires ValidMesh(m)
    ensures match g
            case Some(f) => f in m.fan(v) && IsFaceOf(m, f, v) && InSector(m, f, v, direction)
            case None => NoneInSector(m, v, direction)
  {
    var faces := m.fan(v);
    for k := 0 to |faces|
      invariant forall l :: 0 <= l < k ==> IsFaceOf(m, faces[l], v) && !InSector(m, faces[l], v, direction)
    {
      FanFaces(m, v, faces[k]);
      if InSector(m, faces[k], v, direction) {
        return Some(faces[k]);
      }
    }
    g := None;
  }

  lemma SectorSides(r: Ray, p: Point, n: Point, q: Point)
    requires Side(r, p) == 0.0
    ensures Orient(p, n, Along(p, r.direction, 1.0)) == -Side(r, n)
    ensures Orient(q, p, Along(p, r.direction, 1.0)) == Side(r, q)
  {
    SideIsCross(r, p);
    SideIsCross(r, n);
    SideIsCross(r, q);
  }

  lemma ThroughVertex(m: Mesh, r: Ray, v: Vertex, g: Face)
    requires ValidMesh(m) && Moves(r) && g in m.fan(v) && IsFaceOf(m, g, v) && InSector(m, g, v, r.direction)
    requires Side(r, m.point(v)) == 0.0 && 0.0 <= Param(r, m.point(v)) <= 1.0
    ensures Walking(m, r, g, ThroughCorner(CornerOf(m, g, v)), Param(r, m.point(v)), Some(v))
  {
    FanFaces(m, v, g);
    var i := CornerOf(m, g, v);
    SectorSides(r, m.point(v), P(m, g, Succ(i)), P(m, g, Succ(Succ(i))));
  }

  lemma AcrossEdge(m: Mesh, r: Ray, f: Face, i: nat, last: Option<Vertex>, t: real) returns (j: nat)
    requires ValidMesh(m) && Moves(r) && f < |m.corners| && ExitSide(m, r, f, i) && m.across[f][i].Some?
    requires last.Some? ==> Side(r, m.point(last.value)) == 0.0 && Param(r, m.point(last.value)) <= t
    requires var u := Crossing(r, P(m, f, i), P(m, f, Succ(i))); 0.0 <= u <= 1.0 && t <= u
    ensures var u, g := Crossing(r, P(m, f, i), P(m, f, Succ(i))), m.across[f][i].value;
            SameSide(m, f, i, g, j) && Walking(m, r, g, AcrossSide(j), u, last)
  {
    assert Faces(m, f);
    var u, g := Crossing(r, P(m, f, i), P(m, f, Succ(i))), m.across[f][i].value;
    j :| SameSide(m, f, i, g, j);
    assert Faces(m, g);
    CrossingReaches(r, P(m, f, i), P(m, f, Succ(i)));
    OppositeOffset(r, P(m, f, i), P(m, f, Succ(i)), u);
  }

  // ---- The faces walked through ----

  /** A face, and how far along the ray the walk came into it. */
  datatype Leg = Leg(face: Face, enter: real)

  /** Where the walk goes from one face to the next, both contain the ray's point, and it is on a
      side they share or a corner they share. */
  ghost predicate Linked(m: Mesh, r: Ray, a: Leg, b: Leg) {
    && a.enter <= b.enter
    && FaceInside(m, r, a.face, b.enter) && FaceInside(m, r, b.face, b.enter)
    && ((exists i: nat, j: nat ::
           SameSide(m, a.face, i, b.face, j) && Offset(r, P(m, a.face, i), P(m, a.face, Succ(i)), b.enter) == 0.0)
        || exists v :: v in m.corners[a.face] && v in m.corners[b.face] && At(r, b.enter) == m.point(v))
  }

  ghost predicate Trail(m: Mesh, r: Ray, start: Face, trail: seq<Leg>) {
    if |trail| <= 1 then
      trail == [Leg(start, 0.0)] && FaceInside(m, r, start, 0.0)
    else
      var n := |trail| - 1;
      Trail(m, r, start, trail[..n]) && Linked(m, r, trail[n - 1], trail[n])
  }

  ghost predicate CoveredAt(m: Mesh, r: Ray, trail: seq<Leg>, t: real) {
    exists k :: 0 <= k < |trail| && FaceInside(m, r, trail[k].face, t)
  }

  lemma ExtendTrail(m: Mesh, r: Ray, start: Face, trail: seq<Leg>, leg: Leg)
    requires Trail(m, r, start, trail) && trail != [] && Linked(m, r, trail[|trail| - 1], leg)
    ensures Trail(m, r, start, trail + [leg])
  {
    assert (trail + [leg])[..|trail|] == trail;
  }

  /** Together the faces contain everything the walk has passed. */
  lemma {:induction false} TrailCovers(m: Mesh, r: Ray, start: Face, trail: seq<Leg>, end: real, t: real)
    requires Trail(m, r, start, trail)
    requires var last := trail[|trail| - 1];
             last.enter <= end && FaceInside(m, r, last.face, last.enter) && FaceInside(m, r, last.face, end)
    requires 0.0 <= t <= end
    ensures CoveredAt(m, r, trail, t)
  {
    var n := |trail| - 1;
    var last := trail[n];
    if t >= last.enter {
      InsideBetween(r, P(m, last.face, 0), P(m, last.face, 1), P(m, last.face, 2), last.enter, t, end);
    } else {
      var front := trail[..n];
      LegInside(m, r, start, front);
      TrailCovers(m, r, start, front, last.enter, t);
      var k :| 0 <= k < |front| && FaceInside(m, r, front[k].face, t);
      assert FaceInside(m, r, trail[k].face, t);
    }
  }

  lemma LegInside(m: Mesh, r: Ray, start: Face, trail: seq<Leg>)
    requires Trail(m, r, start, trail)
    ensures trail != [] && FaceInside(m, r, trail[|trail| - 1].face, trail[|trail| - 1].enter)
  {
  }

  // ---- The walk ----

  datatype Walk =
    | Arrived(face: Face)
    | LeftArea
    | NoForwardExit
    | NotConverged

  datatype Next =
    | Done
    | Off
    | Stuck
    | Onward(face: Face, last: Option<Vertex>)

  predicate Covers(m: Mesh, f: Face, q: Point)
    requires IsFace(m, f)
  {
    Inside(P(m, f, 0), P(m, f, 1), P(m, f, 2), q)
  }

  method FindCorner(m: Mesh, r: Ray, f: Face, last: Option<Vertex>) returns (i: Option<nat>)
    requires IsFace(m, f)
    ensures match i
            case Some(c) => CornerAhead(m, r, f, last, c)
            case None => forall c: nat :: c < 3 ==> !CornerAhead(m, r, f, last, c)
  {
    for c: nat := 0 to 3
      invariant forall b: nat :: b < c ==> !CornerAhead(m, r, f, last, b)
    {
      if Some(m.corners[f][c]) != last {
        var p := P(m, f, c);
        if Side(r, p) == 0.0 && Dot(Minus(p, r.origin), r.direction) >= 0.0 {
          return Some(c);
        }
      }
    }
    i := None;
  }

  method FindExit(m: Mesh, r: Ray, f: Face) returns (i: Option<nat>)
    requires IsFace(m, f)
    ensures match i
            case Some(s) => ExitSide(m, r, f, s)
            case None => forall s: nat :: !ExitSide(m, r, f, s)
  {
    for s: nat := 0 to 3
      invariant forall b: nat :: b < s ==> !ExitSide(m, r, f, b)
    {
      if RightToLeft(r, P(m, f, s), P(m, f, Succ(s))) {
        return Some(s);
      }
    }
    i := None;
  }

  /** The ray leaves the area at u: through a border side of f, or through a corner around which no
      face holds its direction. */
  ghost predicate LeavesArea(m: Mesh, r: Ray, f: Face, u: real)
    requires ValidMesh(m)
  {
    && FaceInside(m, r, f, u)
    && ((exists i: nat ::
           ExitSide(m, r, f, i) && m.across[f][i].None? && Offset(r, P(m, f, i), P(m, f, Succ(i)), u) == 0.0)
        || exists v :: v in m.corners[f] && At(r, u) == m.point(v) && NoneInSector(m, v, r.direction))
  }

  /** What one step of the walk achieves. */
  ghost predicate Steps(m: Mesh, r: Ray, f: Face, e: Entry, t: real, next: Next, e': Entry, u: real)
    requires ValidMesh(m)
  {
    match next
    case Done => FaceInside(m, r, f, 1.0)
    case Off => Moves(r) && t <= u < 1.0 && LeavesArea(m, r, f, u)
    case Stuck => false
    case Onward(g, last) =>
      && Moves(r) && !e'.AtStart? && LeavesAt(m, r, f, e, t, u)
      && Walking(m, r, g, e', u, last) && Linked(m, r, Leg(f, t), Leg(g, u))
  }

  /** Through the corner i of f. */
  method StepThroughCorner(m: Mesh, r: Ray, f: Face, ghost e: Entry, ghost t: real, last: Option<Vertex>, i: nat)
    returns (next: Next, ghost e': Entry, ghost u: real)
    requires ValidMesh(m) && Walking(m, r, f, e, t, last) && !FaceInside(m, r, f, 1.0) && CornerAhead(m, r, f, last, i)
    ensures !next.Stuck? && (next.Done? ==> FaceInside(m, r, f, 1.0))
    ensures Steps(m, r, f, e, t, next, e', u)
  {
    var v := m.corners[f][i];
    u, e' := Param(r, m.point(v)), AtStart;
    CornerIsProgress(m, r, f, e, t, last, i);
    ParamReaches(r, m.point(v));
    var g := FanFace(m, v, r.direction);
    if g.None? {
      return Off, e', u;
    }
    ThroughVertex(m, r, v, g.value);
    e' := ThroughCorner(CornerOf(m, g.value, v));
    next := Onward(g.value, Some(v));
    InsideOnEntry(m, r, g.value, e', u, Some(v));
  }

  /** Across the side i of f. */
  method StepAcrossSide(m: Mesh, r: Ray, f: Face, ghost e: Entry, ghost t: real, last: Option<Vertex>, i: nat)
    returns (next: Next, ghost e': Entry, ghost u: real)
    requires ValidMesh(m) && Walking(m, r, f, e, t, last) && !FaceInside(m, r, f, 1.0) && ExitSide(m, r, f, i)
    ensures !next.Stuck? && (next.Done? ==> FaceInside(m, r, f, 1.0))
    ensures Steps(m, r, f, e, t, next, e', u)
  {
    u, e' := Crossing(r, P(m, f, i), P(m, f, Succ(i))), AtStart;
    SideIsProgress(m, r, f, e, t, last, i);
    CrossingReaches(r, P(m, f, i), P(m, f, Succ(i)));
    var neighbor := m.across[f][i];
    if neighbor.None? {
      return Off, e', u;
    }
    ghost var j := AcrossEdge(m, r, f, i, last, t);
    e' := AcrossSide(j);
    next := Onward(neighbor.value, last);
    InsideOnEntry(m, r, neighbor.value, e', u, last);
  }

  /** One step: a vertex hit is looked for first, then an edge crossed. */
  method Step(m: Mesh, r: Ray, f: Face, ghost e: Entry, ghost t: real, last: Option<Vertex>)
    returns (next: Next, ghost e': Entry, ghost u: real)
    requires ValidMesh(m) && f < |m.corners| && IsFace(m, f)
    requires Moves(r) ==> Walking(m, r, f, e, t, last)
    requires !Moves(r) ==> FaceInside(m, r, f, 1.0)
    ensures !next.Stuck? && (next.Done? ==> FaceInside(m, r, f, 1.0))
    ensures Steps(m, r, f, e, t, next, e', u)
  {
    e', u := AtStart, t;
    if Covers(m, f, At(r, 1.0)) {
      return Done, e', u;
    }
    var corner := FindCorner(m, r, f, last);
    if corner.Some? {
      next, e', u := StepThroughCorner(m, r, f, e, t, last, corner.value);
      return;
    }
    var exit := FindExit(m, r, f);
    ExitExists(m, r, f, e, t, last);
    if exit.None? {
      return Stuck, e', u;
    }
    next, e', u := StepAcrossSide(m, r, f, e, t, last, exit.value);
  }

  // ---- Convergence ----

  ghost predicate BeenInside(m: Mesh, r: Ray, g: Face, t: real) {
    exists s :: s < t && FaceInside(m, r, g, s)
  }

  /** The faces left behind since the start, one for each step after the first. The face the walk
      starts in is not among them: from a start on a vertex it may be entered once more. */
  ghost predicate LeftBehind(m: Mesh, r: Ray, visited: set<Face>, e: Entry, t: real, step: nat) {
    && (forall g {:trigger g in visited} :: g in visited ==> g < |m.corners| && BeenInside(m, r, g, t))
    && if e.AtStart? then visited == {} && step == 0 else step == |visited| + 1
  }

  /** No face is entered twice, so there are no more steps than faces: the second error cannot
      happen. */
  lemma StepsBounded(m: Mesh, r: Ray, f: Face, e: Entry, t: real, last: Option<Vertex>, visited: set<Face>, step: nat)
    requires Walking(m, r, f, e, t, last) && LeftBehind(m, r, visited, e, t, step)
    ensures step <= |m.corners|
  {
    if !e.AtStart? {
      if f in visited {
        var s :| s < t && FaceInside(m, r, f, s);
        OutsideBeforeEntry(m, r, f, e, t, last, s);
      }
      BoundedSet(visited + {f}, |m.corners|);
    }
  }

  function Leaving(visited: set<Face>, e: Entry, f: Face): set<Face> {
    if e.AtStart? then visited else visited + {f}
  }

  lemma OneMoreBehind(
    m: Mesh, r: Ray, f: Face, e: Entry, t: real, last: Option<Vertex>, visited: set<Face>, step: nat, e': Entry,
    u: real)
    requires Walking(m, r, f, e, t, last) && LeftBehind(m, r, visited, e, t, step)
    requires !e'.AtStart? && LeavesAt(m, r, f, e, t, u)
    ensures LeftBehind(m, r, Leaving(visited, e, f), e', u, step + 1)
  {
    InsideOnEntry(m, r, f, e, t, last);
    if !e.AtStart? {
      if f in visited {
        var s :| s < t && FaceInside(m, r, f, s);
        OutsideBeforeEntry(m, r, f, e, t, last, s);
      }
      forall g | g in visited + {f} ensures g < |m.corners| && BeenInside(m, r, g, u) {
        if g in visited {
          var s :| s < t && FaceInside(m, r, g, s);
        }
      }
    }
  }

  /** The state of the walk: in face f, come into at t, at the end of the trail. */
  ghost predicate UnderWay(
    m: Mesh, r: Ray, start: Face, f: Face, last: Option<Vertex>, e: Entry, t: real, trail: seq<Leg>,
    visited: set<Face>, step: nat)
  {
    && f < |m.corners| && IsFace(m, f)
    && Trail(m, r, start, trail) && trail[|trail| - 1] == Leg(f, t)
    && (Moves(r) ==> Walking(m, r, f, e, t, last) && LeftBehind(m, r, visited, e, t, step))
    && (!Moves(r) ==> step == 0 && t == 0.0 && FaceInside(m, r, f, 1.0))
  }

  /** How it ends: the faces of the trail cover the ray up to `end`; there the walk is at its target
      or leaves the area. */
  ghost predicate Ended(m: Mesh, r: Ray, start: Face, trail: seq<Leg>, walk: Walk, end: real)
    requires ValidMesh(m)
  {
    && Trail(m, r, start, trail)
    && (forall t :: 0.0 <= t <= end ==> CoveredAt(m, r, trail, t))
    && match walk
       case Arrived(f) => end == 1.0 && f == trail[|trail| - 1].face && FaceInside(m, r, f, 1.0)
       case LeftArea => 0.0 <= end < 1.0 && LeavesArea(m, r, trail[|trail| - 1].face, end)
       case NoForwardExit => false
       case NotConverged => false
  }

  lemma StartsUnderWay(m: Mesh, r: Ray, start: Face)
    requires ValidMesh(m) && start < |m.corners| && IsFace(m, start) && Covers(m, start, r.origin)
    ensures UnderWay(m, r, start, start, None, AtStart, 0.0, [Leg(start, 0.0)], {}, 0)
  {
    assert Faces(m, start);
    assert At(r, 0.0) == r.origin;
    if !Moves(r) {
      StandsStill(r);
    }
  }

  lemma StandsStill(r: Ray)
    requires !Moves(r)
    ensures At(r, 1.0) == At(r, 0.0)
  {
    Signs(r.direction.0, r.direction.0);
    Signs(r.direction.1, r.direction.1);
    assert Dot(r.direction, r.direction) == Scale(r.direction.0, r.direction.0) + Scale(r.direction.1, r.direction.1);
    Signs(1.0, r.direction.0);
    Signs(1.0, r.direction.1);
  }

  lemma EndsHere(
    m: Mesh, r: Ray, start: Face, f: Face, last: Option<Vertex>, e: Entry, t: real, trail: seq<Leg>,
    visited: set<Face>, step: nat, walk: Walk, end: real)
    requires ValidMesh(m) && UnderWay(m, r, start, f, last, e, t, trail, visited, step)
    requires match walk
             case Arrived(g) => g == f && end == 1.0 && FaceInside(m, r, f, 1.0)
             case LeftArea => Moves(r) && t <= end < 1.0 && LeavesArea(m, r, f, end)
             case NoForwardExit => false
             case NotConverged => false
    ensures Ended(m, r, start, trail, walk, end)
  {
    LegInside(m, r, start, trail);
    forall s | 0.0 <= s <= end ensures CoveredAt(m, r, trail, s) {
      TrailCovers(m, r, start, trail, end, s);
    }
  }

  lemma GoesOnward(
    m: Mesh, r: Ray, start: Face, f: Face, last: Option<Vertex>, e: Entry, t: real, trail: seq<Leg>,
    visited: set<Face>, step: nat, g: Face, last': Option<Vertex>, e': Entry, u: real)
    requires ValidMesh(m) && UnderWay(m, r, start, f, last, e, t, trail, visited, step)
    requires Moves(r) && !e'.AtStart? && Steps(m, r, f, e, t, Onward(g, last'), e', u)
    ensures UnderWay(m, r, start, g, last', e', u, trail + [Leg(g, u)], Leaving(visited, e, f), step + 1)
    ensures step + 1 <= |m.corners|
  {
    OneMoreBehind(m, r, f, e, t, last, visited, step, e', u);
    StepsBounded(m, r, g, e', u, last', Leaving(visited, e, f), step + 1);
    ExtendTrail(m, r, start, trail, Leg(g, u));
  }

  /** Walk from the ray's origin, in face `start`, to its target. */
  method StraightWalk(m: Mesh, start: Face, r: Ray) returns (walk: Walk, ghost trail: seq<Leg>, ghost end: real)
    requires ValidMesh(m) && start < |m.corners| && IsFace(m, start) && Covers(m, start, r.origin)
    ensures walk.Arrived? || walk.LeftArea?
    ensures walk.Arrived? ==> FaceInside(m, r, walk.face, 1.0)
    ensures Ended(m, r, start, trail, walk, end)
  {
    var f, last, step := start, None, 0;
    var maxSteps := |m.corners| + 2;
    var result: Option<Walk> := None;
    ghost var e, t, visited: set<Face> := AtStart, 0.0, {};
    trail, end := [Leg(start, 0.0)], 0.0;
    StartsUnderWay(m, r, start);
    while step < maxSteps && result.None?
      invariant result.None? ==> UnderWay(m, r, start, f, last, e, t, trail, visited, step) && step <= |m.corners|
      invariant result.Some? ==> Ended(m, r, start, trail, result.value, end)
      decreases maxSteps - step, result.None?
    {
      var next;
      ghost var e', u;
      next, e', u := Step(m, r, f, e, t, last);
      match next
      case Done =>
        end := 1.0;
        EndsHere(m, r, start, f, last, e, t, trail, visited, step, Arrived(f), end);
        result := Some(Arrived(f));
      case Off =>
        end := u;
        EndsHere(m, r, start, f, last, e, t, trail, visited, step, LeftArea, end);
        result := Some(LeftArea);
      case Stuck =>
        result := Some(NoForwardExit);
      case Onward(g, passed) =>
        GoesOnward(m, r, start, f, last, e, t, trail, visited, step, g, passed, e', u);
        visited := Leaving(visited, e, f);
        trail := trail + [Leg(g, u)];
        f, last, e, t, step := g, passed, e', u, step + 1;
    }
    walk := if result.Some? then result.value else NotConverged;
  }
}
