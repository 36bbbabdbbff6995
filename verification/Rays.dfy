// A ray and the triangles it passes: the exact predicates of the straight walk
// (libsimulator/src/geometry/location.cpp), reduced to signs along the ray.
module Rays {
  import opened Reals
  import opened Plane

  datatype Ray = Ray(origin: Point, direction: Point)

  /** The point that the ray reaches at t; its target is reached at 1. */
  function At(r: Ray, t: real): Point {
    Along(r.origin, r.direction, t)
  }

  /** On which side of the ray p lies: positive is left. */
  function Side(r: Ray, p: Point): real {
    Orient(r.origin, At(r, 1.0), p)
  }

  /** On which side of the line from p to q the ray is at t. */
  function Offset(r: Ray, p: Point, q: Point, t: real): real {
    Orient(p, q, At(r, t))
  }

  /** q lies in the triangle, possibly on its border. */
  predicate Inside(a: Point, b: Point, c: Point, q: Point) {
    Orient(a, b, q) >= 0.0 && Orient(b, c, q) >= 0.0 && Orient(c, a, q) >= 0.0
  }

  // ---- Identities ----

  lemma SideIsCross(r: Ray, p: Point)
    ensures Side(r, p) == Cross(r.direction, Minus(p, r.origin))
  {
    assert Scale(1.0, r.direction.0) == r.direction.0 && Scale(1.0, r.direction.1) == r.direction.1;
  }

  lemma OffsetsSum(a: Point, b: Point, c: Point, q: Point)
    ensures Orient(a, b, q) + Orient(b, c, q) + Orient(c, a, q) == Orient(a, b, c)
  {
  }

  lemma ThreeVectors(u: Point, v: Point, w: Point, d: Point)
    ensures Scale(Cross(v, w), Cross(d, u)) + Scale(Cross(w, u), Cross(d, v)) + Scale(Cross(u, v), Cross(d, w)) == 0.0
  {
  }

  lemma OrientFrom(p: Point, q: Point, x: Point)
    ensures Orient(p, q, x) == Cross(Minus(p, x), Minus(q, x))
  {
  }

  /** Along the ray, the side of a line changes at a constant rate. */
  lemma OffsetIsAffine(r: Ray, p: Point, q: Point, t: real, u: real)
    ensures Offset(r, p, q, u) == Offset(r, p, q, t) + Scale(u - t, Side(r, p) - Side(r, q))
  {
    SideIsCross(r, p);
    SideIsCross(r, q);
  }

  /** Moving the origin along the ray changes no side. */
  lemma SideFromAnywhere(r: Ray, p: Point, t: real)
    ensures Side(r, p) == Cross(r.direction, Minus(p, At(r, t)))
  {
    SideIsCross(r, p);
  }

  /** The balance of sides at every point of the ray. */
  lemma Balance(r: Ray, a: Point, b: Point, c: Point, t: real)
    ensures Scale(Offset(r, b, c, t), Side(r, a)) + Scale(Offset(r, c, a, t), Side(r, b)) + Scale(Offset(r, a, b, t),
              Side(r, c)) == 0.0
  {
    var q := At(r, t);
    ThreeVectors(Minus(a, q), Minus(b, q), Minus(c, q), r.direction);
    OrientFrom(a, b, q);
    OrientFrom(b, c, q);
    OrientFrom(c, a, q);
    SideFromAnywhere(r, a, t);
    SideFromAnywhere(r, b, t);
    SideFromAnywhere(r, c, t);
  }

  /** How far along the ray a point on it is. */
  function Param(r: Ray, p: Point): real
    requires Dot(r.direction, r.direction) > 0.0
  {
    Dot(Minus(p, r.origin), r.direction) / Dot(r.direction, r.direction)
  }

  lemma ParamReaches(r: Ray, p: Point)
    requires Dot(r.direction, r.direction) > 0.0 && Side(r, p) == 0.0
    ensures At(r, Param(r, p)) == p
    ensures Param(r, p) >= 0.0 <==> Dot(Minus(p, r.origin), r.direction) >= 0.0
  {
    SideIsCross(r, p);
    var u, d := Minus(p, r.origin), r.direction;
    var n, t := Dot(d, d), Param(r, p);
    QuotientTimes(Dot(u, d), n);
    assert Scale(n, u.0) - Scale(Dot(u, d), d.0) == -Scale(d.1, Cross(d, u));
    assert Scale(n, u.1) - Scale(Dot(u, d), d.1) == Scale(d.0, Cross(d, u));
    ScaleTwice(n, t, d.0);
    ScaleTwice(n, t, d.1);
    Cancel(n, u.0, Scale(t, d.0));
    Cancel(n, u.1, Scale(t, d.1));
  }

  // ---- Signs along the ray ----

  /** The line from p to q is left behind, approached or followed, as the sides of p and q say. */
  lemma OffsetOrder(r: Ray, p: Point, q: Point, t: real, u: real)
    ensures Side(r, p) > Side(r, q) ==> (t < u <==> Offset(r, p, q, t) < Offset(r, p, q, u))
    ensures Side(r, p) < Side(r, q) ==> (t < u <==> Offset(r, p, q, t) > Offset(r, p, q, u))
    ensures Side(r, p) == Side(r, q) ==> Offset(r, p, q, t) == Offset(r, p, q, u)
  {
    OffsetIsAffine(r, p, q, t, u);
    Signs(u - t, Side(r, p) - Side(r, q));
  }

  predicate Ccw(a: Point, b: Point, c: Point) {
    Orient(a, b, c) > 0.0
  }

  predicate InsideAt(r: Ray, a: Point, b: Point, c: Point, t: real) {
    Inside(a, b, c, At(r, t))
  }

  lemma StaysLeft(r: Ray, p: Point, q: Point, t: real, v: real, u: real)
    requires t <= v <= u && Offset(r, p, q, t) >= 0.0 && Offset(r, p, q, u) >= 0.0
    ensures Offset(r, p, q, v) >= 0.0
  {
    OffsetOrder(r, p, q, t, v);
    OffsetOrder(r, p, q, v, u);
  }

  /** Triangles are convex. */
  lemma InsideBetween(r: Ray, a: Point, b: Point, c: Point, t: real, v: real, u: real)
    requires t <= v <= u && InsideAt(r, a, b, c, t) && InsideAt(r, a, b, c, u)
    ensures InsideAt(r, a, b, c, v)
  {
    StaysLeft(r, a, b, t, v, u);
    StaysLeft(r, b, c, t, v, u);
    StaysLeft(r, c, a, t, v, u);
  }

  /** Where the ray crosses the line from p to q. */
  function Crossing(r: Ray, p: Point, q: Point): real
    requires Side(r, p) != Side(r, q)
  {
    Offset(r, p, q, 0.0) / (Side(r, q) - Side(r, p))
  }

  lemma CrossingReaches(r: Ray, p: Point, q: Point)
    requires Side(r, p) != Side(r, q)
    ensures Offset(r, p, q, Crossing(r, p, q)) == 0.0
  {
    OffsetIsAffine(r, p, q, 0.0, Crossing(r, p, q));
    assert Scale(Crossing(r, p, q), Side(r, q) - Side(r, p)) == Offset(r, p, q, 0.0);
  }

  /** The same crossing, from the other side of the edge. */
  lemma OppositeOffset(r: Ray, p: Point, q: Point, t: real)
    ensures Offset(r, q, p, t) == -Offset(r, p, q, t)
  {
  }

  /** A ray that crosses between two corners is inside there. */
  lemma CrossingInside(r: Ray, a: Point, b: Point, c: Point, t: real)
    requires Ccw(a, b, c) && Offset(r, a, b, t) == 0.0
    requires Side(r, a) < 0.0 < Side(r, b) || Side(r, b) < 0.0 < Side(r, a)
    ensures InsideAt(r, a, b, c, t) && Offset(r, b, c, t) > 0.0 && Offset(r, c, a, t) > 0.0
  {
    var x, y := Offset(r, b, c, t), Offset(r, c, a, t);
    Balance(r, a, b, c, t);
    OffsetsSum(a, b, c, At(r, t));
    Signs(x, Side(r, a));
    Signs(y, Side(r, b));
    Signs(Offset(r, a, b, t), Side(r, c));
  }

  predicate Moves(r: Ray) {
    Dot(r.direction, r.direction) > 0.0
  }

  /** A corner on the ray. */
  lemma AtCorner(r: Ray, a: Point, b: Point, c: Point)
    requires Moves(r) && Side(r, a) == 0.0
    ensures Offset(r, a, b, Param(r, a)) == 0.0 && Offset(r, c, a, Param(r, a)) == 0.0
    ensures Offset(r, b, c, Param(r, a)) == Orient(a, b, c)
    ensures Ccw(a, b, c) ==> InsideAt(r, a, b, c, Param(r, a))
  {
    ParamReaches(r, a);
    Rotated(a, b, c, a);
    OffsetsSum(a, b, c, a);
  }

  /** Not all corners of a triangle are on the ray. */
  lemma NotAllOnRay(r: Ray, a: Point, b: Point, c: Point)
    requires Moves(r) && Ccw(a, b, c)
    ensures Side(r, a) != 0.0 || Side(r, b) != 0.0 || Side(r, c) != 0.0
  {
    if Side(r, a) == 0.0 && Side(r, b) == 0.0 {
      AtCorner(r, a, b, c);
      AtCorner(r, b, c, a);
      OffsetOrder(r, b, c, Param(r, a), Param(r, b));
      Rotated(a, b, c, a);
    }
  }

  // ---- The way out of a triangle ----

  /** Having come in across the side from a to b, a to the left, the ray goes on to c or across one
      of the other two sides, further along. */
  lemma OutAfterSide(r: Ray, a: Point, b: Point, c: Point, t: real)
    requires Moves(r) && Ccw(a, b, c) && Side(r, b) < 0.0 < Side(r, a) && Offset(r, a, b, t) == 0.0
    ensures Side(r, c) == 0.0 ==> Param(r, c) > t
    ensures Side(r, c) > 0.0 ==> Crossing(r, b, c) > t
    ensures Side(r, c) < 0.0 ==> Crossing(r, c, a) > t
  {
    CrossingInside(r, a, b, c, t);
    if Side(r, c) == 0.0 {
      AtCorner(r, c, a, b);
      Rotated(a, b, c, a);
      OffsetOrder(r, a, b, t, Param(r, c));
    } else if Side(r, c) > 0.0 {
      CrossingReaches(r, b, c);
      OffsetOrder(r, b, c, t, Crossing(r, b, c));
    } else {
      CrossingReaches(r, c, a);
      OffsetOrder(r, c, a, t, Crossing(r, c, a));
    }
  }

  /** Having come in through the corner a, with its direction between the two sides there, the ray
      goes on to one of the other corners or across the side opposite, further along. */
  lemma OutAfterCorner(r: Ray, a: Point, b: Point, c: Point)
    requires Moves(r) && Ccw(a, b, c) && Side(r, a) == 0.0 && Side(r, b) <= 0.0 <= Side(r, c)
    ensures Side(r, b) == 0.0 ==> Param(r, b) > Param(r, a)
    ensures Side(r, c) == 0.0 ==> Param(r, c) > Param(r, a)
    ensures Side(r, b) < 0.0 < Side(r, c) ==> Crossing(r, b, c) > Param(r, a)
  {
    NotAllOnRay(r, a, b, c);
    AtCorner(r, a, b, c);
    if Side(r, b) == 0.0 {
      AtCorner(r, b, c, a);
      OffsetOrder(r, c, a, Param(r, a), Param(r, b));
      Rotated(a, b, c, a);
    } else if Side(r, c) == 0.0 {
      AtCorner(r, c, a, b);
      OffsetOrder(r, a, b, Param(r, a), Param(r, c));
      Rotated(a, b, c, a);
    } else {
      CrossingReaches(r, b, c);
      OffsetOrder(r, b, c, Param(r, a), Crossing(r, b, c));
    }
  }

  /** Before it comes in through such a corner, the ray is outside. */
  lemma OutsideBeforeCorner(r: Ray, a: Point, b: Point, c: Point, t: real)
    requires Moves(r) && Ccw(a, b, c) && Side(r, a) == 0.0 && Side(r, b) <= 0.0 <= Side(r, c) && t < Param(r, a)
    ensures !InsideAt(r, a, b, c, t)
  {
    NotAllOnRay(r, a, b, c);
    AtCorner(r, a, b, c);
    OffsetOrder(r, a, b, t, Param(r, a));
    OffsetOrder(r, c, a, t, Param(r, a));
  }

  lemma OutsideBeforeSide(r: Ray, a: Point, b: Point, c: Point, u: real, t: real)
    requires Side(r, b) < 0.0 < Side(r, a) && Offset(r, a, b, u) == 0.0 && t < u
    ensures !InsideAt(r, a, b, c, t)
  {
    OffsetOrder(r, a, b, t, u);
  }

  /** From a point inside, the crossing of a side from right to left lies ahead. */
  lemma CrossingAhead(r: Ray, a: Point, b: Point, c: Point, t: real)
    requires InsideAt(r, a, b, c, t) && Side(r, a) < 0.0 < Side(r, b)
    ensures Crossing(r, a, b) >= t
  {
    CrossingReaches(r, a, b);
    OffsetOrder(r, a, b, Crossing(r, a, b), t);
  }

  // ---- The first triangle ----

  predicate Behind(r: Ray, p: Point)
    requires Moves(r)
  {
    Side(r, p) == 0.0 ==> Param(r, p) < 0.0
  }

  lemma StartOppositeSide(r: Ray, a: Point, b: Point, c: Point)
    requires Moves(r) && Ccw(a, b, c) && InsideAt(r, a, b, c, 0.0)
    requires Side(r, b) < 0.0 < Side(r, a) && Side(r, c) == 0.0
    ensures !Behind(r, c)
  {
    AtCorner(r, c, a, b);
    Rotated(a, b, c, a);
    OffsetsSum(a, b, c, At(r, 0.0));
    OffsetOrder(r, a, b, Param(r, c), 0.0);
  }

  lemma StartTwoCorners(r: Ray, a: Point, b: Point, c: Point)
    requires Moves(r) && Ccw(a, b, c) && InsideAt(r, a, b, c, 0.0)
    requires Side(r, a) == 0.0 && Side(r, b) == 0.0
    ensures !Behind(r, a) || !Behind(r, b)
  {
    NotAllOnRay(r, a, b, c);
    AtCorner(r, a, b, c);
    AtCorner(r, b, c, a);
    OffsetOrder(r, b, c, Param(r, b), 0.0);
    OffsetOrder(r, c, a, Param(r, a), 0.0);
  }

  /** With the other two corners on the same side, a start inside is the corner itself. */
  lemma StartCorner(r: Ray, a: Point, b: Point, c: Point)
    requires Moves(r) && Ccw(a, b, c) && InsideAt(r, a, b, c, 0.0) && Side(r, a) == 0.0
    requires (Side(r, b) > 0.0 && Side(r, c) > 0.0) || (Side(r, b) < 0.0 && Side(r, c) < 0.0)
    ensures !Behind(r, a)
  {
    Balance(r, a, b, c, 0.0);
    Signs(Offset(r, b, c, 0.0), Side(r, a));
    Signs(Offset(r, c, a, 0.0), Side(r, b));
    Signs(Offset(r, a, b, 0.0), Side(r, c));
    AtCorner(r, a, b, c);
    OffsetOrder(r, a, b, Param(r, a), 0.0);
  }

  lemma StartNotAllOneSide(r: Ray, a: Point, b: Point, c: Point)
    requires Ccw(a, b, c) && InsideAt(r, a, b, c, 0.0)
    ensures !(Side(r, a) > 0.0 && Side(r, b) > 0.0 && Side(r, c) > 0.0)
    ensures !(Side(r, a) < 0.0 && Side(r, b) < 0.0 && Side(r, c) < 0.0)
  {
    Balance(r, a, b, c, 0.0);
    OffsetsSum(a, b, c, At(r, 0.0));
    Signs(Offset(r, b, c, 0.0), Side(r, a));
    Signs(Offset(r, c, a, 0.0), Side(r, b));
    Signs(Offset(r, a, b, 0.0), Side(r, c));
  }

  predicate RightToLeft(r: Ray, p: Point, q: Point) {
    Side(r, p) < 0.0 < Side(r, q)
  }

  /** From a start inside, with no corner ahead on the ray, the ray crosses a side from right to
      left. */
  lemma OutOfStart(r: Ray, a: Point, b: Point, c: Point)
    requires Moves(r) && Ccw(a, b, c) && InsideAt(r, a, b, c, 0.0)
    requires Behind(r, a) && Behind(r, b) && Behind(r, c)
    ensures RightToLeft(r, a, b) || RightToLeft(r, b, c) || RightToLeft(r, c, a)
  {
    StartNotAllOneSide(r, a, b, c);
    CornerCases(r, a, b, c);
    Rotated(a, b, c, At(r, 0.0));
    CornerCases(r, b, c, a);
    CornerCases(r, c, a, b);
  }

  lemma Rotated(a: Point, b: Point, c: Point, q: Point)
    ensures Orient(b, c, a) == Orient(a, b, c) && Orient(c, a, b) == Orient(a, b, c)
    ensures Inside(a, b, c, q) <==> Inside(b, c, a, q)
    ensures Inside(a, b, c, q) <==> Inside(c, a, b, q)
  {
  }

  lemma CornerCases(r: Ray, a: Point, b: Point, c: Point)
    requires Moves(r) && Ccw(a, b, c) && InsideAt(r, a, b, c, 0.0)
    requires Behind(r, a) && Behind(r, b) && Behind(r, c)
    ensures !(Side(r, b) < 0.0 < Side(r, a) && Side(r, c) == 0.0)
    ensures !(Side(r, a) == 0.0 && Side(r, b) == 0.0)
    ensures !(Side(r, a) == 0.0 && Side(r, b) > 0.0 && Side(r, c) > 0.0)
    ensures !(Side(r, a) == 0.0 && Side(r, b) < 0.0 && Side(r, c) < 0.0)
  {
    if Side(r, b) < 0.0 < Side(r, a) && Side(r, c) == 0.0 {
      StartOppositeSide(r, a, b, c);
    } else if Side(r, a) == 0.0 && Side(r, b) == 0.0 {
      StartTwoCorners(r, a, b, c);
    } else if Side(r, a) == 0.0 && Scale(Side(r, b), Side(r, c)) > 0.0 {
      Signs(Side(r, b), Side(r, c));
      StartCorner(r, a, b, c);
    } else {
      Signs(Side(r, b), Side(r, c));
    }
  }
}
