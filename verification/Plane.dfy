// Points and vectors of the plane, and the predicates on them that are evaluated exactly.
module Plane {
  import opened Reals

  type Point = (real, real)

  function Minus(p: Point, q: Point): Point {
    (p.0 - q.0, p.1 - q.1)
  }

  /** The point reached from p after t times d. */
  function Along(p: Point, d: Point, t: real): Point {
    (p.0 + Scale(t, d.0), p.1 + Scale(t, d.1))
  }

  function Cross(u: Point, v: Point): real {
    u.0 * v.1 - u.1 * v.0
  }

  function Dot(u: Point, v: Point): real {
    u.0 * v.0 + u.1 * v.1
  }

  /** Positive where x lies left of the line from p to q, negative right of it. */
  function Orient(p: Point, q: Point, x: Point): real {
    Cross(Minus(q, p), Minus(x, p))
  }

  function DistanceSquared(a: Point, b: Point): real {
    Square(a.0 - b.0) + Square(a.1 - b.1)
  }
}
