// The height of a point on a face (libsimulator/src/geometry/location.cpp).
module Heights {
  import opened Reals
  import opened Plane
  import opened Rays

  /** A corner with its height. */
  datatype Corner = Corner(xy: Point, z: real)

  /** Interpolation by the point's weights in the projected triangle. */
  function HeightOnFace(a: Corner, b: Corner, c: Corner, q: Point): real
    requires Ccw(a.xy, b.xy, c.xy)
  {
    var e1, e2, d := Minus(b.xy, a.xy), Minus(c.xy, a.xy), Minus(q, a.xy);
    var denominator := e1.0 * e2.1 - e2.0 * e1.1;
    assert denominator == Orient(a.xy, b.xy, c.xy);
    var b1 := (d.0 * e2.1 - e2.0 * d.1) / denominator;
    var b2 := (e1.0 * d.1 - d.0 * e1.1) / denominator;
    Scale(1.0 - b1 - b2, a.z) + Scale(b1, b.z) + Scale(b2, c.z)
  }

  /** The weights are the offsets from the three sides, relative to the whole triangle. */
  lemma Weights(a: Corner, b: Corner, c: Corner, q: Point)
    requires Ccw(a.xy, b.xy, c.xy)
    ensures var area := Orient(a.xy, b.xy, c.xy);
            HeightOnFace(a, b, c, q) ==
            Scale(Orient(b.xy, c.xy, q) / area, a.z) + Scale(Orient(c.xy, a.xy, q) / area,
              b.z) + Scale(Orient(a.xy, b.xy, q) / area, c.z)
  {
    var area := Orient(a.xy, b.xy, c.xy);
    var e1, e2, d := Minus(b.xy, a.xy), Minus(c.xy, a.xy), Minus(q, a.xy);
    OffsetsSum(a.xy, b.xy, c.xy, q);
    assert d.0 * e2.1 - e2.0 * d.1 == Orient(c.xy, a.xy, q);
    assert e1.0 * d.1 - d.0 * e1.1 == Orient(a.xy, b.xy, q);
    QuotientSum(Orient(a.xy, b.xy, q), Orient(b.xy, c.xy, q), Orient(c.xy, a.xy, q), area);
  }

  lemma QuotientSum(x: real, y: real, z: real, n: real)
    requires n > 0.0 && x + y + z == n
    ensures 1.0 - z / n - x / n == y / n
  {
    assert (x + y + z) / n == x / n + y / n + z / n;
  }

  lemma WeightBounds(x: real, n: real)
    requires n > 0.0 && x >= 0.0
    ensures x / n >= 0.0
  {
  }

  lemma Average(u: real, v: real, w: real, x: real, y: real, z: real, lo: real, hi: real)
    requires u >= 0.0 && v >= 0.0 && w >= 0.0 && u + v + w == 1.0
    requires lo <= x <= hi && lo <= y <= hi && lo <= z <= hi
    ensures lo <= Scale(u, x) + Scale(v, y) + Scale(w, z) <= hi
  {
    Between(u, x, lo, hi);
    Between(v, y, lo, hi);
    Between(w, z, lo, hi);
    assert Scale(u, lo) + Scale(v, lo) + Scale(w, lo) == Scale(u + v + w, lo);
    assert Scale(u, hi) + Scale(v, hi) + Scale(w, hi) == Scale(u + v + w, hi);
    assert Scale(1.0, lo) == lo && Scale(1.0, hi) == hi;
  }

  lemma Between(u: real, x: real, lo: real, hi: real)
    requires u >= 0.0 && lo <= x <= hi
    ensures Scale(u, lo) <= Scale(u, x) <= Scale(u, hi)
  {
  }

  /** A point on a face is no lower and no higher than all of the face's corners. */
  lemma HeightWithinCorners(a: Corner, b: Corner, c: Corner, q: Point, lo: real, hi: real)
    requires Ccw(a.xy, b.xy, c.xy) && Inside(a.xy, b.xy, c.xy, q)
    requires lo <= a.z <= hi && lo <= b.z <= hi && lo <= c.z <= hi
    ensures lo <= HeightOnFace(a, b, c, q) <= hi
  {
    var area := Orient(a.xy, b.xy, c.xy);
    var u, v, w := Orient(b.xy, c.xy, q), Orient(c.xy, a.xy, q), Orient(a.xy, b.xy, q);
    Weights(a, b, c, q);
    OffsetsSum(a.xy, b.xy, c.xy, q);
    WeightBounds(u, area);
    WeightBounds(v, area);
    WeightBounds(w, area);
    QuotientSum(w, u, v, area);
    Average(u / area, v / area, w / area, a.z, b.z, c.z, lo, hi);
  }

  /** On a side, the height depends on the side's ends alone: the surface has no step where two
      faces meet. */
  lemma HeightOnSide(a: Corner, b: Corner, c: Corner, t: real)
    requires Ccw(a.xy, b.xy, c.xy)
    ensures HeightOnFace(a, b, c, At(Ray(a.xy, Minus(b.xy, a.xy)), t)) == Scale(1.0 - t, a.z) + Scale(t, b.z)
  {
    var q := At(Ray(a.xy, Minus(b.xy, a.xy)), t);
    var area := Orient(a.xy, b.xy, c.xy);
    Weights(a, b, c, q);
    OffsetsOnSide(a.xy, b.xy, c.xy, t);
    TimesOver(t, area);
    TimesOver(1.0 - t, area);
    assert Scale(0.0 / area, c.z) == 0.0;
  }

  lemma OffsetsOnSide(a: Point, b: Point, c: Point, t: real)
    ensures var q, area := At(Ray(a, Minus(b, a)), t), Orient(a, b, c);
            Orient(a, b, q) == 0.0 && Orient(c, a, q) == Scale(t, area) && Orient(b, c, q) == Scale(1.0 - t, area)
  {
    var q, area := At(Ray(a, Minus(b, a)), t), Orient(a, b, c);
    assert Orient(a, b, q) == 0.0;
    assert Orient(c, a, q) == Scale(t, area);
    OffsetsSum(a, b, c, q);
  }

  lemma TimesOver(t: real, n: real)
    requires n > 0.0
    ensures Scale(t, n) / n == t
  {
  }

  lemma FromTheOtherEnd(a: real, b: real, t: real)
    ensures b + Scale(1.0 - t, a - b) == a + Scale(t, b - a)
  {
  }

  /** Two faces that share a side give its points the same height. */
  lemma NoStepBetweenFaces(a: Corner, b: Corner, c: Corner, d: Corner, t: real)
    requires Ccw(a.xy, b.xy, c.xy) && Ccw(b.xy, a.xy, d.xy)
    ensures var q := At(Ray(a.xy, Minus(b.xy, a.xy)), t); HeightOnFace(a, b, c, q) == HeightOnFace(b, a, d, q)
  {
    var u := 1.0 - t;
    FromTheOtherEnd(a.xy.0, b.xy.0, t);
    FromTheOtherEnd(a.xy.1, b.xy.1, t);
    assert At(Ray(b.xy, Minus(a.xy, b.xy)), u) == At(Ray(a.xy, Minus(b.xy, a.xy)), t);
    HeightOnSide(a, b, c, t);
    HeightOnSide(b, a, d, u);
  }

  // ---- Weights ----

  /** q is the mean of the corners with weights u, v and w. */
  ghost predicate IsMean(a: Point, b: Point, c: Point, q: Point, u: real, v: real, w: real) {
    && u + v + w == 1.0
    && q.0 == Scale(u, a.0) + Scale(v, b.0) + Scale(w, c.0)
    && q.1 == Scale(u, a.1) + Scale(v, b.1) + Scale(w, c.1)
  }

  lemma MeanFrom(x: real, y: real, z: real, u: real, v: real, w: real, o: real)
    requires u + v + w == 1.0
    ensures Scale(u, x) + Scale(v, y) + Scale(w, z) - o == Scale(u, x - o) + Scale(v, y - o) + Scale(w, z - o)
  {
    assert Scale(u, o) + Scale(v, o) + Scale(w, o) == Scale(u + v + w, o) == o;
    assert Scale(u, x - o) == Scale(u, x) - Scale(u, o);
    assert Scale(v, y - o) == Scale(v, y) - Scale(v, o);
    assert Scale(w, z - o) == Scale(w, z) - Scale(w, o);
  }

  lemma CrossOfSum(e: Point, x: Point, y: Point, v: real, w: real)
    ensures Cross(e, (Scale(v, x.0) + Scale(w, y.0), Scale(v, x.1) + Scale(w, y.1))) ==
            Scale(v, Cross(e, x)) + Scale(w, Cross(e, y))
  {
    assert e.0 * Scale(v, x.1) == Scale(v, e.0 * x.1) && e.1 * Scale(v, x.0) == Scale(v, e.1 * x.0);
    assert e.0 * Scale(w, y.1) == Scale(w, e.0 * y.1) && e.1 * Scale(w, y.0) == Scale(w, e.1 * y.0);
    assert Scale(v, Cross(e, x)) == Scale(v, e.0 * x.1) - Scale(v, e.1 * x.0);
    assert Scale(w, Cross(e, y)) == Scale(w, e.0 * y.1) - Scale(w, e.1 * y.0);
  }

  /** The offset of a mean from the side between the corners weighted u and v. */
  lemma OffsetOfMean(a: Point, b: Point, c: Point, q: Point, u: real, v: real, w: real)
    requires IsMean(a, b, c, q, u, v, w)
    ensures Orient(a, b, q) == Scale(w, Orient(a, b, c))
  {
    var e, x, y := Minus(b, a), Minus(b, a), Minus(c, a);
    MeanFrom(a.0, b.0, c.0, u, v, w, a.0);
    MeanFrom(a.1, b.1, c.1, u, v, w, a.1);
    assert Scale(u, 0.0) == 0.0 && Cross(e, x) == 0.0 && Scale(v, 0.0) == 0.0;
    CrossOfSum(e, x, y, v, w);
    assert Minus(q, a) == (Scale(v, x.0) + Scale(w, y.0), Scale(v, x.1) + Scale(w, y.1));
  }

  lemma OrientTurns(a: Point, b: Point, c: Point)
    ensures Orient(b, c, a) == Orient(a, b, c) == Orient(c, a, b)
  {
  }

  lemma OffsetsOfMean(a: Point, b: Point, c: Point, q: Point, u: real, v: real, w: real)
    requires IsMean(a, b, c, q, u, v, w)
    ensures var area := Orient(a, b, c);
            Orient(b, c, q) == Scale(u, area) && Orient(c, a, q) == Scale(v, area) && Orient(a, b, q) == Scale(w, area)
  {
    OffsetOfMean(a, b, c, q, u, v, w);
    OffsetOfMean(b, c, a, q, v, w, u);
    OffsetOfMean(c, a, b, q, w, u, v);
    OrientTurns(a, b, c);
  }

  /** The weights by which q is a mean of the corners. */
  lemma WeightsOf(a: Point, b: Point, c: Point, q: Point) returns (u: real, v: real, w: real)
    requires Ccw(a, b, c)
    ensures IsMean(a, b, c, q, u, v, w)
  {
    var area := Orient(a, b, c);
    v, w := Orient(c, a, q) / area, Orient(a, b, q) / area;
    u := 1.0 - v - w;
    QuotientTimes(Orient(c, a, q), area);
    QuotientTimes(Orient(a, b, q), area);
    MeanAxis(Minus(b, a), Minus(c, a), Minus(q, a), area, v, w);
    MeanFrom(a.0, b.0, c.0, u, v, w, a.0);
    MeanFrom(a.1, b.1, c.1, u, v, w, a.1);
    assert Scale(u, 0.0) == 0.0;
  }

  /** A vector in terms of two others. */
  lemma MeanAxis(x: Point, y: Point, d: Point, area: real, v: real, w: real)
    requires area == Cross(x, y) && area > 0.0
    requires Scale(area, v) == Cross(d, y) && Scale(area, w) == Cross(x, d)
    ensures d.0 == Scale(v, x.0) + Scale(w, y.0) && d.1 == Scale(v, x.1) + Scale(w, y.1)
  {
    assert Scale(area, d.0) == Scale(Cross(d, y), x.0) + Scale(Cross(x, d), y.0);
    assert Scale(area, d.1) == Scale(Cross(d, y), x.1) + Scale(Cross(x, d), y.1);
    ScaleTwice(area, v, x.0);
    ScaleTwice(area, w, y.0);
    ScaleTwice(area, v, x.1);
    ScaleTwice(area, w, y.1);
    assert Scale(area, Scale(v, x.0) + Scale(w, y.0)) == Scale(area, Scale(v, x.0)) + Scale(area, Scale(w, y.0));
    assert Scale(area, Scale(v, x.1) + Scale(w, y.1)) == Scale(area, Scale(v, x.1)) + Scale(area, Scale(w, y.1));
    Cancel(area, d.0, Scale(v, x.0) + Scale(w, y.0));
    Cancel(area, d.1, Scale(v, x.1) + Scale(w, y.1));
  }

  /** A point lies in a triangle exactly if it is a mean of the corners without negative weights. */
  lemma InsideIffMean(a: Point, b: Point, c: Point, q: Point)
    requires Ccw(a, b, c)
    ensures Inside(a, b, c, q) <==>
              exists u, v, w :: u >= 0.0 && v >= 0.0 && w >= 0.0 && IsMean(a, b, c, q, u, v, w)
  {
    var area := Orient(a, b, c);
    forall u: real, v: real, w: real | IsMean(a, b, c, q, u, v, w)
      ensures Inside(a, b, c, q) <==> u >= 0.0 && v >= 0.0 && w >= 0.0
    {
      OffsetsOfMean(a, b, c, q, u, v, w);
      Signs(u, area);
      Signs(v, area);
      Signs(w, area);
    }
    var u, v, w := WeightsOf(a, b, c, q);
    assert IsMean(a, b, c, q, u, v, w);
  }

  /** The height of a mean of the corners is the mean of their heights. */
  lemma HeightOfMean(a: Corner, b: Corner, c: Corner, q: Point, u: real, v: real, w: real)
    requires Ccw(a.xy, b.xy, c.xy) && IsMean(a.xy, b.xy, c.xy, q, u, v, w)
    ensures HeightOnFace(a, b, c, q) == Scale(u, a.z) + Scale(v, b.z) + Scale(w, c.z)
  {
    var area := Orient(a.xy, b.xy, c.xy);
    Weights(a, b, c, q);
    OffsetsOfMean(a.xy, b.xy, c.xy, q, u, v, w);
    TimesOver(u, area);
    TimesOver(v, area);
    TimesOver(w, area);
  }
}
