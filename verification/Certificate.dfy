// The test that a boundary projects to simple loops (libsimulator/src/geometry/projected_boundary.cpp):
// a hash grid over the segments' boxes that misses no violating pair.
module Certificate {
  import opened Sequences
  import opened Reals
  import opened Plane

  type Vertex = nat
  type Key = (int, int)

  datatype Segment = Segment(a: Point, b: Point, va: Vertex, vb: Vertex)

  // ---- When two segments violate simplicity ----

  ghost predicate On(s: Segment, p: Point) {
    exists u :: 0.0 <= u <= 1.0 && Along(s.a, Minus(s.b, s.a), u) == p
  }

  ghost predicate Intersect(s: Segment, t: Segment) {
    exists p :: On(s, p) && On(t, p)
  }

  predicate SharesVertex(s: Segment, t: Segment) {
    s.va == t.va || s.va == t.vb || s.vb == t.va || s.vb == t.vb
  }

  function SharedVertex(s: Segment, t: Segment): Vertex
    requires SharesVertex(s, t)
  {
    if s.va == t.va || s.va == t.vb then s.va else s.vb
  }

  /** Two segments out of a shared vertex leave it in the same direction. */
  predicate FoldsBack(s: Segment, t: Segment)
    requires SharesVertex(s, t)
  {
    var q := SharedVertex(s, t);
    var shared := if s.va == q then s.a else s.b;
    var p1 := if s.va == q then s.b else s.a;
    var p2 := if t.va == q then t.b else t.a;
    Orient(shared, p1, p2) == 0.0 && Dot(Minus(p1, shared), Minus(p2, shared)) > 0.0
  }

  /** Segments with a common mesh vertex may meet there only; others may not meet at all. */
  ghost predicate Violates(s: Segment, t: Segment) {
    if SharesVertex(s, t) then FoldsBack(s, t) else Intersect(s, t)
  }

  /** The test as it is run, given an exact intersection test. */
  predicate PairViolates(intersects: (Segment, Segment) -> bool, s: Segment, t: Segment) {
    if SharesVertex(s, t) then FoldsBack(s, t) else intersects(s, t)
  }

  ghost predicate Exact(intersects: (Segment, Segment) -> bool) {
    forall s, t :: intersects(s, t) <==> Intersect(s, t)
  }

  // ---- A violating pair shares a cell ----

  function CellOf(v: real, cell: real): int
    requires cell > 0.0
  {
    (v / cell).Floor
  }

  /** The cells that the box around a segment meets. */
  predicate Covers(s: Segment, cell: real, k: Key)
    requires cell > 0.0
  {
    && CellOf(Least(s.a.0, s.b.0), cell) <= k.0 <= CellOf(Greatest(s.a.0, s.b.0), cell)
    && CellOf(Least(s.a.1, s.b.1), cell) <= k.1 <= CellOf(Greatest(s.a.1, s.b.1), cell)
  }

  lemma CellMonotone(x: real, y: real, cell: real)
    requires cell > 0.0 && x <= y
    ensures CellOf(x, cell) <= CellOf(y, cell)
  {
    assert x / cell <= y / cell by {
      QuotientMonotone(x, y, cell);
    }
  }

  lemma AxisIsCovered(a: real, b: real, u: real, v: real, cell: real)
    requires cell > 0.0 && 0.0 <= u <= 1.0 && v == a + Scale(u, b - a)
    ensures CellOf(Least(a, b), cell) <= CellOf(v, cell) <= CellOf(Greatest(a, b), cell)
  {
    ScaledWithin(u, b - a);
    CellMonotone(Least(a, b), v, cell);
    CellMonotone(v, Greatest(a, b), cell);
  }

  lemma OnIsCovered(s: Segment, p: Point, cell: real)
    requires cell > 0.0 && On(s, p)
    ensures Covers(s, cell, (CellOf(p.0, cell), CellOf(p.1, cell)))
  {
    var u :| 0.0 <= u <= 1.0 && Along(s.a, Minus(s.b, s.a), u) == p;
    AxisIsCovered(s.a.0, s.b.0, u, p.0, cell);
    AxisIsCovered(s.a.1, s.b.1, u, p.1, cell);
  }

  lemma EndsOn(s: Segment)
    ensures On(s, s.a) && On(s, s.b)
  {
    assert Along(s.a, Minus(s.b, s.a), 0.0) == s.a && Along(s.a, Minus(s.b, s.a), 1.0) == s.b;
  }

  /** The projection of the mesh's vertices: equal vertices are at equal points. */
  ghost predicate Projects(point: Vertex -> Point, s: Segment) {
    s.a == point(s.va) && s.b == point(s.vb)
  }

  lemma ViolatingShareCell(point: Vertex -> Point, s: Segment, t: Segment, cell: real) returns (k: Key)
    requires cell > 0.0 && Projects(point, s) && Projects(point, t) && Violates(s, t)
    ensures Covers(s, cell, k) && Covers(t, cell, k)
  {
    var p: Point;
    if SharesVertex(s, t) {
      p := point(SharedVertex(s, t));
      EndsOn(s);
      EndsOn(t);
    } else {
      p :| On(s, p) && On(t, p);
    }
    OnIsCovered(s, p, cell);
    OnIsCovered(t, p, cell);
    k := (CellOf(p.0, cell), CellOf(p.1, cell));
  }

  // ---- What that means in the plane ----

  ghost predicate IsEnd(s: Segment, v: Vertex) {
    v == s.va || v == s.vb
  }

  /** The segments have no point in common, or only that of one mesh vertex which is an end of both. */
  ghost predicate MeetAtVertex(point: Vertex -> Point, s: Segment, t: Segment) {
    (exists v :: IsEnd(s, v) && IsEnd(t, v) && MeetOnlyAt(s, t, point(v))) || !Intersect(s, t)
  }

  ghost predicate MeetOnlyAt(s: Segment, t: Segment, q: Point) {
    forall p :: On(s, p) && On(t, p) ==> p == q
  }

  /** p lies on the way from o to e. */
  ghost predicate Between(o: Point, e: Point, p: Point) {
    exists u :: 0.0 <= u <= 1.0 && Along(o, Minus(e, o), u) == p
  }

  lemma OnFromEitherEnd(s: Segment, p: Point)
    ensures On(s, p) <==> Between(s.a, s.b, p)
    ensures On(s, p) <==> Between(s.b, s.a, p)
  {
    forall u: real ensures Along(s.a, Minus(s.b, s.a), u) == Along(s.b, Minus(s.a, s.b), 1.0 - u) {
      assert Scale(u, s.b.0 - s.a.0) == (s.b.0 - s.a.0) + Scale(1.0 - u, s.a.0 - s.b.0);
      assert Scale(u, s.b.1 - s.a.1) == (s.b.1 - s.a.1) + Scale(1.0 - u, s.a.1 - s.b.1);
    }
    if On(s, p) {
      var u :| 0.0 <= u <= 1.0 && Along(s.a, Minus(s.b, s.a), u) == p;
      assert 0.0 <= 1.0 - u <= 1.0 && Along(s.b, Minus(s.a, s.b), 1.0 - u) == p;
    }
    if Between(s.b, s.a, p) {
      var u :| 0.0 <= u <= 1.0 && Along(s.b, Minus(s.a, s.b), u) == p;
      assert 0.0 <= 1.0 - u <= 1.0 && Along(s.a, Minus(s.b, s.a), 1.0 - u) == p;
    }
  }

  /** Vectors are parallel and point to the same side exactly if multiples of them agree. */
  lemma MultiplesAgree(u: Point, w: Point, l: real, m: real)
    requires l > 0.0 && m > 0.0 && u != (0.0, 0.0)
    requires Scale(l, u.0) == Scale(m, w.0) && Scale(l, u.1) == Scale(m, w.1)
    ensures Cross(u, w) == 0.0 && Dot(u, w) > 0.0
  {
    assert Scale(m, Cross(u, w)) == Scale(u.0, Scale(m, w.1)) - Scale(u.1, Scale(m, w.0));
    assert Scale(u.0, Scale(l, u.1)) == Scale(u.1, Scale(l, u.0));
    Signs(m, Cross(u, w));
    assert Scale(m, Dot(u, w)) == Scale(u.0, Scale(m, w.0)) + Scale(u.1, Scale(m, w.1));
    assert Scale(u.0, Scale(l, u.0)) + Scale(u.1, Scale(l, u.1)) == Scale(l, Square(u.0) + Square(u.1));
    SquarePositive(u.0);
    SquarePositive(u.1);
    Signs(l, Square(u.0) + Square(u.1));
    Signs(m, Dot(u, w));
  }

  lemma ParallelMultiples(u: Point, w: Point)
    requires Cross(u, w) == 0.0
    ensures Scale(Dot(u, w), u.0) == Scale(Dot(u, u), w.0) && Scale(Dot(u, w), u.1) == Scale(Dot(u, u), w.1)
  {
    assert Scale(Dot(u, w), u.0) - Scale(Dot(u, u), w.0) == -Scale(u.1, Cross(u, w));
    assert Scale(Dot(u, w), u.1) - Scale(Dot(u, u), w.1) == Scale(u.0, Cross(u, w));
  }

  /** Two ways out of o have more than o in common exactly if they leave it in the same direction. */
  lemma SameDirectionIff(o: Point, e: Point, f: Point)
    requires e != o && f != o
    ensures (exists p :: p != o && Between(o, e, p) && Between(o, f, p)) <==>
              Orient(o, e, f) == 0.0 && Dot(Minus(e, o), Minus(f, o)) > 0.0
  {
    var u, w := Minus(e, o), Minus(f, o);
    if p :| p != o && Between(o, e, p) && Between(o, f, p) {
      var l :| 0.0 <= l <= 1.0 && Along(o, u, l) == p;
      var m :| 0.0 <= m <= 1.0 && Along(o, w, m) == p;
      assert l != 0.0 && m != 0.0;
      MultiplesAgree(u, w, l, m);
    }
    if Cross(u, w) == 0.0 && Dot(u, w) > 0.0 {
      var p := CommonPoint(o, u, w);
      assert Between(o, e, p) && Between(o, f, p);
    }
  }

  lemma CommonPoint(o: Point, u: Point, w: Point) returns (p: Point)
    requires u != (0.0, 0.0) && Cross(u, w) == 0.0 && Dot(u, w) > 0.0
    ensures p != o
    ensures exists l :: 0.0 <= l <= 1.0 && Along(o, u, l) == p
    ensures exists m :: 0.0 <= m <= 1.0 && Along(o, w, m) == p
  {
    SquarePositive(u.0);
    SquarePositive(u.1);
    var x, y := Dot(u, w), Dot(u, u);
    assert y == Square(u.0) + Square(u.1);
    var n := Greatest(x, y);
    var l, m := x / n, y / n;
    QuotientTimes(x, n);
    QuotientTimes(y, n);
    PartOfWhole(x, n, l);
    PartOfWhole(y, n, m);
    ParallelMultiples(u, w);
    SameMultiple(n, l, m, x, y, u.0, w.0);
    SameMultiple(n, l, m, x, y, u.1, w.1);
    p := Along(o, u, l);
    assert p == Along(o, w, m);
    Signs(l, u.0);
    Signs(l, u.1);
  }

  lemma PartOfWhole(x: real, n: real, l: real)
    requires 0.0 < x <= n && Scale(n, l) == x
    ensures 0.0 < l <= 1.0
  {
    Signs(n, l);
    Signs(n, l - 1.0);
    assert Scale(n, l - 1.0) == x - n;
  }

  lemma SameMultiple(n: real, l: real, m: real, x: real, y: real, u: real, w: real)
    requires n > 0.0 && Scale(n, l) == x && Scale(n, m) == y && Scale(x, u) == Scale(y, w)
    ensures Scale(l, u) == Scale(m, w)
  {
    ScaleTwice(n, l, u);
    ScaleTwice(n, m, w);
    Cancel(n, Scale(l, u), Scale(m, w));
  }

  /** A vertex that is an end of both segments: they fold back there exactly if they have another point in
      common. */
  lemma FoldsBackIff(point: Vertex -> Point, s: Segment, t: Segment)
    requires Projects(point, s) && Projects(point, t) && s.a != s.b && t.a != t.b && SharesVertex(s, t)
    ensures FoldsBack(s, t) <==> !MeetOnlyAt(s, t, point(SharedVertex(s, t)))
  {
    var q := SharedVertex(s, t);
    var e, f := if s.va == q then s.b else s.a, if t.va == q then t.b else t.a;
    forall p ensures (On(s, p) <==> Between(point(q), e, p)) && (On(t, p) <==> Between(point(q), f, p)) {
      OnFromEitherEnd(s, p);
      OnFromEitherEnd(t, p);
    }
    SameDirectionIff(point(q), e, f);
  }

  /** A pair violates exactly if the segments meet elsewhere than at one common vertex. */
  lemma ViolatesIff(point: Vertex -> Point, s: Segment, t: Segment)
    requires Projects(point, s) && Projects(point, t) && s.a != s.b && t.a != t.b
    ensures Violates(s, t) <==> !MeetAtVertex(point, s, t)
  {
    if SharesVertex(s, t) {
      var q := SharedVertex(s, t);
      FoldsBackIff(point, s, t);
      EndsOn(s);
      EndsOn(t);
      assert On(s, point(q)) && On(t, point(q));
      assert IsEnd(s, q) && IsEnd(t, q);
    }
  }

  // ---- What the test decides ----

  function DegreeOf(segments: seq<Segment>, v: Vertex): nat {
    if segments == [] then 0
    else
      var s := segments[|segments| - 1];
      DegreeOf(segments[..|segments| - 1], v) + (if s.va == v then 1 else 0) + (if s.vb == v then 1 else 0)
  }

  lemma {:induction false} DegreeGrows(segments: seq<Segment>, n: nat, v: Vertex)
    requires n <= |segments|
    ensures DegreeOf(segments[..n], v) <= DegreeOf(segments, v)
  {
    var m := |segments| - 1;
    if n == |segments| {
      assert segments[..n] == segments;
    } else {
      assert segments[..m][..n] == segments[..n];
      DegreeGrows(segments[..m], n, v);
    }
  }

  /** No segment is vertical, no vertex is passed more than once, and no two segments violate. */
  ghost predicate StrictlySimple(segments: seq<Segment>) {
    PassesOnce(segments) && NoneViolates(segments)
  }

  ghost predicate PassesOnce(segments: seq<Segment>) {
    (forall s :: s in segments ==> s.a != s.b) && forall v :: DegreeOf(segments, v) <= 2
  }

  ghost predicate NoneViolates(segments: seq<Segment>) {
    forall i, j :: 0 <= i < j < |segments| ==> !Violates(segments[i], segments[j])
  }

  /** No segment is vertical, no vertex is passed more than once, and any two segments meet at most at one
      common vertex. */
  ghost predicate SimpleLoops(point: Vertex -> Point, segments: seq<Segment>) {
    && PassesOnce(segments)
    && forall i, j :: 0 <= i < j < |segments| ==> MeetAtVertex(point, segments[i], segments[j])
  }

  lemma StrictlySimpleIff(point: Vertex -> Point, segments: seq<Segment>)
    requires forall s :: s in segments ==> Projects(point, s)
    ensures StrictlySimple(segments) <==> SimpleLoops(point, segments)
  {
    if PassesOnce(segments) {
      forall i, j | 0 <= i < j < |segments|
        ensures Violates(segments[i], segments[j]) <==> !MeetAtVertex(point, segments[i], segments[j])
      {
        assert segments[i] in segments && segments[j] in segments;
        ViolatesIff(point, segments[i], segments[j]);
      }
    }
  }

  // ---- The grid ----

  type Cells = map<Key, seq<nat>>

  function At(cells: Cells, k: Key): seq<nat> {
    if k in cells then cells[k] else []
  }

  /** The first n segments whose boxes meet cell k, in order. */
  function Members(segments: seq<Segment>, cell: real, k: Key, n: nat): (m: seq<nat>)
    requires cell > 0.0 && n <= |segments|
    ensures forall i: nat :: i in m <==> i < n && Covers(segments[i], cell, k)
    ensures forall i, j :: 0 <= i < j < |m| ==> m[i] < m[j]
  {
    if n == 0 then []
    else
      var rest := Members(segments, cell, k, n - 1);
      assert forall i :: 0 <= i < |rest| ==> rest[i] in rest;
      rest + (if Covers(segments[n - 1], cell, k) then [n - 1] else [])
  }

  ghost predicate Filed(segments: seq<Segment>, cell: real, cells: Cells, n: nat)
    requires cell > 0.0 && n <= |segments|
  {
    forall k :: At(cells, k) == Members(segments, cell, k, n)
  }

  /** Adding segment i has got to column x and row y of its block. */
  ghost predicate Filing(segment: Segment, cell: real, before: Cells, cells: Cells, i: nat, x: int, y: int)
    requires cell > 0.0
  {
    forall k :: At(cells, k) ==
      At(before, k) + (if Covers(segment, cell, k) && (k.0 < x || (k.0 == x && k.1 < y)) then [i] else [])
  }

  method FileSegment(segment: Segment, cell: real, before: Cells, i: nat) returns (cells: Cells)
    requires cell > 0.0
    ensures forall k :: At(cells, k) == At(before, k) + (if Covers(segment, cell, k) then [i] else [])
  {
    var xLo, xHi := CellOf(Least(segment.a.0, segment.b.0), cell), CellOf(Greatest(segment.a.0, segment.b.0), cell);
    var yLo, yHi := CellOf(Least(segment.a.1, segment.b.1), cell), CellOf(Greatest(segment.a.1, segment.b.1), cell);
    CellMonotone(Least(segment.a.0, segment.b.0), Greatest(segment.a.0, segment.b.0), cell);
    CellMonotone(Least(segment.a.1, segment.b.1), Greatest(segment.a.1, segment.b.1), cell);
    cells := before;
    for x := xLo to xHi + 1
      invariant Filing(segment, cell, before, cells, i, x, yLo)
    {
      for y := yLo to yHi + 1
        invariant Filing(segment, cell, before, cells, i, x, y)
      {
        cells := cells[(x, y) := At(cells, (x, y)) + [i]];
      }
    }
  }

  lemma FiledOneMore(segments: seq<Segment>, cell: real, before: Cells, cells: Cells, i: nat)
    requires cell > 0.0 && i < |segments| && Filed(segments, cell, before, i)
    requires forall k :: At(cells, k) == At(before, k) + (if Covers(segments[i], cell, k) then [i] else [])
    ensures Filed(segments, cell, cells, i + 1)
  {
    forall k ensures At(cells, k) == Members(segments, cell, k, i + 1) {
      assert At(before, k) == Members(segments, cell, k, i);
    }
  }

  method FileAll(segments: seq<Segment>, cell: real) returns (cells: Cells)
    requires cell > 0.0
    ensures Filed(segments, cell, cells, |segments|)
  {
    cells := map[];
    for i := 0 to |segments|
      invariant Filed(segments, cell, cells, i)
    {
      var before := cells;
      cells := FileSegment(segments[i], cell, before, i);
      FiledOneMore(segments, cell, before, cells, i);
    }
  }

  /** Test all pairs of one cell. */
  method ScanCell(
    segments: seq<Segment>, members: seq<nat>, intersects: (Segment, Segment) -> bool) returns (found: bool)
    requires forall k :: 0 <= k < |members| ==> members[k] < |segments|
    ensures found <==>
              exists i, j ::
                0 <= i < j < |members| && PairViolates(intersects, segments[members[i]], segments[members[j]])
  {
    for i := 0 to |members|
      invariant forall k, l :: 0 <= k < i && k < l < |members| ==>
                  !PairViolates(intersects, segments[members[k]], segments[members[l]])
    {
      for j := i + 1 to |members|
        invariant forall l :: i < l < j ==> !PairViolates(intersects, segments[members[i]], segments[members[l]])
      {
        if PairViolates(intersects, segments[members[i]], segments[members[j]]) {
          return true;
        }
      }
    }
    found := false;
  }

  /** No pair of segments filed under k violates. */
  ghost predicate CellClear(segments: seq<Segment>, cells: Cells, k: Key) {
    forall i: nat, j: nat :: i < j < |segments| && i in At(cells, k) && j in At(cells, k) ==>
      !Violates(segments[i], segments[j])
  }

  lemma ScannedIsClear(segments: seq<Segment>, cell: real, cells: Cells, k: Key)
    requires cell > 0.0 && Filed(segments, cell, cells, |segments|)
    requires var m := At(cells, k); forall i, j :: 0 <= i < j < |m| ==>
               m[i] < |segments| && m[j] < |segments| && !Violates(segments[m[i]], segments[m[j]])
    ensures CellClear(segments, cells, k)
  {
    var m := At(cells, k);
    assert m == Members(segments, cell, k, |segments|);
    forall i: nat, j: nat | i < j < |segments| && i in m && j in m ensures !Violates(segments[i], segments[j]) {
      var a :| 0 <= a < |m| && m[a] == i;
      var b :| 0 <= b < |m| && m[b] == j;
      assert a < b;
    }
  }

  lemma FiledWhereCovered(segments: seq<Segment>, cell: real, cells: Cells, k: Key, i: nat)
    requires cell > 0.0 && Filed(segments, cell, cells, |segments|) && i < |segments| && Covers(segments[i], cell, k)
    ensures k in cells && i in At(cells, k)
  {
    assert At(cells, k) == Members(segments, cell, k, |segments|);
  }

  lemma AllClear(point: Vertex -> Point, segments: seq<Segment>, cell: real, cells: Cells)
    requires cell > 0.0 && Filed(segments, cell, cells, |segments|)
    requires forall s :: s in segments ==> Projects(point, s)
    requires forall k :: k in cells ==> CellClear(segments, cells, k)
    ensures NoneViolates(segments)
  {
    forall i: nat, j: nat | i < j < |segments| ensures !Violates(segments[i], segments[j]) {
      if Violates(segments[i], segments[j]) {
        var k := ViolatingShareCell(point, segments[i], segments[j], cell);
        FiledWhereCovered(segments, cell, cells, k, i);
        FiledWhereCovered(segments, cell, cells, k, j);
      }
    }
  }

  /** Scan the cells, in any order, until one has a violating pair. */
  method ScanCells(
    point: Vertex -> Point, segments: seq<Segment>, cell: real, cells: Cells, intersects: (Segment, Segment) -> bool)
    returns (clear: bool)
    requires cell > 0.0 && Filed(segments, cell, cells, |segments|)
    requires forall s :: s in segments ==> Projects(point, s)
    requires Exact(intersects)
    ensures clear <==> NoneViolates(segments)
  {
    var keys := cells.Keys;
    while keys != {}
      invariant keys <= cells.Keys
      invariant forall k :: k in cells && k !in keys ==> CellClear(segments, cells, k)
    {
      var k :| k in keys;
      keys := keys - {k};
      assert At(cells, k) == Members(segments, cell, k, |segments|);
      assert forall i :: 0 <= i < |cells[k]| ==> cells[k][i] in cells[k];
      var found := ScanCell(segments, cells[k], intersects);
      if found {
        return false;
      }
      ScannedIsClear(segments, cell, cells, k);
    }
    AllClear(point, segments, cell, cells);
    clear := true;
  }

  // ---- The certificate ----

  function SegmentsOf(point: Vertex -> Point, boundary: seq<(Vertex, Vertex)>): (r: seq<Segment>)
    ensures |r| == |boundary|
    ensures forall i :: 0 <= i < |r| ==>
              r[i] == Segment(point(boundary[i].0), point(boundary[i].1), boundary[i].0, boundary[i].1)
  {
    seq(|boundary|, i requires 0 <= i < |boundary| =>
      Segment(point(boundary[i].0), point(boundary[i].1), boundary[i].0, boundary[i].1))
  }

  type Degrees = map<Vertex, nat>

  function DegreeIn(degree: Degrees, v: Vertex): nat {
    if v in degree then degree[v] else 0
  }

  function Increase(degree: Degrees, v: Vertex): Degrees {
    degree[v := DegreeIn(degree, v) + 1]
  }

  ghost predicate Counted(segments: seq<Segment>, degree: Degrees) {
    forall v {:trigger DegreeIn(degree, v)} :: DegreeOf(segments, v) == DegreeIn(degree, v)
  }

  /** Counting the ends of one more segment. */
  lemma CountNext(all: seq<Segment>, i: nat, degree: Degrees)
    requires i < |all| && Counted(all[..i], degree)
    ensures Counted(all[..i + 1], Increase(Increase(degree, all[i].va), all[i].vb))
  {
    assert all[..i + 1][..i] == all[..i];
    var twice := Increase(Increase(degree, all[i].va), all[i].vb);
    forall v ensures DegreeOf(all[..i + 1], v) == DegreeIn(twice, v) {
      assert DegreeOf(all[..i], v) == DegreeIn(degree, v);
    }
  }

  /** A vertex that is an end more than twice so far stays so. */
  lemma TooMany(all: seq<Segment>, i: nat, degree: Degrees)
    requires i < |all| && Counted(all[..i], degree)
    requires DegreeIn(Increase(degree, all[i].va), all[i].va) > 2 ||
             DegreeIn(Increase(Increase(degree, all[i].va), all[i].vb), all[i].vb) > 2
    ensures !PassesOnce(all)
  {
    CountNext(all, i, degree);
    var once := Increase(degree, all[i].va);
    var twice := Increase(once, all[i].vb);
    var v := if DegreeIn(once, all[i].va) > 2 then all[i].va else all[i].vb;
    assert DegreeIn(twice, v) > 2;
    DegreeGrows(all, i + 1, v);
  }

  /** Turn the halfedges into segments and count how often each vertex is an end; stops at a vertical
      segment or a vertex that is one more than twice. */
  method Collect(point: Vertex -> Point, boundary: seq<(Vertex, Vertex)>) returns (segments: seq<Segment>, ok: bool)
    ensures ok ==> segments == SegmentsOf(point, boundary)
    ensures ok <==> PassesOnce(SegmentsOf(point, boundary))
  {
    ghost var all := SegmentsOf(point, boundary);
    var degree: Degrees := map[];
    segments := [];
    for i := 0 to |boundary|
      invariant segments == all[..i]
      invariant Counted(all[..i], degree)
      invariant forall s :: s in all[..i] ==> s.a != s.b
      invariant forall v :: DegreeIn(degree, v) <= 2
    {
      var (va, vb) := boundary[i];
      var s := Segment(point(va), point(vb), va, vb);
      segments := segments + [s];
      assert s == all[i] && s in all && all[..i + 1] == all[..i] + [s];
      if s.a == s.b {
        return segments, false;
      }
      CountNext(all, i, degree);
      var once := Increase(degree, va);
      var twice := Increase(once, vb);
      if DegreeIn(once, va) > 2 || DegreeIn(twice, vb) > 2 {
        TooMany(all, i, degree);
        return segments, false;
      }
      assert forall v {:trigger DegreeIn(twice, v)} :: DegreeIn(degree, v) <= 2 ==> DegreeIn(twice, v) <= 2;
      degree := twice;
    }
    assert all[..|boundary|] == all;
    AllCounted(all, degree);
    ok := true;
  }

  lemma AllCounted(all: seq<Segment>, degree: Degrees)
    requires Counted(all, degree) && forall v :: DegreeIn(degree, v) <= 2
    requires forall s :: s in all ==> s.a != s.b
    ensures PassesOnce(all)
  {
    forall v ensures DegreeOf(all, v) <= 2 {
      assert DegreeIn(degree, v) <= 2;
    }
  }

  /** The certificate gives the answer of testing all pairs, whatever the cell size and whatever
      order the cells are scanned in. */
  method IsProjectionStrictlySimple(
    point: Vertex -> Point, boundary: seq<(Vertex, Vertex)>, cell: real, intersects: (Segment, Segment) -> bool)
    returns (simple: bool)
    requires cell > 0.0 && Exact(intersects)
    ensures simple <==> StrictlySimple(SegmentsOf(point, boundary))
    ensures simple <==> SimpleLoops(point, SegmentsOf(point, boundary))
  {
    StrictlySimpleIff(point, SegmentsOf(point, boundary));
    if boundary == [] {
      assert forall v :: DegreeOf(SegmentsOf(point, boundary), v) == 0;
      return true;
    }
    var segments, ok := Collect(point, boundary);
    if !ok {
      return false;
    }
    var cells := FileAll(segments, cell);
    simple := ScanCells(point, segments, cell, cells, intersects);
  }

  // ---- The verdict is about the set of boundary halfedges ----

  lemma CrossDotSwap(o: Point, p: Point, q: Point)
    ensures Orient(o, p, q) == -Orient(o, q, p) && Dot(Minus(p, o), Minus(q, o)) == Dot(Minus(q, o), Minus(p, o))
  {
  }

  /** Two segments with both ends in common, seen from either end. */
  lemma SameSegmentFolds(a: Point, b: Point)
    ensures Orient(a, b, b) == 0.0 && Orient(b, a, a) == 0.0 &&
              Dot(Minus(b, a), Minus(b, a)) == Dot(Minus(a, b), Minus(a, b))
  {
  }

  lemma ViolatesSymmetric(point: Vertex -> Point, s: Segment, t: Segment)
    requires Projects(point, s) && Projects(point, t) && s.a != s.b && t.a != t.b
    ensures Violates(s, t) <==> Violates(t, s)
  {
    if SharesVertex(s, t) {
      CrossDotSwap(s.a, s.b, t.a);
      CrossDotSwap(s.a, s.b, t.b);
      CrossDotSwap(s.b, s.a, t.a);
      CrossDotSwap(s.b, s.a, t.b);
      SameSegmentFolds(s.a, s.b);
    }
  }

  function EndsAt(s: Segment, v: Vertex): nat {
    (if s.va == v then 1 else 0) + (if s.vb == v then 1 else 0)
  }

  lemma {:induction false} DegreeWithout(segments: seq<Segment>, k: nat, v: Vertex)
    requires k < |segments|
    ensures DegreeOf(segments, v) == DegreeOf(Without(segments, k), v) + EndsAt(segments[k], v)
  {
    var n := |segments| - 1;
    if k == n {
      assert Without(segments, k) == segments[..n];
    } else {
      var rest := Without(segments, k);
      assert rest[|rest| - 1] == segments[n];
      assert rest[..|rest| - 1] == Without(segments[..n], k);
      DegreeWithout(segments[..n], k, v);
    }
  }

  lemma {:induction false} DegreeIgnoresOrder(segments: seq<Segment>, other: seq<Segment>, v: Vertex)
    requires multiset(segments) == multiset(other)
    ensures DegreeOf(segments, v) == DegreeOf(other, v)
    decreases |segments|
  {
    if segments == [] {
      assert |multiset(other)| == |other|;
    } else {
      var k := TakeOutLast(segments, other);
      DegreeWithout(other, k, v);
      DegreeIgnoresOrder(segments[..|segments| - 1], Without(other, k), v);
    }
  }

  /** Segments violate in no order if they do not in one. */
  lemma NoneViolatesIgnoresOrder(point: Vertex -> Point, segments: seq<Segment>, other: seq<Segment>)
    requires forall s :: s in segments ==> Projects(point, s) && s.a != s.b
    requires multiset(segments) == multiset(other) && NoneViolates(segments)
    ensures NoneViolates(other)
  {
    forall i, j | 0 <= i < j < |other| ensures !Violates(other[i], other[j]) {
      var k, l := PlacesOfBoth(segments, other, i, j);
      if l < k {
        ViolatesSymmetric(point, other[i], other[j]);
      }
    }
  }

  /** So the certificate gives one verdict on a boundary, in whatever order its halfedges are
      listed. */
  lemma VerdictIgnoresOrder(point: Vertex -> Point, boundary: seq<(Vertex, Vertex)>, other: seq<(Vertex, Vertex)>)
    requires multiset(boundary) == multiset(other)
    requires StrictlySimple(SegmentsOf(point, boundary))
    ensures StrictlySimple(SegmentsOf(point, other))
  {
    var s, t := SegmentsOf(point, boundary), SegmentsOf(point, other);
    SegmentsPermute(point, boundary, other);
    forall v ensures DegreeOf(t, v) <= 2 {
      DegreeIgnoresOrder(s, t, v);
    }
    forall x | x in t ensures x.a != x.b {
      assert x in multiset(s);
    }
    NoneViolatesIgnoresOrder(point, s, t);
  }

  lemma SegmentsPermute(
    point: Vertex -> Point, boundary: seq<(Vertex, Vertex)>, other: seq<(Vertex, Vertex)>)
    requires multiset(boundary) == multiset(other)
    ensures multiset(SegmentsOf(point, boundary)) == multiset(SegmentsOf(point, other))
  {
    var f := (e: (Vertex, Vertex)) => Segment(point(e.0), point(e.1), e.0, e.1);
    MappedPermute(f, boundary, other);
    assert SegmentsOf(point, boundary) == Mapped(f, boundary) && SegmentsOf(point, other) == Mapped(f, other);
  }
}
