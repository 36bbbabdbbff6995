// The neighbourhood grid and its range queries (libsimulator/src/neighborhood_search.hpp).
module Neighborhood {
  import opened Sequences
  import opened Reals
  import opened Plane

  type Index = (int, int)

  /** What the grid holds of an agent: a reference to it, seen as its id and position. */
  datatype Item = Item(id: nat, position: Point)

  /** Conversion to an integer type: truncation towards zero. */
  function Truncate(x: real): int {
    if x >= 0.0 then x.Floor else -((-x).Floor)
  }

  function Ceiling(x: real): int {
    -((-x).Floor)
  }

  /** q lies on the disc of the given radius around p. */
  ghost predicate OnDisc(p: Point, radius: real, q: Point) {
    Square(q.0 - p.0) + Square(q.1 - p.1) <= Square(radius)
  }

  // ---- Why the searched block is wide enough ----

  /** Truncation moves two coordinates apart by no more than their distance rounded up, even
      across zero, where it rounds in opposite directions. */
  lemma TruncateIsClose(x: real, y: real, r: real)
    requires r >= 0.0 && -r <= x - y <= r
    ensures -Ceiling(r) <= Truncate(x) - Truncate(y) <= Ceiling(r)
  {
  }

  lemma InRangeAxis(d: real, e: real, r: real)
    requires r >= 0.0 && Square(d) + Square(e) <= r * r
    ensures -r <= d <= r
  {
    var a, b := if d >= 0.0 then d else -d, if e >= 0.0 then e else -e;
    assert Square(a) == Square(d);
    SquareMonotone(0.0, b);
    assert Square(b) == Square(e);
    assert Square(r) == r * r;
    if a > r {
      SquareMonotone(r, a);
    }
  }

  lemma DivideRange(d: real, r: real, cell: real)
    requires cell > 0.0 && -r <= d <= r
    ensures -(r / cell) <= d / cell <= r / cell
  {
  }

  /** Coordinates within r of each other fall into cells at most r / cell, rounded up, apart. */
  lemma CellsAreClose(x: real, y: real, r: real, cell: real)
    requires cell > 0.0 && r >= 0.0 && -r <= x - y <= r
    ensures -Ceiling(r / cell) <= Truncate(x / cell) - Truncate(y / cell) <= Ceiling(r / cell)
  {
    DivideRange(x - y, r, cell);
    DivideDifference(x, y, cell);
    TruncateIsClose(x / cell, y / cell, r / cell);
  }

  lemma DivideDifference(x: real, y: real, cell: real)
    requires cell > 0.0
    ensures (x - y) / cell == x / cell - y / cell
  {
  }

  lemma AxisCounts(x: real, cell: real, i: int)
    requires cell > 0.0
    ensures x >= 0.0 ==> (Truncate(x / cell) == i <==> Scale(i as real, cell) <= x < Scale((i + 1) as real, cell))
    ensures x < 0.0 ==> (Truncate(x / cell) == i <==> Scale((i - 1) as real, cell) < x <= Scale(i as real, cell))
  {
    var y := x / cell;
    QuotientTimes(x, cell);
    assert Scale(y, cell) == x;
    Compare(i as real, y, cell);
    Compare(y, (i + 1) as real, cell);
    Compare((i - 1) as real, y, cell);
    Compare(y, i as real, cell);
    Compare((i + 1) as real, y, cell);
    Compare(y, (i - 1) as real, cell);
  }

  lemma Compare(x: real, y: real, h: real)
    requires h > 0.0
    ensures x <= y <==> Scale(x, h) <= Scale(y, h)
  {
    Signs(h, y - x);
    assert Scale(h, y - x) == Scale(y, h) - Scale(x, h);
  }

  class NeighborhoodSearch {
    const cellSize: real
    var grid: map<Index, seq<Item>>
    ghost var items: seq<Item>

    function GetIndex(p: Point): Index
      requires cellSize > 0.0
    {
      (Truncate(p.0 / cellSize), Truncate(p.1 / cellSize))
    }

    /** An index counts whole cells away from zero, on either side of it. */
    lemma IndexCounts(p: Point, i: int)
      requires cellSize > 0.0
      ensures GetIndex(p).0 == i <==> CountsCells(p.0, i)
      ensures GetIndex(p).1 == i <==> CountsCells(p.1, i)
    {
      AxisCounts(p.0, cellSize, i);
      AxisCounts(p.1, cellSize, i);
    }

    ghost predicate CountsCells(x: real, i: int) {
      if x >= 0.0 then Scale(i as real, cellSize) <= x < Scale((i + 1) as real, cellSize)
      else Scale((i - 1) as real, cellSize) < x <= Scale(i as real, cellSize)
    }

    /** Every item is filed under the index of its position, once, and nothing else is filed. */
    ghost predicate Valid()
      reads this
    {
      && cellSize > 0.0
      && NoDuplicates(items)
      && (forall x :: x in items ==> GetIndex(x.position) in grid)
      && forall c :: c in grid ==>
           NoDuplicates(grid[c]) && forall x :: x in grid[c] <==> x in items && GetIndex(x.position) == c
    }

    constructor (cellSize: real)
      requires cellSize > 0.0
      ensures Valid() && items == [] && this.cellSize == cellSize
    {
      this.cellSize := cellSize;
      grid := map[];
      items := [];
    }

    method AddAgent(item: Item)
      requires Valid() && item !in items
      modifies this
      ensures Valid() && items == old(items) + [item]
    {
      var index := GetIndex(item.position);
      var cell := if index in grid then grid[index] else [];
      grid := grid[index := cell + [item]];
      items := items + [item];
    }

    method Update(all: seq<Item>)
      requires cellSize > 0.0 && NoDuplicates(all)
      modifies this
      ensures Valid() && items == all
    {
      grid := map[];
      items := [];
      for i := 0 to |all|
        invariant Valid() && items == all[..i]
      {
        AddAgent(all[i]);
      }
    }

    predicate Near(p: Point, radius: real, x: Item) {
      DistanceSquared(x.position, p) <= radius * radius
    }

    /** The scan of the block around `centre`, column by column, has passed cell c when it stands
        at column x and row y. */
    ghost predicate Passed(centre: Index, offset: int, x: int, y: int, c: Index) {
      && centre.0 - offset <= c.0 && centre.1 - offset <= c.1 <= centre.1 + offset
      && (c.0 < x || (c.0 == x && c.1 < y))
    }

    /** `found` are the near items in the cells passed, each once. */
    ghost predicate FoundSoFar(p: Point, radius: real, offset: int, x: int, y: int, found: seq<Item>)
      requires cellSize > 0.0
      reads this
    {
      && NoDuplicates(found)
      && forall i :: i in found <==>
           i in items && Near(p, radius, i) && Passed(GetIndex(p), offset, x, y, GetIndex(i.position))
    }

    lemma ScanCell(p: Point, radius: real, offset: int, x: int, y: int, found: seq<Item>, hits: seq<Item>)
      requires Valid() && FoundSoFar(p, radius, offset, x, y, found)
      requires GetIndex(p).0 - offset <= x && GetIndex(p).1 - offset <= y <= GetIndex(p).1 + offset
      requires hits == if (x, y) in grid then Filter(grid[(x, y)], i => Near(p, radius, i)) else []
      ensures FoundSoFar(p, radius, offset, x, y + 1, found + hits)
    {
      if (x, y) in grid {
        FilterNoDuplicates(grid[(x, y)], i => Near(p, radius, i));
      }
      NoDuplicatesConcat(found, hits);
      forall i | i in items && GetIndex(i.position) == (x, y) ensures i in hits <==> Near(p, radius, i) {
      }
    }

    lemma NextColumn(p: Point, radius: real, offset: int, x: int, found: seq<Item>)
      requires Valid() && FoundSoFar(p, radius, offset, x, GetIndex(p).1 + offset + 1, found)
      ensures FoundSoFar(p, radius, offset, x + 1, GetIndex(p).1 - offset, found)
    {
    }

    /** Every near item lies in the block. */
    lemma NearIsInBlock(p: Point, radius: real, i: Item)
      requires cellSize > 0.0 && radius >= 0.0 && Near(p, radius, i)
      ensures var offset := Ceiling(radius / cellSize);
              var c, centre := GetIndex(i.position), GetIndex(p);
              -offset <= c.0 - centre.0 <= offset && -offset <= c.1 - centre.1 <= offset
    {
      InRangeAxis(i.position.0 - p.0, i.position.1 - p.1, radius);
      InRangeAxis(i.position.1 - p.1, i.position.0 - p.0, radius);
      CellsAreClose(i.position.0, p.0, radius, cellSize);
      CellsAreClose(i.position.1, p.1, radius, cellSize);
    }

    /** The items within `radius` of `p`: exactly what testing every item would find, each once. */
    method InRange(p: Point, radius: real) returns (found: seq<Item>)
      requires Valid()
      ensures NoDuplicates(found)
      ensures forall i :: i in found ==> i in items && OnDisc(p, radius, i.position)
      ensures radius >= 0.0 ==> forall i :: i in items && OnDisc(p, radius, i.position) ==> i in found
    {
      var centre := GetIndex(p);
      var offset := Ceiling(radius / cellSize);
      found := [];
      var x := centre.0 - offset;
      while x <= centre.0 + offset
        invariant centre.0 - offset <= x
        invariant offset >= 0 ==> x <= centre.0 + offset + 1
        invariant FoundSoFar(p, radius, offset, x, centre.1 - offset, found)
      {
        var y := centre.1 - offset;
        while y <= centre.1 + offset
          invariant centre.1 - offset <= y <= centre.1 + offset + 1
          invariant FoundSoFar(p, radius, offset, x, y, found)
        {
          var hits := if (x, y) in grid then Filter(grid[(x, y)], i => Near(p, radius, i)) else [];
          ScanCell(p, radius, offset, x, y, found, hits);
          found := found + hits;
          y := y + 1;
        }
        NextColumn(p, radius, offset, x, found);
        x := x + 1;
      }
      if radius >= 0.0 {
        forall i | i in items && OnDisc(p, radius, i.position) ensures i in found {
          NearIsInBlock(p, radius, i);
        }
      }
    }
  }
}
