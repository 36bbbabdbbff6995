// Products, squares and quotients of reals. Products are wrapped in functions, so that facts about
// them are used where they are named.
module Reals {

  function Scale(x: real, y: real): real {
    x * y
  }

  function Square(x: real): real {
    x * x
  }

  function Least(x: real, y: real): real {
    if y < x then y else x
  }

  function Greatest(x: real, y: real): real {
    if x < y then y else x
  }

  lemma Signs(x: real, y: real)
    ensures Scale(x, y) == 0.0 <==> x == 0.0 || y == 0.0
    ensures Scale(x, y) > 0.0 <==> (x > 0.0 && y > 0.0) || (x < 0.0 && y < 0.0)
  {
  }

  /** A fraction of d lies between 0 and d. */
  lemma ScaledWithin(u: real, d: real)
    requires 0.0 <= u <= 1.0
    ensures d >= 0.0 ==> 0.0 <= Scale(u, d) <= d
    ensures d <= 0.0 ==> d <= Scale(u, d) <= 0.0
  {
  }

  lemma Cancel(n: real, x: real, y: real)
    requires n > 0.0 && Scale(n, x) == Scale(n, y)
    ensures x == y
  {
    assert Scale(n, x - y) == 0.0;
  }

  lemma ScaleTwice(n: real, t: real, d: real)
    ensures Scale(n, Scale(t, d)) == Scale(Scale(n, t), d)
  {
  }

  lemma SquareMonotone(x: real, y: real)
    requires 0.0 <= x <= y
    ensures Square(x) <= Square(y)
    ensures x < y ==> Square(x) < Square(y)
  {
    assert y * y - x * x == (y - x) * (y + x);
    if x < y {
      Positive(y - x, y + x);
    }
  }

  lemma Positive(x: real, y: real)
    requires x > 0.0 && y > 0.0
    ensures x * y > 0.0
  {
  }

  lemma SquarePositive(x: real)
    ensures Square(x) >= 0.0 && (x != 0.0 ==> Square(x) > 0.0)
  {
    if x > 0.0 {
      SquareMonotone(0.0, x);
    } else {
      SquareMonotone(0.0, -x);
      assert x * x == (-x) * (-x);
    }
  }

  lemma QuotientMonotone(x: real, y: real, n: real)
    requires n > 0.0 && x <= y
    ensures x / n <= y / n
  {
  }

  lemma QuotientTimes(x: real, n: real)
    requires n > 0.0
    ensures Scale(n, x / n) == x
    ensures x / n >= 0.0 <==> x >= 0.0
  {
  }
}
