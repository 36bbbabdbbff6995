// The upwind Godunov update of the fast sweeping solver (libfloorfield/src/fsm.rs).
module Godunov {
  import opened Reals
  import opened Times

  /** What `f64::sqrt` provides, with the rounding taken away. Dafny's reals come without a
      square root, so the update takes it as a parameter. */
  ghost predicate IsSquareRoot(root: real -> real) {
    forall x :: x >= 0.0 ==> root(x) >= 0.0 && root(x) * root(x) == x
  }

  function Update(root: real -> real, a: Time, b: Time, cost: real): Time {
    var lo := Min(a, b);
    var hi := Max(a, b);
    var u1 := Plus(lo, cost);
    if Le(u1, hi) then
      u1
    else
      TwoSidedValue(root, a.t, b.t, cost)
  }

  function Discriminant(a: real, b: real, cost: real): real {
    2.0 * cost * cost - (a - b) * (a - b)
  }

  function TwoSidedValue(root: real -> real, a: real, b: real, cost: real): Time {
    Fin((a + b + root(Discriminant(a, b, cost))) / 2.0)
  }

  /** (u - a)+ : how far u lies above a; nothing lies above infinity. */
  function Excess(u: real, a: Time): real {
    if a.Fin? && a.t < u then u - a.t else 0.0
  }

  /** The left-hand side of the upwind equation (u-a)+^2 + (u-b)+^2 = cost^2. */
  function Upwind(u: real, a: Time, b: Time): real {
    Square(Excess(u, a)) + Square(Excess(u, b))
  }

  lemma HalfSquares(r: real, d: real)
    ensures Square((r + d) / 2.0) + Square((r - d) / 2.0) == (Square(r) + Square(d)) / 2.0
  {
    var p, m := (r + d) / 2.0, (r - d) / 2.0;
    assert r == p + m && d == p - m;
    assert Square(r) == p * p + 2.0 * (p * m) + m * m;
    assert Square(d) == p * p - 2.0 * (p * m) + m * m;
  }

  /** The quadratic's larger root, in coordinates relative to the lower neighbour: d is the gap
      between the two neighbours and r the square root of the discriminant. */
  lemma LargerRoot(r: real, d: real, cost: real)
    requires r >= 0.0 && 0.0 <= d < cost
    requires Square(r) == 2.0 * Square(cost) - Square(d)
    ensures r > d && (r + d) / 2.0 <= cost
    ensures Square((r + d) / 2.0) + Square((r - d) / 2.0) == Square(cost)
  {
    SquareMonotone(d, cost);
    if r <= d {
      SquareMonotone(r, d);
    }
    HalfSquares(r, d);
    if (r + d) / 2.0 > cost {
      SquareMonotone(cost, (r + d) / 2.0);
      SquarePositive((r - d) / 2.0);
    }
  }

  lemma DiscriminantInSquares(a: real, b: real, cost: real)
    requires 0.0 <= b - a < cost
    ensures Discriminant(a, b, cost) == Discriminant(b, a, cost) == 2.0 * Square(cost) - Square(b - a) >= 0.0
  {
    SquareMonotone(b - a, cost);
    assert (a - b) * (a - b) == (b - a) * (b - a);
    assert 2.0 * cost * cost == 2.0 * Square(cost);
  }

  /** In the two-sided branch the value lies strictly above the higher neighbour, and costs no
      more than coming from the lower one alone. */
  lemma TwoSided(root: real -> real, a: real, b: real, cost: real)
    requires IsSquareRoot(root) && cost > 0.0
    requires a <= b < a + cost
    ensures TwoSidedValue(root, a, b, cost) == TwoSidedValue(root, b, a, cost)
    ensures var u := TwoSidedValue(root, a, b, cost);
            b < u.t <= a + cost && Square(u.t - a) + Square(u.t - b) == Square(cost)
  {
    DiscriminantInSquares(a, b, cost);
    var r := root(Discriminant(a, b, cost));
    assert Square(r) == Discriminant(a, b, cost);
    LargerRoot(r, b - a, cost);
    var u := (a + b + r) / 2.0;
    assert u - a == (r + (b - a)) / 2.0 && u - b == (r - (b - a)) / 2.0;
  }

  /** The computed value solves the upwind equation, and reaches a cell exactly when one of its
      neighbours is reached. */
  lemma UpdateSolvesUpwind(root: real -> real, a: Time, b: Time, cost: real)
    requires IsSquareRoot(root) && cost > 0.0
    ensures var u := Update(root, a, b, cost);
            && (u.Inf? <==> a.Inf? && b.Inf?)
            && (u.Fin? ==> Upwind(u.t, a, b) == Square(cost))
            && Le(u, Plus(Min(a, b), cost))
  {
    if a.Fin? && b.Fin? {
      if a.t <= b.t < a.t + cost {
        TwoSided(root, a.t, b.t, cost);
      } else if b.t <= a.t < b.t + cost {
        TwoSided(root, b.t, a.t, cost);
      }
    }
  }

  /** The upwind sum grows with u, strictly once it is positive. */
  lemma UpwindIncreasing(u: real, w: real, a: Time, b: Time)
    requires u <= w
    ensures Upwind(u, a, b) <= Upwind(w, a, b)
    ensures u < w && Upwind(u, a, b) > 0.0 ==> Upwind(u, a, b) < Upwind(w, a, b)
  {
    SquareMonotone(Excess(u, a), Excess(w, a));
    SquareMonotone(Excess(u, b), Excess(w, b));
  }

  /** `Update` is the one solution of the upwind equation. */
  lemma UpdateIsTheSolution(root: real -> real, a: Time, b: Time, cost: real, w: real)
    requires IsSquareRoot(root) && cost > 0.0
    ensures Update(root, a, b, cost) == Fin(w) <==> Upwind(w, a, b) == Square(cost)
  {
    UpdateSolvesUpwind(root, a, b, cost);
    var u := Update(root, a, b, cost);
    SquarePositive(cost);
    if Upwind(w, a, b) == Square(cost) {
      assert u.Fin?;
      if w < u.t {
        UpwindIncreasing(w, u.t, a, b);
      } else {
        UpwindIncreasing(u.t, w, a, b);
      }
    }
  }

  /** Neighbours later by d make the value later by d. */
  lemma UpdateShifts(root: real -> real, a: Time, b: Time, cost: real, d: real)
    requires IsSquareRoot(root) && cost > 0.0
    ensures Update(root, Plus(a, d), Plus(b, d), cost) == Plus(Update(root, a, b, cost), d)
  {
    UpdateSolvesUpwind(root, a, b, cost);
    var u := Update(root, a, b, cost);
    if u.Fin? {
      assert Excess(u.t + d, Plus(a, d)) == Excess(u.t, a) && Excess(u.t + d, Plus(b, d)) == Excess(u.t, b);
      UpdateIsTheSolution(root, Plus(a, d), Plus(b, d), cost, u.t + d);
    }
  }

  /** Causality and monotonicity in one statement: a neighbour at or above the updated value has
      no part in it, so only neighbours strictly below can hold it up. */
  lemma UpdateCausal(root: real -> real, a: Time, b: Time, a': Time, b': Time, cost: real)
    requires IsSquareRoot(root) && cost > 0.0
    requires var u := Update(root, a, b, cost);
             (Lt(a, u) ==> Le(a', a)) && (Lt(b, u) ==> Le(b', b))
    ensures Le(Update(root, a', b', cost), Update(root, a, b, cost))
  {
    var u := Update(root, a, b, cost);
    var u' := Update(root, a', b', cost);
    UpdateSolvesUpwind(root, a, b, cost);
    UpdateSolvesUpwind(root, a', b', cost);
    if u.Fin? {
      SquareMonotone(Excess(u.t, a), Excess(u.t, a'));
      SquareMonotone(Excess(u.t, b), Excess(u.t, b'));
      SquarePositive(cost);
      if u'.Fin? && u.t < u'.t {
        UpwindIncreasing(u.t, u'.t, a', b');
      }
    }
  }

  /** The value lies strictly above every neighbour it uses: some neighbour is strictly lower. */
  lemma UpdateAboveLower(root: real -> real, a: Time, b: Time, cost: real)
    requires IsSquareRoot(root) && cost > 0.0
    ensures var u := Update(root, a, b, cost);
            u.Fin? ==> Lt(Min(a, b), u)
  {
    UpdateSolvesUpwind(root, a, b, cost);
    SquarePositive(cost);
  }
}
