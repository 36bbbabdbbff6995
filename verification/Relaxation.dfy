// Relaxing a field of arrival times under a causal operator, one cell at a time and in any
// order: when it ends, and what it ends with. The sweeps of libfloorfield/src/fsm.rs are such a
// relaxation; its Godunov update is the operator.
module Relaxation {
  import opened Times

  type Field = seq<Time>

  /** `up(u, c)` is the time that field u offers cell c. Only cells in `free` are ever offered
      a finite time; the others are obstacles. */
  datatype Problem = Problem(size: nat, free: set<nat>, up: (Field, nat) -> Time)

  ghost predicate Below(u: Field, v: Field) {
    |u| == |v| && forall c :: 0 <= c < |u| ==> Le(u[c], v[c])
  }

  /** No cell of u that is strictly before t is later in v. */
  ghost predicate KeepsEarlier(u: Field, v: Field, t: Time) {
    |u| == |v| && forall n :: 0 <= n < |u| && Lt(u[n], t) ==> Le(v[n], u[n])
  }

  /** Causality: an offer rests on strictly earlier cells only, and does not get later unless one
      of those does. (In particular the operator is monotone.) */
  ghost predicate Causal(p: Problem) {
    forall u: Field, v: Field, c: nat {:trigger KeepsEarlier(u, v, p.up(u, c))} ::
      |u| == p.size && c < p.size && KeepsEarlier(u, v, p.up(u, c)) ==> Le(p.up(v, c), p.up(u, c))
  }

  ghost predicate ValidProblem(p: Problem) {
    && Causal(p)
    && (forall c :: c in p.free ==> c < p.size)
    && (forall u: Field, c: nat :: c !in p.free ==> p.up(u, c) == Inf)
  }

  lemma ByCausality(p: Problem, u: Field, v: Field, c: nat)
    requires ValidProblem(p) && |u| == p.size && c < p.size
    requires KeepsEarlier(u, v, p.up(u, c))
    ensures Le(p.up(v, c), p.up(u, c))
  {
  }

  // ---- Relaxing cells one at a time ----

  ghost function Relax(p: Problem, u: Field, c: nat): (r: Field)
    requires c < |u|
  {
    if Lt(p.up(u, c), u[c]) then u[c := p.up(u, c)] else u
  }

  ghost predicate IsOrder(order: seq<nat>, size: nat) {
    forall k :: 0 <= k < |order| ==> order[k] < size
  }

  /** `u` after relaxing the first k cells of `order`, each from the values then current. */
  ghost function RelaxFirst(p: Problem, u: Field, order: seq<nat>, k: nat): (r: Field)
    requires IsOrder(order, |u|) && k <= |order|
    ensures Below(r, u)
  {
    if k == 0 then u else Relax(p, RelaxFirst(p, u, order, k - 1), order[k - 1])
  }

  ghost function Pass(p: Problem, u: Field, order: seq<nat>): (r: Field)
    requires IsOrder(order, |u|)
    ensures Below(r, u)
  {
    RelaxFirst(p, u, order, |order|)
  }

  /** No free cell is later than what the field offers it. */
  ghost predicate SubSolution(p: Problem, u: Field) {
    |u| == p.size && forall c :: 0 <= c < |u| ==> Le(u[c], p.up(u, c))
  }

  /** No order of relaxations undercuts a subsolution that lies below the field. */
  lemma {:induction false} RelaxStaysAbove(p: Problem, v: Field, u: Field, order: seq<nat>, k: nat)
    requires ValidProblem(p) && SubSolution(p, v) && Below(v, u)
    requires IsOrder(order, |u|) && k <= |order|
    ensures Below(v, RelaxFirst(p, u, order, k))
  {
    if k > 0 {
      RelaxStaysAbove(p, v, u, order, k - 1);
      ByCausality(p, RelaxFirst(p, u, order, k - 1), v, order[k - 1]);
    }
  }

  /** A pass that ends where it began relaxed nothing on the way. */
  lemma {:induction false} UnchangedPass(p: Problem, u: Field, order: seq<nat>, k: nat)
    requires IsOrder(order, |u|) && k <= |order|
    requires RelaxFirst(p, u, order, k) == u
    ensures forall q :: 0 <= q < k ==> Le(u[order[q]], p.up(u, order[q]))
  {
    if k > 0 {
      var w := RelaxFirst(p, u, order, k - 1);
      assert Below(w, u) && Below(u, w);
      assert w == u;
      UnchangedPass(p, u, order, k - 1);
    }
  }

  lemma BelowTransitive(u: Field, v: Field, w: Field)
    requires Below(u, v) && Below(v, w)
    ensures Below(u, w)
  {
    forall c | 0 <= c < |u| ensures Le(u[c], w[c]) {
      assert Le(u[c], v[c]) && Le(v[c], w[c]);
    }
  }

  lemma BelowAntisymmetric(u: Field, v: Field)
    requires Below(u, v) && Below(v, u)
    ensures u == v
  {
    assert forall c :: 0 <= c < |u| ==> Le(u[c], v[c]) && Le(v[c], u[c]);
  }

  /** An order that visits every free cell. */
  ghost predicate Covers(order: seq<nat>, free: set<nat>) {
    forall c :: c in free ==> c in order
  }

  /** A pass over all free cells changes nothing exactly when there is nothing to relax. */
  lemma UnchangedIffSubSolution(p: Problem, u: Field, order: seq<nat>)
    requires ValidProblem(p) && |u| == p.size && IsOrder(order, p.size) && Covers(order, p.free)
    ensures Pass(p, u, order) == u <==> SubSolution(p, u)
  {
    if Pass(p, u, order) == u {
      UnchangedPass(p, u, order, |order|);
      forall c | 0 <= c < |u| ensures Le(u[c], p.up(u, c)) {
        if c in p.free {
          assert c in order;
        }
      }
    }
    if SubSolution(p, u) {
      RelaxStaysAbove(p, u, u, order, |order|);
      BelowAntisymmetric(u, Pass(p, u, order));
    }
  }

  // ---- Settled cells: why relaxation ends ----

  /** `u` with every free cell outside `s` raised to infinity. */
  ghost function Frozen(p: Problem, u: Field, s: set<nat>): (r: Field)
    ensures |r| == |u|
    ensures forall n :: 0 <= n < |u| ==> r[n] == if n in s || n !in p.free then u[n] else Inf
  {
    seq(|u|, n requires 0 <= n < |u| => if n in s || n !in p.free then u[n] else Inf)
  }

  /** Settled cells are no later than unsettled ones, and no later than anything that settled
      cells can still offer to an unsettled cell or to themselves. */
  ghost predicate Settled(p: Problem, u: Field, s: set<nat>) {
    && |u| == p.size
    && s <= p.free
    && (forall c :: c in p.free ==> c < |u|)
    && (forall x, c :: x in s && c in p.free && c !in s ==> Le(u[x], u[c]))
    && (forall x, c :: x in s && c in p.free && (c !in s || c == x) ==> Le(u[x], p.up(Frozen(p, u, s), c)))
  }

  /** An offer that no unsettled cell undercuts is made by settled cells and obstacles alone. */
  lemma LowOfferIsFrozen(p: Problem, u: Field, s: set<nat>, c: nat, m: Time)
    requires ValidProblem(p) && |u| == p.size && c < p.size
    requires forall n :: n in p.free && n !in s ==> Le(m, u[n])
    requires Lt(p.up(u, c), m)
    ensures Lt(p.up(Frozen(p, u, s), c), m)
  {
    ByCausality(p, u, Frozen(p, u, s), c);
  }

  /** No relaxation touches a settled cell or undercuts one. */
  lemma OfferAboveSettled(p: Problem, u: Field, s: set<nat>, x: nat, c: nat)
    requires ValidProblem(p) && Settled(p, u, s)
    requires x in s && c in p.free && (c !in s || c == x)
    ensures Le(u[x], p.up(u, c))
  {
    if Lt(p.up(u, c), u[x]) {
      LowOfferIsFrozen(p, u, s, c, u[x]);
    }
  }

  /** Relaxing a cell leaves the settled ones as they are, and brings the cell down to what the
      settled cells offer it. */
  lemma RelaxKeepsSettled(p: Problem, u: Field, s: set<nat>, c: nat)
    requires ValidProblem(p) && Settled(p, u, s) && c < p.size
    ensures Settled(p, Relax(p, u, c), s)
    ensures Frozen(p, Relax(p, u, c), s) == Frozen(p, u, s)
    ensures Le(Relax(p, u, c)[c], p.up(Frozen(p, u, s), c))
  {
    ByCausality(p, Frozen(p, u, s), u, c);
    if Lt(p.up(u, c), u[c]) {
      forall x | x in s && (c !in s || c == x) ensures Le(u[x], p.up(u, c)) {
        OfferAboveSettled(p, u, s, x, c);
      }
      assert Frozen(p, u[c := p.up(u, c)], s) == Frozen(p, u, s);
    }
  }

  /** The first k cells of `order` are down to what `frozen` offers them. */
  ghost predicate DownTo(p: Problem, u: Field, frozen: Field, order: seq<nat>, k: nat)
    requires IsOrder(order, |u|) && k <= |order|
  {
    forall q :: 0 <= q < k ==> Le(u[order[q]], p.up(frozen, order[q]))
  }

  lemma DownToStep(p: Problem, u: Field, v: Field, frozen: Field, order: seq<nat>, k: nat)
    requires IsOrder(order, |u|) && k < |order|
    requires DownTo(p, u, frozen, order, k) && Below(v, u)
    requires Le(v[order[k]], p.up(frozen, order[k]))
    ensures DownTo(p, v, frozen, order, k + 1)
  {
    forall q | 0 <= q < k ensures Le(v[order[q]], p.up(frozen, order[q])) {
      assert Le(v[order[q]], u[order[q]]);
    }
  }

  /** Relaxing on from u to v keeps what is settled, and the first k cells are down to what the settled
      cells offer them. */
  ghost predicate KeepsSettled(p: Problem, u: Field, v: Field, s: set<nat>, order: seq<nat>, k: nat)
    requires ValidProblem(p) && Settled(p, u, s) && IsOrder(order, |u|) && k <= |order|
  {
    && |v| == |u| && Settled(p, v, s) && Frozen(p, v, s) == Frozen(p, u, s)
    && DownTo(p, v, Frozen(p, u, s), order, k)
  }

  lemma PassKeepsSettled(p: Problem, u: Field, s: set<nat>, order: seq<nat>, k: nat)
    requires ValidProblem(p) && Settled(p, u, s)
    requires IsOrder(order, |u|) && k <= |order|
    ensures KeepsSettled(p, u, RelaxFirst(p, u, order, k), s, order, k)
  {
    for i := 0 to k
      invariant KeepsSettled(p, u, RelaxFirst(p, u, order, i), s, order, i)
    {
      RelaxedToo(p, u, RelaxFirst(p, u, order, i), s, order, i, RelaxFirst(p, u, order, i + 1));
    }
  }

  lemma RelaxedToo(p: Problem, u: Field, v: Field, s: set<nat>, order: seq<nat>, k: nat, v': Field)
    requires ValidProblem(p) && Settled(p, u, s) && IsOrder(order, |u|) && k < |order|
    requires KeepsSettled(p, u, v, s, order, k) && v' == Relax(p, v, order[k])
    ensures KeepsSettled(p, u, v', s, order, k + 1)
  {
    RelaxKeepsSettled(p, v, s, order[k]);
    DownToStep(p, v, v', Frozen(p, u, s), order, k);
  }

  lemma EarliestCell(u: Field, cells: set<nat>) returns (d: nat)
    requires cells != {} && forall c :: c in cells ==> c < |u|
    ensures d in cells && forall c :: c in cells ==> Le(u[d], u[c])
  {
    d :| d in cells;
    if cells != {d} {
      var e := EarliestCell(u, cells - {d});
      if Lt(u[e], u[d]) {
        d := e;
      }
    }
  }

  /** Once every free cell is down to what settled cells offer, the earliest unsettled cell is
      settled too. */
  lemma SettleOneMore(p: Problem, u: Field, s: set<nat>) returns (d: nat)
    requires ValidProblem(p) && Settled(p, u, s) && s != p.free
    requires forall c :: c in p.free ==> Le(u[c], p.up(Frozen(p, u, s), c))
    ensures d in p.free && d !in s && Settled(p, u, s + {d})
  {
    d := EarliestCell(u, p.free - s);
    var s' := s + {d};
    forall x, c | x in s' && c in p.free && (c !in s' || c == x)
      ensures Le(u[x], p.up(Frozen(p, u, s'), c))
    {
      if Lt(p.up(Frozen(p, u, s'), c), u[x]) {
        ByCausality(p, Frozen(p, u, s'), Frozen(p, u, s), c);
      }
    }
  }

  /** At least n free cells, or all of them, are settled. */
  ghost predicate SettledAtLeast(p: Problem, u: Field, n: nat) {
    exists s :: Settled(p, u, s) && (s == p.free || |s| >= n)
  }

  lemma SettledAtLeastZero(p: Problem, u: Field)
    requires ValidProblem(p) && |u| == p.size
    ensures SettledAtLeast(p, u, 0)
  {
    assert Settled(p, u, {});
  }

  /** One pass that visits every free cell settles at least one more, from any field. */
  lemma PassSettlesOneMore(p: Problem, u: Field, order: seq<nat>, n: nat)
    requires ValidProblem(p) && SettledAtLeast(p, u, n)
    requires IsOrder(order, |u|) && Covers(order, p.free)
    ensures SettledAtLeast(p, Pass(p, u, order), n + 1)
  {
    var s :| Settled(p, u, s) && (s == p.free || |s| >= n);
    PassKeepsSettled(p, u, s, order, |order|);
    if s != p.free {
      forall c | c in p.free ensures Le(Pass(p, u, order)[c], p.up(Frozen(p, u, s), c)) {
        var q :| 0 <= q < |order| && order[q] == c;
      }
      var d := SettleOneMore(p, Pass(p, u, order), s);
      assert |s + {d}| == |s| + 1;
    }
  }

  /** When every free cell is settled, relaxation has nothing left to do. */
  lemma AllSettled(p: Problem, u: Field)
    requires ValidProblem(p) && Settled(p, u, p.free)
    ensures SubSolution(p, u)
  {
    forall c | 0 <= c < |u| ensures Le(u[c], p.up(u, c)) {
      if c in p.free {
        OfferAboveSettled(p, u, p.free, c, c);
      }
    }
  }

  // ---- The result ----

  /** The greatest subsolution below the starting times. */
  ghost predicate Solves(p: Problem, start: Field, u: Field) {
    && SubSolution(p, u)
    && Below(u, start)
    && forall v :: SubSolution(p, v) && Below(v, start) ==> Below(v, u)
  }

  /** Every cell holds its starting time or what the field offers it, whichever is lower. */
  ghost predicate Equation(p: Problem, start: Field, u: Field) {
    |u| == |start| == p.size &&
    forall c :: 0 <= c < |u| ==> u[c] == Min(start[c], p.up(u, c))
  }

  /** Raising one cell of the greatest subsolution to what the equation asks of it gives a
      subsolution again, so it was there already. */
  lemma GreatestSolvesEquation(p: Problem, start: Field, u: Field)
    requires ValidProblem(p) && |start| == p.size && Solves(p, start, u)
    ensures Equation(p, start, u)
  {
    forall c | 0 <= c < |u| ensures u[c] == Min(start[c], p.up(u, c)) {
      var t := Min(start[c], p.up(u, c));
      assert Le(u[c], t);
      var v := u[c := t];
      forall n | 0 <= n < |v| ensures Le(v[n], p.up(v, n)) {
        ByCausality(p, v, u, n);
      }
      assert SubSolution(p, v) && Below(v, start);
      assert Le(v[c], u[c]);
    }
  }

  /** The equation has only one solution: on the earliest cell where a subsolution is later, all
      that the offer rests on is strictly earlier still. */
  lemma EquationIsGreatest(p: Problem, start: Field, u: Field)
    requires ValidProblem(p) && Equation(p, start, u)
    ensures Solves(p, start, u)
  {
    forall v | SubSolution(p, v) && Below(v, start) ensures Below(v, u) {
      SubSolutionsStayBelow(p, start, u, v);
    }
  }

  lemma SubSolutionsStayBelow(p: Problem, start: Field, u: Field, v: Field)
    requires ValidProblem(p) && Equation(p, start, u)
    requires SubSolution(p, v) && Below(v, start)
    ensures Below(v, u)
  {
    var later := set c | 0 <= c < |u| && Lt(u[c], v[c]);
    if later != {} {
      var d := EarliestCell(u, later);
      assert u[d] == Min(start[d], p.up(u, d)) && Le(v[d], start[d]);
      assert KeepsEarlier(u, v, p.up(u, d)) by {
        forall n | 0 <= n < |u| && Lt(u[n], p.up(u, d)) ensures Le(v[n], u[n]) {
          assert n !in later;
        }
      }
      ByCausality(p, u, v, d);
      assert false;
    }
    forall c | 0 <= c < |u| ensures Le(v[c], u[c]) {
      assert c !in later;
    }
  }

  lemma SolvesIffEquation(p: Problem, start: Field, u: Field)
    requires ValidProblem(p) && |start| == p.size
    ensures Solves(p, start, u) <==> Equation(p, start, u)
  {
    if Solves(p, start, u) {
      GreatestSolvesEquation(p, start, u);
    }
    if Equation(p, start, u) {
      EquationIsGreatest(p, start, u);
    }
  }

  /** A field reached by relaxing, hence above all subsolutions below the start, that is itself a
      subsolution is the solution. */
  ghost predicate AboveSubSolutions(p: Problem, start: Field, u: Field) {
    |u| == |start| && Below(u, start) &&
    forall v :: SubSolution(p, v) && Below(v, start) ==> Below(v, u)
  }

  lemma StartIsAbove(p: Problem, start: Field)
    ensures AboveSubSolutions(p, start, start)
  {
  }

  lemma PassStaysAbove(p: Problem, start: Field, u: Field, order: seq<nat>)
    requires ValidProblem(p) && AboveSubSolutions(p, start, u) && IsOrder(order, |u|)
    ensures AboveSubSolutions(p, start, Pass(p, u, order))
  {
    BelowTransitive(Pass(p, u, order), u, start);
    forall v | SubSolution(p, v) && Below(v, start) ensures Below(v, Pass(p, u, order)) {
      RelaxStaysAbove(p, v, u, order, |order|);
    }
  }

  /** Once as many free cells are settled as there are, nothing is left to relax. */
  lemma EnoughSettled(p: Problem, u: Field, n: nat)
    requires ValidProblem(p) && SettledAtLeast(p, u, n) && n >= |p.free|
    ensures SubSolution(p, u)
  {
    var s :| Settled(p, u, s) && (s == p.free || |s| >= n);
    if s != p.free {
      CardinalityOfSubset(s, p.free);
    }
    AllSettled(p, u);
  }

  lemma CardinalityOfSubset<T>(s: set<T>, t: set<T>)
    requires s < t
    ensures |s| < |t|
  {
    assert t == s + (t - s);
    assert t - s != {};
  }
}
