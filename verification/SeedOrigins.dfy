// Where seeds come from: every seed other than the destination's is a time carried across a seam
// (MultiRegionFloorfield::solve in libfloorfield/src/multi_region.rs).
module SeedOrigins {
  import opened Times
  import opened FastSweeping
  import opened Propagation

  /** Crossing q from region r accounts for cell c's seed: it is no earlier than what the near cell's
      time allows. */
  ghost predicate Accounts(w: World, l: Labels, r: nat, y: nat, q: Pair, c: nat)
    requires ValidWorld(w) && Shaped(w, l) && y < |w.grids| && c in l.seeds[y]
  {
    && Crosses(w, r, y, q) && q.far == c
    && q.near < Size(w.grids[r]) && l.fields[r].Some?
    && Le(Plus(l.fields[r].value[q.near], q.cross), Fin(l.seeds[y][c]))
  }

  ghost predicate Accounted(w: World, l: Labels, y: nat, c: nat)
    requires ValidWorld(w) && Shaped(w, l) && y < |w.grids| && c in l.seeds[y]
  {
    exists r: nat, q: Pair :: Accounts(w, l, r, y, q, c)
  }

  /** Some crossing accounts for every seed outside the destination. */
  ghost predicate Originated(w: World, dest: seq<seq<nat>>, l: Labels)
    requires ValidWorld(w) && ValidDestination(w, dest)
  {
    && Shaped(w, l)
    && forall y: nat, c: nat {:trigger Accounted(w, l, y, c)} ::
         y < |w.grids| && c in l.seeds[y] && c !in dest[y] ==> Accounted(w, l, y, c)
  }

  /** Lowered fields account for the same seeds all the more. */
  lemma LoweredFieldsAccount(w: World, dest: seq<seq<nat>>, l: Labels, l': Labels)
    requires ValidWorld(w) && ValidDestination(w, dest) && Originated(w, dest, l) && Shaped(w, l')
    requires LabelsLowered(w, l, l') && l'.seeds == l.seeds
    ensures Originated(w, dest, l')
  {
    forall y: nat, c: nat | y < |w.grids| && c in l'.seeds[y] && c !in dest[y] ensures Accounted(w, l', y, c) {
      assert Accounted(w, l, y, c);
      var r: nat, q: Pair :| Accounts(w, l, r, y, q, c);
      assert Accounts(w, l', r, y, q, c);
    }
  }

  /** A seed that is carried across is accounted for by the crossing that carried it. */
  lemma CarryAccounts(w: World, dest: seq<seq<nat>>, l: Labels, r: nat, s: nat, k: nat, l': Labels)
    requires ValidWorld(w) && ValidDestination(w, dest) && Originated(w, dest, l)
    requires r < |w.grids| && s in w.outSeams[r] && k < |w.seams[s].pairs| && l.fields[r].Some?
    requires l' == Carry(w, l, r, w.seams[s].to, w.seams[s].pairs[k])
    ensures Originated(w, dest, l')
  {
    var y0, q0 := w.seams[s].to, w.seams[s].pairs[k];
    assert Crosses(w, r, y0, q0);
    forall y: nat, c: nat | y < |w.grids| && c in l'.seeds[y] && c !in dest[y] ensures Accounted(w, l', y, c) {
      if c in l.seeds[y] && l'.seeds[y][c] == l.seeds[y][c] {
        assert Accounted(w, l, y, c);
        var x: nat, q: Pair :| Accounts(w, l, x, y, q, c);
        assert Accounts(w, l', x, y, q, c);
      } else {
        assert Accounts(w, l', r, y0, q0, c);
      }
    }
  }

  lemma SeamAccounts(w: World, dest: seq<seq<nat>>, l: Labels, r: nat, s: nat, k: nat, l': Labels)
    requires ValidWorld(w) && ValidDestination(w, dest) && Originated(w, dest, l)
    requires r < |w.grids| && s in w.outSeams[r] && k <= |w.seams[s].pairs| && l.fields[r].Some?
    requires l' == CarrySeam(w, l, r, s, k)
    ensures Originated(w, dest, l')
  {
    var cur := l;
    for i := 0 to k
      invariant Originated(w, dest, cur) && cur == CarrySeam(w, l, r, s, i)
    {
      var next := Carry(w, cur, r, w.seams[s].to, w.seams[s].pairs[i]);
      CarryAccounts(w, dest, cur, r, s, i, next);
      cur := next;
    }
  }

  lemma CrossOutAccounts(w: World, dest: seq<seq<nat>>, st: State, r: nat, k: nat, st': State)
    requires ValidWorld(w) && ValidDestination(w, dest) && ValidState(w, st) && Originated(w, dest, st.labels)
    requires r < |w.grids| && k <= |w.outSeams[r]| && st.labels.fields[r].Some? && st' == CrossOut(w, st, r, k)
    ensures Originated(w, dest, st'.labels)
  {
    var cur := st;
    for i := 0 to k
      invariant ValidState(w, cur) && Originated(w, dest, cur.labels) && cur == CrossOut(w, st, r, i)
    {
      var s := w.outSeams[r][i];
      var next := CrossOneSeam(w, cur, r, s);
      SeamAccounts(w, dest, cur.labels, r, s, |w.seams[s].pairs|, next.labels);
      cur := next;
    }
  }

  lemma StepAccounts(w: World, dest: seq<seq<nat>>, st: State, r: nat, st': State)
    requires ValidWorld(w) && ValidDestination(w, dest) && Inv(w, dest, st) && Step(w, st, r, st') &&
               Originated(w, dest, st.labels)
    ensures Originated(w, dest, st'.labels)
  {
    var solved :| StateInv(w, dest, st, solved);
    var field :| SolvedFrom(w.grids[r], st.labels.fields[r], st.labels.seeds[r], field) &&
      st' == CrossOut(w, WithField(st, r, field), r, |w.outSeams[r]|);
    var next := WithField(st, r, field);
    SolvedCold(w, dest, st.labels, solved, r, field);
    SolvedStaysLabelled(w, dest, st.labels, solved, r, field);
    LoweredFieldsAccount(w, dest, st.labels, next.labels);
    CrossOutAccounts(w, dest, next, r, |w.outSeams[r]|, st');
  }

  /** States up to k of the run account for their seeds. */
  ghost predicate AccountedUpTo(w: World, dest: seq<seq<nat>>, states: seq<State>, order: seq<nat>, k: nat)
    requires ValidWorld(w) && ValidDestination(w, dest)
  {
    KeptUpTo(w, dest, states, order, k) && Originated(w, dest, states[k].labels)
  }

  lemma AccountedOneMore(w: World, dest: seq<seq<nat>>, states: seq<State>, order: seq<nat>, k: nat)
    requires ValidWorld(w) && ValidDestination(w, dest) && AccountedUpTo(w, dest, states, order, k) && k < |order|
    ensures AccountedUpTo(w, dest, states, order, k + 1)
  {
    KeptOneMore(w, dest, states, order, k);
    assert StepOf(w, states, order, k);
    StepAccounts(w, dest, states[k], order[k], states[k + 1]);
  }

  lemma InitialAccounted(w: World, dest: seq<seq<nat>>, states: seq<State>, order: seq<nat>)
    requires ValidWorld(w) && ValidDestination(w, dest) && IsRun(w, dest, states, order)
    ensures AccountedUpTo(w, dest, states, order, 0)
  {
    KeptAtFirst(w, dest, states, order);
  }

  /** In every state of every run, some crossing accounts for every seed outside the destination. */
  lemma RunAccounts(w: World, dest: seq<seq<nat>>, states: seq<State>, order: seq<nat>, k: nat)
    requires ValidWorld(w) && ValidDestination(w, dest) && IsRun(w, dest, states, order) && k <= |order|
    ensures Originated(w, dest, states[k].labels)
  {
    InitialAccounted(w, dest, states, order);
    for i := 0 to k
      invariant AccountedUpTo(w, dest, states, order, i)
    {
      AccountedOneMore(w, dest, states, order, i);
    }
  }
}
