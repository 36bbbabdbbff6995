// Why label-correcting propagation ends even without its budget: a seed is replaced only by one that
// is earlier by more than EPS (MultiRegionFloorfield::solve in libfloorfield/src/multi_region.rs).
module PropagationEnds {
  import opened Times
  import opened Relaxation
  import opened FastSweeping
  import opened Propagation

  // ---- How much earlier times can still get ----

  /** A time in whole units of EPS. */
  function UnitsOf(t: Time): nat {
    if t.Fin? && t.t >= 0.0 then (t.t / EPS).Floor else 0
  }

  function CountInf(u: Field): nat {
    if u == [] then 0 else CountInf(u[..|u| - 1]) + (if u[|u| - 1].Inf? then 1 else 0)
  }

  function CountUnits(u: Field): nat {
    if u == [] then 0 else CountUnits(u[..|u| - 1]) + UnitsOf(u[|u| - 1])
  }

  predicate NotNegative(u: Field) {
    forall c :: 0 <= c < |u| ==> Le(Fin(0.0), u[c])
  }

  /** From infinite to finite, or earlier by more than EPS. */
  predicate Drops(before: Time, after: Time) {
    after.Fin? && (before.Fin? ==> after.t < before.t - EPS)
  }

  lemma UnitsMonotone(before: Time, after: Time)
    requires Le(Fin(0.0), after) && Le(after, before)
    ensures before.Fin? ==> UnitsOf(after) <= UnitsOf(before)
    ensures before.Fin? && Drops(before, after) ==> UnitsOf(after) < UnitsOf(before)
  {
  }

  /** In times that only get earlier, there are fewer infinite ones, or as many and fewer units. */
  predicate Fewer(infs: nat, units: nat, infs': nat, units': nat) {
    infs' < infs || (infs' == infs && units' < units)
  }

  predicate NotMore(infs: nat, units: nat, infs': nat, units': nat) {
    infs' < infs || (infs' == infs && units' <= units)
  }

  lemma {:induction false} FieldGetsEarlier(u: Field, u': Field, i: nat)
    requires |u'| == |u| && Below(u', u) && NotNegative(u')
    ensures NotMore(CountInf(u), CountUnits(u), CountInf(u'), CountUnits(u'))
    ensures i < |u| && Drops(u[i], u'[i]) ==> Fewer(CountInf(u), CountUnits(u), CountInf(u'), CountUnits(u'))
    decreases |u|
  {
    if u != [] {
      var n := |u| - 1;
      assert Le(u'[n], u[n]);
      FieldGetsEarlier(u[..n], u'[..n], i);
      UnitsMonotone(u[n], u'[n]);
    }
  }

  function TotalInf(us: seq<Field>): nat {
    if us == [] then 0 else TotalInf(us[..|us| - 1]) + CountInf(us[|us| - 1])
  }

  function TotalUnits(us: seq<Field>): nat {
    if us == [] then 0 else TotalUnits(us[..|us| - 1]) + CountUnits(us[|us| - 1])
  }

  ghost predicate AllEarlier(us: seq<Field>, us': seq<Field>) {
    |us'| == |us| && forall r :: 0 <= r < |us| ==> |us'[r]| == |us[r]| && Below(us'[r], us[r]) && NotNegative(us'[r])
  }

  lemma {:induction false} AllGetEarlier(us: seq<Field>, us': seq<Field>, y: nat, i: nat)
    requires AllEarlier(us, us')
    ensures NotMore(TotalInf(us), TotalUnits(us), TotalInf(us'), TotalUnits(us'))
    ensures y < |us| && i < |us[y]| && Drops(us[y][i], us'[y][i]) ==>
              Fewer(TotalInf(us), TotalUnits(us), TotalInf(us'), TotalUnits(us'))
    decreases |us|
  {
    if us != [] {
      var n := |us| - 1;
      AllGetEarlier(us[..n], us'[..n], y, i);
      FieldGetsEarlier(us[n], us'[n], i);
    }
  }

  function CountDirty(dirty: seq<bool>): nat {
    if dirty == [] then 0 else CountDirty(dirty[..|dirty| - 1]) + (if dirty[|dirty| - 1] then 1 else 0)
  }

  lemma {:induction false} CleanOne(dirty: seq<bool>, r: nat)
    requires r < |dirty| && dirty[r]
    ensures CountDirty(dirty[r := false]) == CountDirty(dirty) - 1
    decreases |dirty|
  {
    var n := |dirty| - 1;
    if r == n {
      assert dirty[r := false][..n] == dirty[..n];
    } else {
      assert dirty[r := false][..n] == dirty[..n][r := false];
      CleanOne(dirty[..n], r);
    }
  }

  // ---- What is known of all cells ----

  ghost function KnownFields(w: World, l: Labels): (us: seq<Field>)
    requires ValidWorld(w) && Shaped(w, l)
    ensures |us| == |w.grids|
    ensures forall r: nat :: r < |us| ==> |us[r]| == Size(w.grids[r])
    ensures forall r: nat, c: nat :: r < |us| && c < Size(w.grids[r]) ==> us[r][c] == Known(l, r, c)
  {
    seq(|w.grids|, r requires 0 <= r < |w.grids| => KnownField(w, l, r))
  }

  ghost function KnownField(w: World, l: Labels, r: nat): (u: Field)
    requires ValidWorld(w) && Shaped(w, l) && r < |w.grids|
    ensures |u| == Size(w.grids[r]) && forall c: nat :: c < |u| ==> u[c] == Known(l, r, c)
  {
    seq(Size(w.grids[r]), c requires 0 <= c < Size(w.grids[r]) => Known(l, r, c))
  }

  lemma KnownGetsEarlier(w: World, dest: seq<seq<nat>>, l: Labels, l': Labels, solved: seq<Seeds>)
    requires ValidWorld(w) && ValidDestination(w, dest) && Shaped(w, l) && Labelled(w, dest, l', solved) &&
               LabelsLowered(w, l, l')
    ensures AllEarlier(KnownFields(w, l), KnownFields(w, l'))
  {
    forall r: nat | r < |w.grids|
      ensures Below(KnownField(w, l', r), KnownField(w, l, r)) && NotNegative(KnownField(w, l', r))
    {
      if l'.fields[r].Some? {
        FieldNotNegative(w, dest, l', solved, r);
      }
      forall c: nat | c < Size(w.grids[r]) ensures Le(Known(l', r, c), Known(l, r, c)) &&
        Le(Fin(0.0), Known(l', r, c)) {
      }
    }
  }

  /** Something known of some cell drops. */
  ghost predicate SomeDrop(w: World, l: Labels, l': Labels)
    requires ValidWorld(w) && Shaped(w, l) && Shaped(w, l')
  {
    exists y: nat, c: nat {:trigger DropsAt(w, l, l', y, c)} :: DropsAt(w, l, l', y, c)
  }

  ghost predicate DropsAt(w: World, l: Labels, l': Labels, y: nat, c: nat)
    requires ValidWorld(w) && Shaped(w, l) && Shaped(w, l')
  {
    y < |w.grids| && c < Size(w.grids[y]) && Drops(Known(l, y, c), Known(l', y, c))
  }

  lemma KnownLowered(w: World, l: Labels, l': Labels, y: nat, c: nat)
    requires ValidWorld(w) && Shaped(w, l) && Shaped(w, l') && LabelsLowered(w, l, l') && y < |w.grids| &&
               c < Size(w.grids[y])
    ensures Le(Known(l', y, c), Known(l, y, c))
  {
  }

  /** A drop stays one, whatever gets earlier before or after it. */
  lemma DropStays(w: World, l: Labels, mid: Labels, l': Labels)
    requires ValidWorld(w) && Shaped(w, l) && Shaped(w, mid) && Shaped(w, l')
    requires LabelsLowered(w, l, mid) && LabelsLowered(w, mid, l')
    requires SomeDrop(w, l, mid) || SomeDrop(w, mid, l')
    ensures SomeDrop(w, l, l')
  {
    if SomeDrop(w, l, mid) {
      var y: nat, c: nat :| DropsAt(w, l, mid, y, c);
      KnownLowered(w, mid, l', y, c);
      assert DropsAt(w, l, l', y, c);
    } else {
      var y: nat, c: nat :| DropsAt(w, mid, l', y, c);
      KnownLowered(w, l, mid, y, c);
      assert DropsAt(w, l, l', y, c);
    }
  }

  /** Carrying a time across changes nothing, or some cell's time drops. */
  lemma CarryDrops(w: World, l: Labels, r: nat, y: nat, q: Pair)
    requires ValidWorld(w) && Shaped(w, l) && r < |w.grids| && y < |w.grids| && ValidPair(w.grids[r], w.grids[y], q)
    requires l.fields[r].Some?
    ensures Carry(w, l, r, y, q) == l || SomeDrop(w, l, Carry(w, l, r, y, q))
  {
    var l' := Carry(w, l, r, y, q);
    if l' != l {
      assert DropsAt(w, l, l', y, q.far);
    }
  }

  /** l' is l, or got from it by lowering labels, with some drop. */
  ghost predicate SameOrDropped(w: World, l: Labels, l': Labels)
    requires ValidWorld(w)
  {
    Shaped(w, l) && Shaped(w, l') && LabelsLowered(w, l, l') && (l' == l || SomeDrop(w, l, l'))
  }

  lemma SameOrDroppedTransitive(w: World, l: Labels, mid: Labels, l': Labels)
    requires ValidWorld(w) && SameOrDropped(w, l, mid) && SameOrDropped(w, mid, l')
    ensures SameOrDropped(w, l, l')
  {
    LabelsLoweredTransitive(w, l, mid, l');
    if mid != l || l' != mid {
      DropStays(w, l, mid, l');
    }
  }

  lemma SeamDrops(w: World, l: Labels, r: nat, s: nat, k: nat, l': Labels)
    requires ValidWorld(w) && Shaped(w, l) && r < |w.grids| && s in w.outSeams[r] && k <= |w.seams[s].pairs|
    requires l.fields[r].Some? && l' == CarrySeam(w, l, r, s, k)
    ensures SameOrDropped(w, l, l')
  {
    NothingDrops(w, l);
    for i := 0 to k
      invariant SameOrDropped(w, l, CarrySeam(w, l, r, s, i))
    {
      PairDrops(w, l, CarrySeam(w, l, r, s, i), r, s, i, CarrySeam(w, l, r, s, i + 1));
    }
  }

  lemma NothingDrops(w: World, l: Labels)
    requires ValidWorld(w) && Shaped(w, l)
    ensures SameOrDropped(w, l, l)
  {
  }

  lemma PairDrops(w: World, l: Labels, cur: Labels, r: nat, s: nat, k: nat, next: Labels)
    requires ValidWorld(w) && SameOrDropped(w, l, cur) && r < |w.grids| && s in w.outSeams[r] && k < |w.seams[s].pairs|
    requires cur.fields[r].Some? && next == Carry(w, cur, r, w.seams[s].to, w.seams[s].pairs[k])
    ensures SameOrDropped(w, l, next)
  {
    CarryLowers(w, cur, r, w.seams[s].to, w.seams[s].pairs[k]);
    CarryDrops(w, cur, r, w.seams[s].to, w.seams[s].pairs[k]);
    SameOrDroppedTransitive(w, l, cur, next);
  }

  /** The same for states: without a drop, no region becomes dirty. */
  ghost predicate SameOrDroppedState(w: World, st: State, st': State)
    requires ValidWorld(w)
  {
    ValidState(w, st) && ValidState(w, st') && SameOrDropped(w, st.labels, st'.labels) &&
      (st' == st || SomeDrop(w, st.labels, st'.labels))
  }

  lemma OneSeamDrops(w: World, st: State, cur: State, r: nat, k: nat, next: State)
    requires ValidWorld(w) && SameOrDroppedState(w, st, cur) && r < |w.grids| && k < |w.outSeams[r]| &&
               cur.labels.fields[r].Some?
    requires next == CrossOneSeam(w, cur, r, w.outSeams[r][k])
    ensures SameOrDroppedState(w, st, next)
  {
    var s := w.outSeams[r][k];
    assert s in w.outSeams[r];
    SeamDrops(w, cur.labels, r, s, |w.seams[s].pairs|, next.labels);
    SameOrDroppedTransitive(w, st.labels, cur.labels, next.labels);
    if next.labels == cur.labels {
      assert next.dirty == cur.dirty;
    } else if cur != st {
      DropStays(w, st.labels, cur.labels, next.labels);
    }
  }

  lemma CrossOutDrops(w: World, st: State, r: nat, k: nat, st': State)
    requires ValidWorld(w) && ValidState(w, st) && r < |w.grids| && k <= |w.outSeams[r]| && st.labels.fields[r].Some?
    requires st' == CrossOut(w, st, r, k)
    ensures SameOrDroppedState(w, st, st')
  {
    NothingDrops(w, st.labels);
    for i := 0 to k
      invariant SameOrDroppedState(w, st, CrossOut(w, st, r, i))
    {
      OneSeamDrops(w, st, CrossOut(w, st, r, i), r, i, CrossOut(w, st, r, i + 1));
    }
  }

  // ---- Every run ends ----

  /** Fewer infinite times, or as many and earlier times, or the same and fewer dirty regions. */
  ghost predicate Smaller(w: World, st: State, st': State)
    requires ValidWorld(w) && ValidState(w, st) && ValidState(w, st')
  {
    var us, us' := KnownFields(w, st.labels), KnownFields(w, st'.labels);
    || Fewer(TotalInf(us), TotalUnits(us), TotalInf(us'), TotalUnits(us'))
    || (TotalInf(us') == TotalInf(us) && TotalUnits(us') == TotalUnits(us) &&
         CountDirty(st'.dirty) < CountDirty(st.dirty))
  }

  /** Every solve, of whichever dirty region, brings the propagation nearer to its end. */
  lemma StepDescends(w: World, dest: seq<seq<nat>>, st: State, r: nat, st': State)
    requires ValidWorld(w) && ValidDestination(w, dest) && Inv(w, dest, st) && Step(w, st, r, st')
    ensures Inv(w, dest, st') && Smaller(w, st, st')
  {
    var solved :| StateInv(w, dest, st, solved);
    var solved' := StepKeeps(w, dest, st, solved, r, st');
    KnownGetsEarlier(w, dest, st.labels, st'.labels, solved');
    var us, us' := KnownFields(w, st.labels), KnownFields(w, st'.labels);
    AllGetEarlier(us, us', 0, 0);
    CleanOne(st.dirty, r);
    StepDrops(w, dest, st, solved, r, st');
    if SomeDrop(w, st.labels, st'.labels) {
      var y: nat, c: nat :| y < |w.grids| && c < Size(w.grids[y]) &&
        Drops(Known(st.labels, y, c), Known(st'.labels, y, c));
      AllGetEarlier(us, us', y, c);
    }
  }

  lemma StepDrops(w: World, dest: seq<seq<nat>>, st: State, solved: seq<Seeds>, r: nat, st': State)
    requires ValidWorld(w) && ValidDestination(w, dest) && StateInv(w, dest, st, solved) && Step(w, st, r, st') &&
               ValidState(w, st')
    ensures SomeDrop(w, st.labels, st'.labels) || st'.dirty == st.dirty[r := false]
  {
    var field :| SolvedFrom(w.grids[r], st.labels.fields[r], st.labels.seeds[r], field) &&
      st' == CrossOut(w, WithField(st, r, field), r, |w.outSeams[r]|);
    var next := WithField(st, r, field);
    SolvedCold(w, dest, st.labels, solved, r, field);
    SolvedStaysLabelled(w, dest, st.labels, solved, r, field);
    CrossOutDrops(w, next, r, |w.outSeams[r]|, st');
    if st' != next {
      DropStays(w, st.labels, next.labels, st'.labels);
    }
  }

  ghost predicate StepAt(w: World, run: nat -> State, order: nat -> nat, k: nat)
    requires ValidWorld(w)
  {
    ValidState(w, run(k)) && Step(w, run(k), order(k), run(k + 1))
  }

  /** No propagation goes on for ever, whatever regions it picks: at some point there is no step. */
  lemma EveryRunEnds(w: World, dest: seq<seq<nat>>, run: nat -> State, order: nat -> nat) returns (last: nat)
    requires ValidWorld(w) && ValidDestination(w, dest) && run(0) == Initial(w, dest)
    ensures !StepAt(w, run, order, last)
  {
    InitialInv(w, dest);
    var us := KnownFields(w, run(0).labels);
    last := Descend(w, dest, run, order, 0, TotalInf(us), TotalUnits(us), CountDirty(run(0).dirty));
  }

  lemma {:induction false} Descend(
    w: World, dest: seq<seq<nat>>, run: nat -> State, order: nat -> nat, k: nat, infs: nat, units: nat, dirty: nat)
    returns (last: nat)
    requires ValidWorld(w) && ValidDestination(w, dest) && ValidState(w, run(k)) && Inv(w, dest, run(k))
    requires var us := KnownFields(w, run(k).labels);
             infs == TotalInf(us) && units == TotalUnits(us) && dirty == CountDirty(run(k).dirty)
    ensures !StepAt(w, run, order, last)
    decreases infs, units, dirty
  {
    if !StepAt(w, run, order, k) {
      return k;
    }
    StepDescends(w, dest, run(k), order(k), run(k + 1));
    var us := KnownFields(w, run(k + 1).labels);
    last := Descend(w, dest, run, order, k + 1, TotalInf(us), TotalUnits(us), CountDirty(run(k + 1).dirty));
  }
}
