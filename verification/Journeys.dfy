// Which stage an agent heads for next (libsimulator/src/journey.hpp).
module Journeys {
  import opened Wrappers

  type StageId = nat

  // ---- Weighted round robin ----

  type Weighted = seq<(StageId, nat)>

  function Sum(w: Weighted): nat {
    if w == [] then 0 else Sum(w[..|w| - 1]) + w[|w| - 1].1
  }

  /** The sum of the weights before entry i. */
  function Prefix(w: Weighted, i: nat): nat
    requires i <= |w|
  {
    Sum(w[..i])
  }

  lemma PrefixStep(w: Weighted, i: nat)
    requires i < |w|
    ensures Prefix(w, i + 1) == Prefix(w, i) + w[i].1
  {
    assert w[..i + 1][..i] == w[..i];
  }

  lemma {:induction false} PrefixMonotone(w: Weighted, i: nat, j: nat)
    requires i <= j <= |w|
    ensures Prefix(w, i) <= Prefix(w, j)
    decreases j - i
  {
    if i < j {
      PrefixStep(w, i);
      PrefixMonotone(w, i + 1, j);
    }
  }

  /** Every weight is positive; the constructor rejects others. */
  ghost predicate Positive(w: Weighted) {
    forall i :: 0 <= i < |w| ==> w[i].1 > 0
  }

  /** The entry whose interval of prefix sums holds k. */
  ghost predicate Holds(w: Weighted, i: nat, k: nat) {
    i < |w| && Prefix(w, i) <= k < Prefix(w, i + 1)
  }

  lemma HoldsUnique(w: Weighted, i: nat, j: nat, k: nat)
    requires Holds(w, i, k) && Holds(w, j, k)
    ensures i == j
  {
    if i < j {
      PrefixMonotone(w, i + 1, j);
    } else if j < i {
      PrefixMonotone(w, j + 1, i);
    }
  }

  lemma {:induction false} HoldsExists(w: Weighted, k: nat, n: nat)
    requires n <= |w| && k < Prefix(w, n)
    ensures exists i: nat :: Holds(w, i, k)
  {
    PrefixStep(w, n - 1);
    if Prefix(w, n - 1) <= k {
      assert Holds(w, n - 1, k);
    } else {
      HoldsExists(w, k, n - 1);
    }
  }

  ghost predicate ValidRoundRobin(w: Weighted) {
    w != [] && Positive(w)
  }

  /** k counted around a cycle of length m. */
  function Cycle(k: nat, m: nat): (r: nat)
    requires m > 0
    ensures r < m
  {
    if k < m then k else Cycle(k - m, m)
  }

  lemma MultipleIsLarge(m: int, d: int)
    requires m > 0
    ensures d >= 1 ==> m * d >= m
    ensures d <= -1 ==> m * d <= -m
  {
    if d >= 1 {
      assert m * d == m * (d - 1) + m;
    } else if d <= -1 {
      assert m * d == -(m * (-d - 1)) - m;
    }
  }

  lemma RemainderIsOne(k: nat, m: nat, q: int, r: nat)
    requires m > 0 && k == m * q + r && r < m
    ensures k % m == r
  {
    var d := k / m - q;
    assert m * d == m * (k / m) - m * q;
    MultipleIsLarge(m, d);
  }

  lemma {:induction false} CycleIsModulo(k: nat, m: nat)
    requires m > 0
    ensures Cycle(k, m) == k % m
  {
    if k < m {
      RemainderIsOne(k, m, 0, k);
    } else {
      CycleIsModulo(k - m, m);
      var q := (k - m) / m;
      assert m * (q + 1) == m * q + m;
      RemainderIsOne(k, m, q + 1, (k - m) % m);
    }
  }

  /** The counter after one more call. */
  lemma {:induction false} CycleStep(k: nat, m: nat)
    requires m > 0
    ensures Cycle(k + 1, m) == Cycle(Cycle(k, m) + 1, m)
    ensures Cycle(k, m) + 1 < m ==> Cycle(k + 1, m) == Cycle(k, m) + 1
    ensures Cycle(k, m) + 1 == m ==> Cycle(k + 1, m) == 0
  {
    if k >= m {
      CycleStep(k - m, m);
    }
  }

  /** The entry that call number k picks, counting from a fresh start. */
  ghost function Pick(w: Weighted, k: nat): (i: nat)
    requires ValidRoundRobin(w)
    ensures i < |w| && Sum(w) > 0 && Holds(w, i, Cycle(k, Sum(w)))
  {
    SumPositive(w);
    assert w[..|w|] == w;
    HoldsExists(w, Cycle(k, Sum(w)), |w|);
    var i: nat :| Holds(w, i, Cycle(k, Sum(w)));
    i
  }

  lemma SumPositive(w: Weighted)
    requires ValidRoundRobin(w)
    ensures Sum(w) > 0
  {
  }

  /** How many of the n calls from call number c on pick entry i. */
  ghost function Picks(w: Weighted, c: nat, n: nat, i: nat): nat
    requires ValidRoundRobin(w)
  {
    if n == 0 then 0 else Picks(w, c, n - 1, i) + (if Pick(w, c + n - 1) == i then 1 else 0)
  }

  /** In the first n calls of a cycle, entry i is picked as often as its interval reaches below n. */
  lemma {:induction false} PicksInFirstCycle(w: Weighted, n: nat, i: nat)
    requires ValidRoundRobin(w) && i < |w| && n <= Sum(w)
    ensures Picks(w, 0, n, i) ==
            if n <= Prefix(w, i) then 0 else if n <= Prefix(w, i + 1) then n - Prefix(w, i) else w[i].1
  {
    PrefixStep(w, i);
    if n > 0 {
      PicksInFirstCycle(w, n - 1, i);
      if Holds(w, i, n - 1) {
        HoldsUnique(w, i, Pick(w, n - 1), n - 1);
      }
    }
  }

  lemma {:induction false} PicksFromTheFront(w: Weighted, c: nat, n: nat, i: nat)
    requires ValidRoundRobin(w) && n > 0
    ensures Picks(w, c, n, i) == (if Pick(w, c) == i then 1 else 0) + Picks(w, c + 1, n - 1, i)
  {
    if n > 1 {
      PicksFromTheFront(w, c, n - 1, i);
    }
  }

  /** The picks repeat with period Sum(w). */
  lemma PickPeriodic(w: Weighted, k: nat)
    requires ValidRoundRobin(w)
    ensures Pick(w, k + Sum(w)) == Pick(w, k)
  {
    SumPositive(w);
    HoldsUnique(w, Pick(w, k + Sum(w)), Pick(w, k), Cycle(k, Sum(w)));
  }

  /** Fairness: any Sum(w) consecutive calls, from any state, pick each entry exactly as often as
      its weight says. */
  lemma {:induction false} AnyWindowIsFair(w: Weighted, c: nat, i: nat)
    requires ValidRoundRobin(w) && i < |w|
    ensures Picks(w, c, Sum(w), i) == w[i].1
  {
    SumPositive(w);
    if c == 0 {
      PrefixStep(w, i);
      PrefixMonotone(w, i + 1, |w|);
      assert w[..|w|] == w;
      PicksInFirstCycle(w, Sum(w), i);
    } else {
      AnyWindowIsFair(w, c - 1, i);
      ShiftWindow(w, c - 1, Sum(w), i);
    }
  }

  /** A window of a whole period, moved on by one call, loses the pick it gains. */
  lemma ShiftWindow(w: Weighted, c: nat, m: nat, i: nat)
    requires ValidRoundRobin(w) && m == Sum(w) && m > 0
    ensures Picks(w, c + 1, m, i) == Picks(w, c, m, i)
  {
    PicksFromTheFront(w, c, m, i);
    PickPeriodic(w, c);
    assert c + 1 + m - 1 == c + m;
  }

  /** The counter after n further calls: each advances it as `NextStage` does. */
  ghost function CounterAfter(counter: nat, n: nat, m: nat): (r: nat)
    requires counter < m
    ensures r < m
  {
    if n == 0 then counter else Cycle(CounterAfter(counter, n - 1, m) + 1, m)
  }

  /** So call n from here picks what call `counter + n` of a fresh start picks. */
  lemma {:induction false} CallsFollowPicks(w: Weighted, counter: nat, n: nat)
    requires ValidRoundRobin(w) && counter < Sum(w)
    ensures CounterAfter(counter, n, Sum(w)) == Cycle(counter + n, Sum(w))
    ensures Pick(w, CounterAfter(counter, n, Sum(w))) == Pick(w, counter + n)
  {
    if n > 0 {
      CallsFollowPicks(w, counter, n - 1);
      CycleStep(counter + n - 1, Sum(w));
    }
    HoldsUnique(w, Pick(w, CounterAfter(counter, n, Sum(w))), Pick(w, counter + n), Cycle(counter + n, Sum(w)));
  }

  lemma SmallModulo(k: nat, m: nat)
    requires k < m
    ensures (k + 1) % m == Cycle(k + 1, m)
  {
  }

  /** The last entry whose prefix sum has been reached is the one to pick. */
  lemma ScanFinds(w: Weighted, n: nat, k: nat)
    requires ValidRoundRobin(w) && k < Sum(w) && n <= |w|
    requires n > 0 ==> Prefix(w, n - 1) <= k
    requires n < |w| ==> k < Prefix(w, n)
    ensures n > 0 && Pick(w, k) == n - 1
  {
    assert w[..|w|] == w;
    if n > 0 {
      PrefixStep(w, n - 1);
      assert Holds(w, n - 1, k);
      HoldsUnique(w, n - 1, Pick(w, k), k);
    }
  }

  class RoundRobinTransition {
    const weighted: Weighted
    const sumWeights: nat
    var nextCalled: nat

    ghost predicate Valid()
      reads this
    {
      && Positive(weighted) && sumWeights == Sum(weighted)
      && if weighted == [] then nextCalled == 0 else nextCalled < sumWeights
    }

    /** At the beginning of its cycle; an empty list is not refused. */
    static method Create(weighted: Weighted) returns (r: Option<RoundRobinTransition>)
      ensures r.Some? <==> Positive(weighted)
      ensures r.Some? ==> fresh(r.value) && r.value.Valid() && r.value.weighted == weighted && r.value.nextCalled == 0
    {
      for i := 0 to |weighted|
        invariant forall k :: 0 <= k < i ==> weighted[k].1 > 0
      {
        if weighted[i].1 == 0 {
          return None;
        }
      }
      if weighted != [] {
        SumPositive(weighted);
      }
      var transition := new RoundRobinTransition.At(weighted, 0);
      r := Some(transition);
    }

    /** The transition part-way through its cycle. */
    constructor At(weighted: Weighted, called: nat)
      requires Positive(weighted) && if weighted == [] then called == 0 else called < Sum(weighted)
      ensures Valid() && this.weighted == weighted && nextCalled == called
    {
      this.weighted := weighted;
      sumWeights := Sum(weighted);
      nextCalled := called;
    }

    /** Scan for the last entry whose prefix sum has been reached, then advance the cycle. */
    method NextStage() returns (stage: StageId)
      requires Valid() && weighted != []
      modifies this
      ensures Valid()
      ensures stage == weighted[Pick(weighted, old(nextCalled))].0
      ensures nextCalled == Cycle(old(nextCalled) + 1, sumWeights)
    {
      var sumSoFar := 0;
      var candidate := 0;
      assert weighted[..|weighted|] == weighted;
      while candidate < |weighted| && sumSoFar <= nextCalled
        invariant nextCalled == old(nextCalled)
        invariant candidate <= |weighted| && sumSoFar == Prefix(weighted, candidate)
        invariant candidate > 0 ==> Prefix(weighted, candidate - 1) <= nextCalled
        decreases |weighted| - candidate
      {
        PrefixStep(weighted, candidate);
        sumSoFar := sumSoFar + weighted[candidate].1;
        candidate := candidate + 1;
      }
      ScanFinds(weighted, candidate, nextCalled);
      stage := weighted[candidate - 1].0;
      SmallModulo(nextCalled, sumWeights);
      nextCalled := (nextCalled + 1) % sumWeights;
    }
  }

  // ---- Least targeted ----

  /** Entry i of the candidates is a least targeted one, and the first such. */
  ghost predicate IsLeastTargeted(candidates: seq<StageId>, targeting: map<StageId, nat>, i: nat)
    requires forall c :: c in candidates ==> c in targeting
  {
    && i < |candidates|
    && (forall j :: 0 <= j < |candidates| ==> targeting[candidates[i]] <= targeting[candidates[j]])
    && forall j :: 0 <= j < i ==> targeting[candidates[i]] < targeting[candidates[j]]
  }

  method LeastTargeted(candidates: seq<StageId>, targeting: map<StageId, nat>) returns (i: nat)
    requires candidates != [] && forall c :: c in candidates ==> c in targeting
    ensures IsLeastTargeted(candidates, targeting, i)
  {
    i := 0;
    for k := 1 to |candidates|
      invariant i < k
      invariant forall j :: 0 <= j < k ==> targeting[candidates[i]] <= targeting[candidates[j]]
      invariant forall j :: 0 <= j < i ==> targeting[candidates[i]] < targeting[candidates[j]]
    {
      if targeting[candidates[k]] < targeting[candidates[i]] {
        i := k;
      }
    }
  }

  /** The candidates' counts are within one of each other. */
  ghost predicate Balanced(candidates: seq<StageId>, targeting: map<StageId, nat>)
    requires forall c :: c in candidates ==> c in targeting
  {
    forall i, j :: 0 <= i < |candidates| && 0 <= j < |candidates| ==>
      targeting[candidates[i]] <= targeting[candidates[j]] + 1
  }

  /** Sending agents from elsewhere to a least targeted candidate keeps the candidates balanced. */
  lemma LeastTargetedKeepsBalance(candidates: seq<StageId>, targeting: map<StageId, nat>, from: StageId, i: nat)
    requires forall c :: c in candidates ==> c in targeting
    requires from in targeting && from !in candidates && targeting[from] > 0
    requires IsLeastTargeted(candidates, targeting, i) && Balanced(candidates, targeting)
    ensures var to := candidates[i];
            var after := targeting[to := targeting[to] + 1][from := targeting[from] - 1];
            (forall c :: c in candidates ==> c in after) && Balanced(candidates, after)
  {
  }
}
