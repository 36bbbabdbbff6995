// What the steps of an iteration do to the agents as values
// (libsimulator/src/strategical_desicion_system.hpp, libsimulator/src/tactical_decision_system.hpp,
// libsimulator/src/operational_decision_system.hpp).
module Steps {
  import opened Sequences
  import opened Wrappers
  import opened Journeys
  import opened Stages
  import opened Neighborhood
  import opened Agents
  import opened Routing

  /** Journeys that differ at most in the round-robin counters of their transitions. */
  ghost predicate SameJourneys(before: map<JourneyId, Journey>, after: map<JourneyId, Journey>) {
    && after.Keys == before.Keys
    && forall j {:trigger SameJourney(before, after, j)} :: j in before ==> SameJourney(before, after, j)
  }

  ghost predicate SameJourney(before: map<JourneyId, Journey>, after: map<JourneyId, Journey>, j: JourneyId)
    requires j in before && j in after
  {
    after[j].Keys == before[j].Keys && forall s :: s in before[j] ==> Targets(after[j][s]) == Targets(before[j][s])
  }

  lemma SameJourneysTransitive(a: map<JourneyId, Journey>, b: map<JourneyId, Journey>, c: map<JourneyId, Journey>)
    requires SameJourneys(a, b) && SameJourneys(b, c)
    ensures SameJourneys(a, c)
  {
    forall j | j in a ensures SameJourney(a, c, j) {
      assert SameJourney(a, b, j) && SameJourney(b, c, j);
    }
  }

  /** Whether an agent has completed its stage: it is in the stage's destination. Direct steering is
      never completed; for the others the question can fail. */
  function Test(kinds: map<StageId, Kind>, router: Router, a: Agent): Option<bool> {
    if a.stage in kinds && !kinds[a.stage].DirectSteering? then router.contains(a.stage, a.place) else Some(false)
  }

  predicate Completed(kinds: map<StageId, Kind>, router: Router, a: Agent) {
    Test(kinds, router, a) == Some(true)
  }

  /** Agent a heading for stage `next`. Direct steering leaves the target as it is. */
  function Heading(kinds: map<StageId, Kind>, a: Agent, next: StageId): Agent {
    a.(stage := next, target := if next in kinds && kinds[next].DirectSteering? then a.target else ToStage(next))
  }

  predicate Leaves(kinds: map<StageId, Kind>, router: Router, a: Agent) {
    Completed(kinds, router, a) && a.stage in kinds && kinds[a.stage].Exit?
  }

  /** The ids of agents lo..n that have reached an exit, in order. */
  ghost function Leaving(kinds: map<StageId, Kind>, router: Router, agents: seq<Agent>, lo: nat, n: nat): seq<AgentId>
    requires n <= |agents|
  {
    if n <= lo then []
    else
      Leaving(kinds, router, agents, lo, n - 1) +
      (if Leaves(kinds, router, agents[n - 1]) then [agents[n - 1].id] else [])
  }

  /** The stage an agent heads for after its decision. */
  ghost predicate Decided(
    kinds: map<StageId, Kind>, router: Router, journeys: map<JourneyId, Journey>, a: Agent, next: StageId)
    requires a.journey in journeys && a.stage in journeys[a.journey]
  {
    if Completed(kinds, router, a) then next in Targets(journeys[a.journey][a.stage]) else next == a.stage
  }

  /** What strategical decisions change. */
  datatype Minds = Minds(journeys: map<JourneyId, Journey>, agents: seq<Agent>, removed: seq<AgentId>,
    targeting: map<StageId, nat>)

  /** Agent a's stage is part of its journey, and all stages it leads to have counters. */
  ghost predicate OnTrack(m: Minds, a: Agent) {
    && a.journey in m.journeys && a.stage in m.journeys[a.journey]
    && ValidTransition(m.journeys[a.journey][a.stage])
    && Targets(m.journeys[a.journey][a.stage]) <= m.targeting.Keys
  }

  /** Agent i has completed its stage and goes on to `next`: its transition advances, the counters
      migrate, and an agent that has reached an exit is listed for removal. */
  ghost predicate GoesOn(kinds: map<StageId, Kind>, m: Minds, m': Minds, i: nat, next: StageId, t': Transition)
    requires i < |m.agents| && OnTrack(m, m.agents[i]) && m.agents[i].stage in kinds
  {
    var a := m.agents[i];
    && LeadsTo(m.journeys[a.journey][a.stage], m.targeting, next, t')
    && m'.journeys == Advanced(m.journeys, a.journey, a.stage, t')
    && m'.agents == m.agents[i := Heading(kinds, a, next)]
    && m'.removed == m.removed + (if kinds[a.stage].Exit? then [a.id] else [])
    && Migrated(m.targeting, m'.targeting, a.stage, next)
  }

  /** What one agent's decision does: before its stage is completed, it is routed there. */
  ghost predicate DecidesOne(kinds: map<StageId, Kind>, router: Router, m: Minds, m': Minds, i: nat)
    requires i < |m.agents|
  {
    && OnTrack(m, m.agents[i]) && m.agents[i].stage in kinds && Test(kinds, router, m.agents[i]).Some?
    && if Completed(kinds, router, m.agents[i]) then
         exists next, t' :: GoesOn(kinds, m, m', i, next, t')
       else
         m' == m.(agents := m.agents[i := Heading(kinds, m.agents[i], m.agents[i].stage)])
  }

  /** What the decisions of agents lo..i do to agent k. */
  ghost predicate Fate(kinds: map<StageId, Kind>, router: Router, m: Minds, m': Minds, lo: nat, i: nat, k: nat)
    requires k < |m.agents| == |m'.agents|
  {
    var a, a' := m.agents[k], m'.agents[k];
    if lo <= k < i then
      && a.journey in m.journeys && a.stage in m.journeys[a.journey]
      && a.stage in kinds && Test(kinds, router, a).Some?
      && a' == Heading(kinds, a, a'.stage) && Decided(kinds, router, m.journeys, a, a'.stage)
    else
      a' == a
  }

  ghost predicate DecidesRange(kinds: map<StageId, Kind>, router: Router, m: Minds, m': Minds, lo: nat, i: nat) {
    && lo <= i <= |m.agents| == |m'.agents|
    && SameJourneys(m.journeys, m'.journeys)
    && m'.removed == m.removed + Leaving(kinds, router, m.agents, lo, i)
    && forall k {:trigger Fate(kinds, router, m, m', lo, i, k)} ::
         0 <= k < |m.agents| ==> Fate(kinds, router, m, m', lo, i, k)
  }

  /** One decision, seen from the agent's side. */
  lemma DecidedOne(kinds: map<StageId, Kind>, router: Router, m: Minds, m': Minds, i: nat)
    requires i < |m.agents| && DecidesOne(kinds, router, m, m', i)
    ensures |m'.agents| == |m.agents| && SameJourneys(m.journeys, m'.journeys)
    ensures m'.agents == m.agents[i := Heading(kinds, m.agents[i], m'.agents[i].stage)]
    ensures m'.removed == m.removed + (if Leaves(kinds, router, m.agents[i]) then [m.agents[i].id] else [])
    ensures Decided(kinds, router, m.journeys, m.agents[i], m'.agents[i].stage)
  {
    if Completed(kinds, router, m.agents[i]) {
      var next, t' :| GoesOn(kinds, m, m', i, next, t');
      LeadsToTarget(m.journeys[m.agents[i].journey][m.agents[i].stage], m.targeting, next, t');
    }
    forall j | j in m.journeys ensures SameJourney(m.journeys, m'.journeys, j) {
    }
  }

  /** The decisions of agents lo..i, one after the other: each sees the counters and transitions
      as the ones before it left them. */
  ghost predicate Decisions(kinds: map<StageId, Kind>, router: Router, m: Minds, m': Minds, lo: nat, i: nat)
    decreases i
  {
    if i <= lo then
      m' == m && i == lo <= |m.agents|
    else
      exists mid ::
        && Decisions(kinds, router, m, mid, lo, i - 1)
        && i <= |mid.agents| && DecidesOne(kinds, router, mid, m', i - 1)
  }

  lemma OneMoreDecision(kinds: map<StageId, Kind>, router: Router, m: Minds, m': Minds, m'': Minds, lo: nat, i: nat)
    requires Decisions(kinds, router, m, m', lo, i) && i < |m'.agents|
    requires DecidesOne(kinds, router, m', m'', i)
    ensures Decisions(kinds, router, m, m'', lo, i + 1) && |m''.agents| == |m'.agents|
  {
    DecidedOne(kinds, router, m', m'', i);
    AtLeastStart(kinds, router, m, m', lo, i);
  }

  lemma LastDecision(kinds: map<StageId, Kind>, router: Router, m: Minds, m': Minds, lo: nat, i: nat)
    returns (mid: Minds)
    requires Decisions(kinds, router, m, m', lo, i) && i > lo
    ensures Decisions(kinds, router, m, mid, lo, i - 1)
    ensures i <= |mid.agents| && DecidesOne(kinds, router, mid, m', i - 1)
  {
    mid :| Decisions(kinds, router, m, mid, lo, i - 1) && i <= |mid.agents| &&
      DecidesOne(kinds, router, mid, m', i - 1);
  }

  lemma AtLeastStart(kinds: map<StageId, Kind>, router: Router, m: Minds, m': Minds, lo: nat, i: nat)
    requires Decisions(kinds, router, m, m', lo, i)
    ensures lo <= i
  {
  }

  lemma DecidesNothing(kinds: map<StageId, Kind>, router: Router, m: Minds, lo: nat)
    requires lo <= |m.agents|
    ensures DecidesRange(kinds, router, m, m, lo, lo)
  {
    forall j | j in m.journeys ensures SameJourney(m.journeys, m.journeys, j) {
    }
  }

  /** Taken together, they change the stage of each of these agents as its own position says,
      list those that have reached an exit, each once and in order, and change nothing else. */
  lemma {:induction false} DecisionsTogether(
    kinds: map<StageId, Kind>, router: Router, m: Minds, m': Minds, lo: nat, i: nat)
    requires Decisions(kinds, router, m, m', lo, i)
    ensures DecidesRange(kinds, router, m, m', lo, i)
    decreases i
  {
    AtLeastStart(kinds, router, m, m', lo, i);
    if i == lo {
      DecidesNothing(kinds, router, m, lo);
    } else {
      var mid := LastDecision(kinds, router, m, m', lo, i);
      DecisionsTogether(kinds, router, m, mid, lo, i - 1);
      DecidesNext(kinds, router, m, mid, m', lo, i - 1);
    }
  }

  lemma DecidesNext(kinds: map<StageId, Kind>, router: Router, m: Minds, m': Minds, m'': Minds, lo: nat, i: nat)
    requires DecidesRange(kinds, router, m, m', lo, i) && i < |m.agents|
    requires DecidesOne(kinds, router, m', m'', i)
    ensures DecidesRange(kinds, router, m, m'', lo, i + 1)
  {
    DecidedOne(kinds, router, m', m'', i);
    SameJourneysTransitive(m.journeys, m'.journeys, m''.journeys);
    assert Fate(kinds, router, m, m', lo, i, i);
    assert SameJourney(m.journeys, m'.journeys, m.agents[i].journey);
    var n := i + 1;
    forall k | 0 <= k < |m.agents| ensures Fate(kinds, router, m, m'', lo, n, k) {
      assert Fate(kinds, router, m, m', lo, i, k);
    }
  }

  /** A decision leaves no choice. */
  lemma DecisionIsDetermined(kinds: map<StageId, Kind>, router: Router, m: Minds, m1: Minds, m2: Minds, i: nat)
    requires i < |m.agents| && DecidesOne(kinds, router, m, m1, i) && DecidesOne(kinds, router, m, m2, i)
    ensures m1 == m2
  {
    if Completed(kinds, router, m.agents[i]) {
      var n1, t1 :| GoesOn(kinds, m, m1, i, n1, t1);
      var n2, t2 :| GoesOn(kinds, m, m2, i, n2, t2);
      LeadsToOne(m.journeys[m.agents[i].journey][m.agents[i].stage], m.targeting, n1, t1, n2, t2);
    }
  }

  // ---- The tactical step ----

  /** Which way agent a is to walk can be found. */
  predicate Routable(router: Router, a: Agent) {
    router.orient(a.target, a.place).Some?
  }

  function Turned(router: Router, a: Agent): Agent
    requires Routable(router, a)
  {
    a.(heading := router.orient(a.target, a.place).value)
  }

  /** Agent k has been turned if it is among lo..n. */
  ghost predicate TurnedAt(router: Router, before: seq<Agent>, after: seq<Agent>, lo: nat, n: nat, k: int)
    requires 0 <= k < |before| == |after|
  {
    if lo <= k < n then Routable(router, before[k]) && after[k] == Turned(router, before[k]) else after[k] == before[k]
  }

  ghost predicate TurnedUpTo(router: Router, before: seq<Agent>, after: seq<Agent>, lo: nat, n: nat) {
    && n <= |before| == |after|
    && forall k {:trigger TurnedAt(router, before, after, lo, n, k)} :: 0 <= k < |before| ==>
         TurnedAt(router, before, after, lo, n, k)
  }

  lemma TurnsNothing(router: Router, before: seq<Agent>, lo: nat)
    requires lo <= |before|
    ensures TurnedUpTo(router, before, before, lo, lo)
  {
    forall k | 0 <= k < |before| ensures TurnedAt(router, before, before, lo, lo, k) {
    }
  }

  lemma TurnNext(router: Router, before: seq<Agent>, after: seq<Agent>, lo: nat, n: nat)
    requires TurnedUpTo(router, before, after, lo, n) && lo <= n < |before|
    ensures after[n] == before[n]
    ensures Routable(router, after[n]) ==> TurnedUpTo(router, before, after[n := Turned(router, after[n])], lo, n + 1)
  {
    assert TurnedAt(router, before, after, lo, n, n);
    if Routable(router, after[n]) {
      var after', n' := after[n := Turned(router, after[n])], n + 1;
      forall k | 0 <= k < |before| ensures TurnedAt(router, before, after', lo, n', k) {
        assert TurnedAt(router, before, after, lo, n, k);
      }
    }
  }

  lemma TurningKeepsHeadings(router: Router, before: seq<Agent>, after: seq<Agent>, lo: nat, n: nat)
    requires TurnedUpTo(router, before, after, lo, n)
    ensures SameHeadings(before, after) && ItemsOf(after) == ItemsOf(before)
  {
    forall k | 0 <= k < |before| ensures SameHeading(before[k], after[k]) && ItemOf(after[k]) == ItemOf(before[k]) {
      assert TurnedAt(router, before, after, lo, n, k);
    }
  }

  // ---- The operational step ----

  /** Agent i of the next generation is agent i of this one, moved as computed from this
      generation alone. */
  ghost predicate SteppedAt(
    advance: (seq<Agent>, Agent) -> Option<(Place, nat)>, before: seq<Agent>, after: seq<Agent>, i: int)
    requires 0 <= i < |before| == |after|
  {
    var moved := advance(before, before[i]);
    moved.Some? && after[i] == before[i].(place := moved.value.0, state := moved.value.1)
  }

  /** The first n agents of the next generation have been computed. */
  ghost predicate SteppedUpTo(
    advance: (seq<Agent>, Agent) -> Option<(Place, nat)>, before: seq<Agent>, after: seq<Agent>, n: nat) {
    && n <= |before| == |after|
    && (forall i {:trigger SteppedAt(advance, before, after, i)} :: 0 <= i < n ==> SteppedAt(advance, before, after, i))
    && after[n..] == before[n..]
  }

  /** A whole generation, computed simultaneously. */
  ghost predicate Stepped(advance: (seq<Agent>, Agent) -> Option<(Place, nat)>, before: seq<Agent>, after: seq<Agent>) {
    SteppedUpTo(advance, before, after, |before|)
  }

  /** Some agent's path cannot be computed. */
  ghost predicate Blocked(advance: (seq<Agent>, Agent) -> Option<(Place, nat)>, agents: seq<Agent>) {
    exists i :: 0 <= i < |agents| && advance(agents, agents[i]).None?
  }

  lemma StepNext(advance: (seq<Agent>, Agent) -> Option<(Place, nat)>, before: seq<Agent>, after: seq<Agent>, n: nat)
    requires SteppedUpTo(advance, before, after, n) && n < |before| && advance(before, before[n]).Some?
    ensures var moved := advance(before, before[n]).value;
            SteppedUpTo(advance, before, after[n := after[n].(place := moved.0, state := moved.1)], n + 1)
  {
    var moved := advance(before, before[n]).value;
    var after' := after[n := after[n].(place := moved.0, state := moved.1)];
    assert after[n] == after[n..][0] == before[n..][0];
    assert after'[n + 1..] == after[n..][1..];
    forall i | 0 <= i < n + 1 ensures SteppedAt(advance, before, after', i) {
      assert i < n ==> SteppedAt(advance, before, after, i);
    }
  }

  /** The same agents, each heading where it did. */
  ghost predicate SameHeadings(before: seq<Agent>, after: seq<Agent>) {
    && |after| == |before|
    && forall i :: 0 <= i < |before| ==> SameHeading(before[i], after[i])
  }

  predicate SameHeading(a: Agent, b: Agent) {
    b.id == a.id && b.journey == a.journey && b.stage == a.stage
  }

  lemma SameHeadingsTransitive(a: seq<Agent>, b: seq<Agent>, c: seq<Agent>)
    requires SameHeadings(a, b) && SameHeadings(a, c)
    ensures SameHeadings(b, c)
  {
    forall i | 0 <= i < |b| ensures SameHeading(b[i], c[i]) {
      assert SameHeading(a[i], b[i]) && SameHeading(a[i], c[i]);
    }
  }

  lemma {:induction false} SameCounts(before: seq<Agent>, after: seq<Agent>, s: StageId)
    requires SameHeadings(before, after)
    ensures CountAt(after, s) == CountAt(before, s)
  {
    if before != [] {
      var n := |before| - 1;
      assert SameHeading(before[n], after[n]);
      SameCounts(before[..n], after[..n], s);
    }
  }

  lemma SteppingStaysConsistent(
    kinds: map<StageId, Kind>, targeting: map<StageId, nat>, journeys: map<JourneyId, Journey>, before: seq<Agent>,
    after: seq<Agent>, nextId: nat)
    requires Consistent(kinds, targeting, journeys, before, nextId) && SameHeadings(before, after)
    ensures Consistent(kinds, targeting, journeys, after, nextId)
  {
    forall s | s in targeting ensures targeting[s] == CountAt(after, s) {
      SameCounts(before, after, s);
      assert targeting[s] == CountAt(before, s);
    }
    forall a | a in after ensures KnownStage(targeting, a) && IdBelow(a, nextId) && KnownJourney(journeys, a) {
      var i :| 0 <= i < |after| && after[i] == a;
      assert SameHeading(before[i], after[i]);
      assert KnownStage(targeting, before[i]) && IdBelow(before[i], nextId) && KnownJourney(journeys, before[i]);
    }
    forall i, j {:trigger DifferentIds(after, i, j)} | 0 <= i < j < |after| ensures DifferentIds(after, i, j) {
      assert DifferentIds(before, i, j) && SameHeading(before[i], after[i]) && SameHeading(before[j], after[j]);
    }
  }

  lemma SteppedKeepsHeadings(
    advance: (seq<Agent>, Agent) -> Option<(Place, nat)>, before: seq<Agent>, after: seq<Agent>)
    requires Stepped(advance, before, after)
    ensures SameHeadings(before, after)
  {
    forall i | 0 <= i < |before| ensures SameHeading(before[i], after[i]) {
      assert SteppedAt(advance, before, after, i);
    }
  }

  /** The first half of an iteration: the listed agents are gone, then all others have decided, up
      to the one at `done`. */
  ghost predicate RemovedAndDecided(
    kinds: map<StageId, Kind>, router: Router, before: Minds, first: Minds, decided: Minds, done: nat)
  {
    && first.journeys == before.journeys && first.agents == Survivors(before.agents, before.removed) &&
         first.removed == []
    && Decisions(kinds, router, first, decided, 0, done)
  }

  // ---- The grid files agents by id and position ----

  lemma ItemsDistinct(agents: seq<Agent>, nextId: nat)
    requires UniqueIds(agents, nextId)
    ensures NoDuplicates(ItemsOf(agents))
  {
    var items := ItemsOf(agents);
    forall i, j | 0 <= i < j < |items| ensures items[i] != items[j] {
      assert DifferentIds(agents, i, j);
    }
  }

  lemma DecisionsKeepItems(kinds: map<StageId, Kind>, router: Router, m: Minds, m': Minds, lo: nat, i: nat)
    requires Decisions(kinds, router, m, m', lo, i)
    ensures ItemsOf(m'.agents) == ItemsOf(m.agents)
  {
    DecisionsTogether(kinds, router, m, m', lo, i);
    forall k | 0 <= k < |m.agents| ensures ItemOf(m'.agents[k]) == ItemOf(m.agents[k]) {
      assert Fate(kinds, router, m, m', lo, i, k);
    }
  }

  lemma FoundIds(agents: seq<Agent>, nextId: nat, found: seq<Item>, ids: seq<AgentId>)
    requires UniqueIds(agents, nextId)
    requires NoDuplicates(found) && forall x :: x in found ==> x in ItemsOf(agents)
    requires |ids| == |found| && forall i :: 0 <= i < |ids| ==> ids[i] == found[i].id
    ensures NoDuplicates(ids)
    ensures forall id :: id in ids <==> exists x :: x in found && x.id == id
    ensures forall x :: x in found ==> exists a :: a in agents && ItemOf(a) == x
  {
    forall x | x in found ensures exists i :: 0 <= i < |agents| && ItemOf(agents[i]) == x {
      var i :| 0 <= i < |agents| && ItemsOf(agents)[i] == x;
    }
    forall i, j | 0 <= i < j < |ids| ensures ids[i] != ids[j] {
      assert found[i] in found && found[j] in found;
      var k :| 0 <= k < |agents| && ItemOf(agents[k]) == found[i];
      var l :| 0 <= l < |agents| && ItemOf(agents[l]) == found[j];
      if k < l {
        assert DifferentIds(agents, k, l);
      } else if l < k {
        assert DifferentIds(agents, l, k);
      }
    }
    forall x | x in found ensures x.id in ids {
      var i :| 0 <= i < |found| && found[i] == x;
      assert ids[i] == x.id;
    }
  }

  lemma ReassigningStaysConsistent(
    kinds: map<StageId, Kind>, targeting: map<StageId, nat>, journeys: map<JourneyId, Journey>, agents: seq<Agent>,
    nextId: nat, i: nat, journey: JourneyId)
    requires Consistent(kinds, targeting, journeys, agents, nextId) && i < |agents| && journey in journeys
    ensures Consistent(kinds, targeting, journeys, agents[i := agents[i].(journey := journey)], nextId)
  {
    var a := agents[i].(journey := journey);
    var agents' := agents[i := a];
    forall s | s in targeting ensures targeting[s] == CountAt(agents', s) {
      CountUpdated(agents, i, a, s);
      assert targeting[s] == CountAt(agents, s);
    }
    forall x | x in agents' ensures KnownStage(targeting, x) && IdBelow(x, nextId) && KnownJourney(journeys, x) {
      var was := if x in agents then x else agents[i];
      assert KnownStage(targeting, was) && IdBelow(was, nextId) && KnownJourney(journeys, was);
    }
    forall k, j {:trigger DifferentIds(agents', k, j)} | 0 <= k < j < |agents'| ensures DifferentIds(agents', k, j) {
      assert DifferentIds(agents, k, j);
    }
  }

  lemma AppendingStaysConsistent(
    kinds: map<StageId, Kind>, targeting: map<StageId, nat>, journeys: map<JourneyId, Journey>, agents: seq<Agent>,
    nextId: nat, a: Agent)
    requires Consistent(kinds, targeting, journeys, agents, nextId)
    requires a.id == nextId && a.journey in journeys && a.stage in journeys[a.journey]
    ensures a.stage in kinds && ItemOf(a) !in ItemsOf(agents)
    ensures forall b :: b in agents ==> b.id != a.id
    ensures ItemsOf(agents + [a]) == ItemsOf(agents) + [ItemOf(a)]
    ensures Consistent(kinds, targeting[a.stage := targeting[a.stage] + 1], journeys, agents + [a], nextId + 1)
  {
    assert ValidJourney(journeys[a.journey], kinds.Keys);
    var targeting': map<StageId, nat> := targeting[a.stage := targeting[a.stage] + 1];
    var agents', nextId' := agents + [a], nextId + 1;
    forall s | s in targeting' ensures targeting'[s] == CountAt(agents', s) {
      CountAppended(agents, a, s);
      assert targeting[s] == CountAt(agents, s);
    }
    forall x | x in agents' ensures KnownStage(targeting', x) && IdBelow(x, nextId') && KnownJourney(journeys, x) {
      assert x in agents ==> KnownStage(targeting, x) && IdBelow(x, nextId) && KnownJourney(journeys, x);
    }
    forall k, j {:trigger DifferentIds(agents', k, j)} | 0 <= k < j < |agents'| ensures DifferentIds(agents', k, j) {
      assert if j < |agents| then DifferentIds(agents, k, j) else agents[k] in agents && IdBelow(agents[k], nextId);
    }
    forall b | b in agents ensures b.id != a.id {
      assert IdBelow(b, nextId);
    }
    forall i | 0 <= i < |agents| ensures ItemsOf(agents)[i] != ItemOf(a) {
      assert agents[i] in agents;
    }
  }

  // ---- Journeys that lead only to their own stages ----

  ghost predicate Closed(journeys: map<JourneyId, Journey>) {
    forall j, s :: j in journeys && s in journeys[j] ==> Targets(journeys[j][s]) <= journeys[j].Keys
  }

  ghost predicate AllOnTrack(journeys: map<JourneyId, Journey>, agents: seq<Agent>) {
    forall a :: a in agents ==> a.journey in journeys && a.stage in journeys[a.journey]
  }

  /** On such journeys no decision takes an agent off its journey, so none fails. */
  lemma ClosedJourneysLoseNobody(kinds: map<StageId, Kind>, router: Router, m: Minds, m': Minds, lo: nat, i: nat)
    requires Decisions(kinds, router, m, m', lo, i)
    requires Closed(m.journeys) && AllOnTrack(m.journeys, m.agents)
    ensures Closed(m'.journeys) && AllOnTrack(m'.journeys, m'.agents)
  {
    DecisionsTogether(kinds, router, m, m', lo, i);
    forall j, s | j in m'.journeys && s in m'.journeys[j] ensures Targets(m'.journeys[j][s]) <= m'.journeys[j].Keys {
      assert SameJourney(m.journeys, m'.journeys, j);
    }
    forall a | a in m'.agents ensures a.journey in m'.journeys && a.stage in m'.journeys[a.journey] {
      var k :| 0 <= k < |m'.agents| && m'.agents[k] == a;
      var before := m.agents[k];
      assert Fate(kinds, router, m, m', lo, i, k) && before in m.agents;
      assert SameJourney(m.journeys, m'.journeys, before.journey);
    }
  }

  // ---- How an iteration ends ----

  /** Agent i's decision fails: its stage is not part of its journey, or whether it has completed that
      stage cannot be told. */
  ghost predicate Undecided(kinds: map<StageId, Kind>, router: Router, m: Minds, i: nat) {
    i < |m.agents| && m.agents[i].journey in m.journeys &&
    (m.agents[i].stage !in m.journeys[m.agents[i].journey] || Test(kinds, router, m.agents[i]).None?)
  }

  /** Agents are turned one after the other, up to the one at `turned`, once all have decided. */
  ghost predicate DecidedAndTurned(router: Router, decided: Minds, done: nat, agents: seq<Agent>, turned: nat) {
    TurnedUpTo(router, decided.agents, agents, 0, turned) && (done < |decided.agents| ==> turned == 0)
  }

  /** What stopped an iteration that failed: a decision, a direction, or the operational step. */
  ghost predicate Stopped(
    kinds: map<StageId, Kind>, router: Router, advance: (seq<Agent>, Agent) -> Option<(Place, nat)>, decided: Minds,
    done: nat, agents: seq<Agent>, turned: nat)
  {
    if done < |decided.agents| then Undecided(kinds, router, decided, done)
    else if turned < |agents| then !Routable(router, agents[turned])
    else Blocked(advance, agents)
  }

  /** The course of an iteration: the state after the removal, that after the decisions and how many of
      them were taken, and the agents after the directions and how many of these were found. */
  datatype IterationRun = IterationRun(first: Minds, decided: Minds, done: nat, oriented: seq<Agent>, turned: nat)

  /** The second half of an iteration. */
  ghost predicate Ended(
    kinds: map<StageId, Kind>, router: Router, advance: (seq<Agent>, Agent) -> Option<(Place, nat)>,
    run: IterationRun, outcome: Outcome, after: Minds)
  {
    && DecidedAndTurned(router, run.decided, run.done, run.oriented, run.turned)
    && after == run.decided.(agents := after.agents)
    && if outcome.Ok? then
         run.done == run.turned == |run.decided.agents| && Stepped(advance, run.oriented, after.agents)
       else
         after.agents == run.oriented &&
           Stopped(kinds, router, advance, run.decided, run.done, run.oriented, run.turned)
  }

  /** An iteration from `before` to `after`. */
  ghost predicate Iterated(
    kinds: map<StageId, Kind>, router: Router, advance: (seq<Agent>, Agent) -> Option<(Place, nat)>, before: Minds,
    run: IterationRun, outcome: Outcome, after: Minds)
  {
    && RemovedAndDecided(kinds, router, before, run.first, run.decided, run.done)
    && Ended(kinds, router, advance, run, outcome, after)
  }

  /** On journeys that lead only to their own stages, every agent is on its journey after an iteration as
      before it, whether it succeeds or not; and one that fails does so because routing fails for an
      agent, in its completion test or for its direction, or in the operational step. */
  lemma IterationLosesNobody(
    kinds: map<StageId, Kind>, router: Router, advance: (seq<Agent>, Agent) -> Option<(Place, nat)>, before: Minds,
    run: IterationRun, outcome: Outcome, after: Minds)
    requires Iterated(kinds, router, advance, before, run, outcome, after)
    requires Closed(before.journeys) && AllOnTrack(before.journeys, before.agents)
    ensures Closed(after.journeys) && AllOnTrack(after.journeys, after.agents)
    ensures outcome.Error? ==>
              if run.done < |run.decided.agents| then Test(kinds, router, run.decided.agents[run.done]).None?
              else if run.turned < |run.oriented| then !Routable(router, run.oriented[run.turned])
              else Blocked(advance, run.oriented)
  {
    var decided := run.decided;
    ClosedJourneysLoseNobody(kinds, router, run.first, decided, 0, run.done);
    TurningKeepsHeadings(router, decided.agents, run.oriented, 0, run.turned);
    if outcome.Ok? {
      SteppedKeepsHeadings(advance, run.oriented, after.agents);
    }
    OnTrackByHeadings(decided.journeys, decided.agents, run.oriented);
    if outcome.Ok? {
      OnTrackByHeadings(decided.journeys, run.oriented, after.agents);
    } else if run.done < |decided.agents| {
      assert decided.agents[run.done] in decided.agents;
    }
  }

  lemma OnTrackByHeadings(journeys: map<JourneyId, Journey>, before: seq<Agent>, after: seq<Agent>)
    requires AllOnTrack(journeys, before) && SameHeadings(before, after)
    ensures AllOnTrack(journeys, after)
  {
    forall a | a in after ensures a.journey in journeys && a.stage in journeys[a.journey] {
      var i :| 0 <= i < |after| && after[i] == a;
      assert SameHeading(before[i], after[i]) && before[i] in before;
    }
  }

  /** Iterations one after the other, as the code of a caller's loop runs them. */
  ghost predicate IsCourse(
    kinds: map<StageId, Kind>, router: Router, advance: (seq<Agent>, Agent) -> Option<(Place, nat)>,
    states: seq<Minds>, runs: seq<IterationRun>, outcomes: seq<Outcome>)
  {
    && |states| == |runs| + 1 == |outcomes| + 1
    && forall k {:trigger CourseStep(kinds, router, advance, states, runs, outcomes, k)} :: 0 <= k < |runs| ==>
         CourseStep(kinds, router, advance, states, runs, outcomes, k)
  }

  ghost predicate CourseStep(
    kinds: map<StageId, Kind>, router: Router, advance: (seq<Agent>, Agent) -> Option<(Place, nat)>,
    states: seq<Minds>, runs: seq<IterationRun>, outcomes: seq<Outcome>, k: int)
    requires |states| == |runs| + 1 == |outcomes| + 1 && 0 <= k < |runs|
  {
    Iterated(kinds, router, advance, states[k], runs[k], outcomes[k], states[k + 1])
  }

  /** So no agent ever leaves its journey, over any number of iterations, failed ones among them. */
  lemma CourseLosesNobody(
    kinds: map<StageId, Kind>, router: Router, advance: (seq<Agent>, Agent) -> Option<(Place, nat)>,
    states: seq<Minds>, runs: seq<IterationRun>, outcomes: seq<Outcome>, n: nat)
    requires IsCourse(kinds, router, advance, states, runs, outcomes) && n <= |runs|
    requires Closed(states[0].journeys) && AllOnTrack(states[0].journeys, states[0].agents)
    ensures Closed(states[n].journeys) && AllOnTrack(states[n].journeys, states[n].agents)
  {
    for k := 0 to n
      invariant Closed(states[k].journeys) && AllOnTrack(states[k].journeys, states[k].agents)
    {
      assert CourseStep(kinds, router, advance, states, runs, outcomes, k);
      IterationLosesNobody(kinds, router, advance, states[k], runs[k], outcomes[k], states[k + 1]);
    }
  }

  // ---- A new agent ----

  /** What registering agent a makes of m. */
  function Registered(m: Minds, a: Agent): Minds
    requires a.stage in m.targeting
  {
    Minds(m.journeys, m.agents + [a], m.removed, m.targeting[a.stage := m.targeting[a.stage] + 1])
  }

  /** The routing answers that agent i's first decision needs: whether it has completed its stage, and
      which way to walk to where that leads it. */
  ghost predicate Ready(kinds: map<StageId, Kind>, router: Router, m: Minds, i: nat) {
    && i < |m.agents| && Test(kinds, router, m.agents[i]).Some?
    && forall m' :: DecidesOne(kinds, router, m, m', i) ==> |m'.agents| == |m.agents| && Routable(router, m'.agents[i])
  }

  /** What became of the agent registered at i: the call succeeds exactly if routing answers, and either
      way the agent stays. `decided` is the state after its decision. */
  ghost predicate AddedTo(
    kinds: map<StageId, Kind>, router: Router, start: Minds, i: nat, r: Option<AgentId>, decided: Minds,
    after: Minds)
  {
    && i < |start.agents| == |decided.agents|
    && (r.Some? <==> Ready(kinds, router, start, i))
    && (if Test(kinds, router, start.agents[i]).Some? then DecidesOne(kinds, router, start, decided, i)
         else decided == start)
    && (if r.Some? then
          && r.value == start.agents[i].id && Routable(router, decided.agents[i])
          && after == decided.(agents := decided.agents[i := Turned(router, decided.agents[i])])
        else
          after == decided)
  }

  lemma TurnedLast(router: Router, before: seq<Agent>, after: seq<Agent>, i: nat)
    requires i == |before| - 1 && TurnedUpTo(router, before, after, i, i + 1)
    ensures Routable(router, before[i]) && after == before[i := Turned(router, before[i])]
  {
    var n := i + 1;
    forall k | 0 <= k < |before|
      ensures if k == i then Routable(router, before[i]) && after[k] == Turned(router, before[i])
              else after[k] == before[k]
    {
      assert TurnedAt(router, before, after, i, n, k);
    }
  }

  /** Whether it fails or not, an agent that was registered is in the list, under its id. */
  lemma FailedAddStays(
    kinds: map<StageId, Kind>, router: Router, start: Minds, i: nat, r: Option<AgentId>, decided: Minds,
    after: Minds)
    requires AddedTo(kinds, router, start, i, r, decided, after)
    ensures |after.agents| == |start.agents| && after.agents[i].id == start.agents[i].id
    ensures forall k :: 0 <= k < |start.agents| && k != i ==> after.agents[k] == start.agents[k]
  {
    if Test(kinds, router, start.agents[i]).Some? {
      DecidedOne(kinds, router, start, decided, i);
    }
  }

  lemma DecisionKeepsItems(kinds: map<StageId, Kind>, router: Router, m: Minds, m': Minds, i: nat)
    requires i < |m.agents| && DecidesOne(kinds, router, m, m', i)
    ensures |m'.agents| == |m.agents| && ItemsOf(m'.agents) == ItemsOf(m.agents)
  {
    DecidedOne(kinds, router, m, m', i);
  }

  lemma ReadyByDecision(kinds: map<StageId, Kind>, router: Router, m: Minds, m': Minds, i: nat)
    requires i < |m.agents| == |m'.agents| && DecidesOne(kinds, router, m, m', i)
    ensures Ready(kinds, router, m, i) <==> Routable(router, m'.agents[i])
  {
    forall x | DecidesOne(kinds, router, m, x, i) ensures x == m' {
      DecisionIsDetermined(kinds, router, m, x, m', i);
    }
  }

  // ---- An agent that routing fails for ----

  /** Agent a has not completed its stage, and there is no way to it. */
  predicate Stranded(kinds: map<StageId, Kind>, router: Router, a: Agent) {
    && a.stage in kinds && !kinds[a.stage].DirectSteering?
    && router.contains(a.stage, a.place) == Some(false) && router.orient(ToStage(a.stage), a.place).None?
  }

  predicate SameSpot(a: Agent, b: Agent) {
    b.id == a.id && b.journey == a.journey && b.stage == a.stage && b.place == a.place
  }

  lemma {:induction false} LeavingIds(
    kinds: map<StageId, Kind>, router: Router, agents: seq<Agent>, n: nat, id: AgentId)
    requires n <= |agents| && id in Leaving(kinds, router, agents, 0, n)
    ensures exists k :: 0 <= k < n && agents[k].id == id && Leaves(kinds, router, agents[k])
  {
    if id in Leaving(kinds, router, agents, 0, n - 1) {
      LeavingIds(kinds, router, agents, n - 1, id);
    } else {
      assert agents[n - 1].id == id && Leaves(kinds, router, agents[n - 1]);
    }
  }

  /** While such an agent is not marked for removal, no iteration succeeds, and after it the agent is
      still there, where it was, not listed for removal. */
  lemma StrandedAgentBlocks(
    kinds: map<StageId, Kind>, router: Router, advance: (seq<Agent>, Agent) -> Option<(Place, nat)>, before: Minds,
    run: IterationRun, outcome: Outcome, after: Minds, a: Agent, nextId: nat) returns (b: Agent)
    requires Iterated(kinds, router, advance, before, run, outcome, after)
    requires a in before.agents && a.id !in before.removed && Stranded(kinds, router, a)
    requires UniqueIds(run.first.agents, nextId)
    ensures outcome.Error?
    ensures b in after.agents && SameSpot(a, b) && Stranded(kinds, router, b) && a.id !in after.removed
  {
    var k :| 0 <= k < |run.first.agents| && run.first.agents[k] == a;
    DecisionsTogether(kinds, router, run.first, run.decided, 0, run.done);
    assert Fate(kinds, router, run.first, run.decided, 0, run.done, k);
    assert TurnedAt(router, run.decided.agents, run.oriented, 0, run.turned, k);
    b := run.oriented[k];
    assert k < run.done ==> !Routable(router, run.decided.agents[k]);
    if a.id in after.removed {
      LeavingIds(kinds, router, run.first.agents, run.done, a.id);
      var j :| 0 <= j < run.done && run.first.agents[j].id == a.id && Leaves(kinds, router, run.first.agents[j]);
      OneAgentPerId(run.first.agents, nextId, j, k);
    }
  }

  lemma OneAgentPerId(agents: seq<Agent>, nextId: nat, j: nat, k: nat)
    requires UniqueIds(agents, nextId) && j < |agents| && k < |agents| && agents[j].id == agents[k].id
    ensures j == k
  {
    assert j < k ==> DifferentIds(agents, j, k);
    assert k < j ==> DifferentIds(agents, k, j);
  }
}
