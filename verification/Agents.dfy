// Agents, how stages count them, and the journeys they follow (libsimulator/src/journey.hpp,
// libsimulator/src/agent_removal_system.hpp).
module Agents {
  import opened Sequences
  import opened Journeys
  import opened Stages
  import opened Plane
  import opened Neighborhood
  import opened Routing

  type AgentId = nat
  type JourneyId = nat

  /** `target` is where the agent is to be routed, `heading` which way to walk for that. */
  datatype Agent =
    Agent(id: AgentId, journey: JourneyId, stage: StageId, place: Place, target: Target, heading: Point, state: nat)

  /** How an agent that has completed a stage finds its next one. */
  datatype Transition =
    | Fixed(next: StageId)
    | RoundRobin(weighted: Weighted, nextCalled: nat)
    | ToLeastTargeted(candidates: seq<StageId>)

  /** The stages of a journey and their transitions. */
  type Journey = map<StageId, Transition>

  datatype Outcome = Ok | Error

  // ---- Counting ----

  /** How many agents head for stage s. */
  ghost function CountAt(agents: seq<Agent>, s: StageId): nat {
    if agents == [] then 0 else CountAt(agents[..|agents| - 1], s) + (if agents[|agents| - 1].stage == s then 1 else 0)
  }

  lemma {:induction false} CountUpdated(agents: seq<Agent>, i: nat, a: Agent, s: StageId)
    requires i < |agents|
    ensures CountAt(agents[i := a], s) + (if agents[i].stage == s then 1 else 0) ==
            CountAt(agents, s) + (if a.stage == s then 1 else 0)
  {
    var n := |agents| - 1;
    if i == n {
      assert agents[i := a][..n] == agents[..n];
    } else {
      assert agents[i := a][..n] == agents[..n][i := a];
      CountUpdated(agents[..n], i, a, s);
    }
  }

  lemma CountAppended(agents: seq<Agent>, a: Agent, s: StageId)
    ensures CountAt(agents + [a], s) == CountAt(agents, s) + (if a.stage == s then 1 else 0)
  {
    assert (agents + [a])[..|agents|] == agents;
  }

  lemma {:induction false} CountPositive(agents: seq<Agent>, i: nat)
    requires i < |agents|
    ensures CountAt(agents, agents[i].stage) > 0
  {
    if i < |agents| - 1 {
      CountPositive(agents[..|agents| - 1], i);
    }
  }

  /** Counters match the agents: each stage's counter is the number of agents heading for it, and
      every agent heads for a known stage. */
  ghost predicate CountersMatch(targeting: map<StageId, nat>, agents: seq<Agent>) {
    && (forall a {:trigger KnownStage(targeting, a)} :: a in agents ==> KnownStage(targeting, a))
    && forall s {:trigger CountAt(agents, s)} :: s in targeting ==> targeting[s] == CountAt(agents, s)
  }

  predicate KnownStage(targeting: map<StageId, nat>, a: Agent) {
    a.stage in targeting
  }

  lemma {:induction false} CountConcat(xs: seq<Agent>, ys: seq<Agent>, s: StageId)
    ensures CountAt(xs + ys, s) == CountAt(xs, s) + CountAt(ys, s)
  {
    if ys == [] {
      assert xs + ys == xs;
    } else {
      var n := |ys| - 1;
      assert (xs + ys)[..|xs| + n] == xs + ys[..n];
      CountConcat(xs, ys[..n], s);
    }
  }

  /** Dropping one agent from the middle. */
  lemma CountDropped(xs: seq<Agent>, a: Agent, ys: seq<Agent>, s: StageId)
    ensures CountAt(xs + [a] + ys, s) == CountAt(xs + ys, s) + (if a.stage == s then 1 else 0)
  {
    CountConcat(xs + [a], ys, s);
    CountAppended(xs, a, s);
    CountConcat(xs, ys, s);
  }

  lemma DroppingKeepsCounters(targeting: map<StageId, nat>, xs: seq<Agent>, a: Agent, ys: seq<Agent>)
    requires CountersMatch(targeting, xs + [a] + ys)
    ensures a.stage in targeting && targeting[a.stage] > 0
    ensures CountersMatch(targeting[a.stage := targeting[a.stage] - 1], xs + ys)
  {
    assert (xs + [a] + ys)[|xs|] == a;
    CountPositive(xs + [a] + ys, |xs|);
    assert a in xs + [a] + ys;
    forall s | s in targeting ensures CountAt(xs + [a] + ys, s) ==
      CountAt(xs + ys, s) + (if a.stage == s then 1 else 0) {
      CountDropped(xs, a, ys, s);
    }
    assert KnownStage(targeting, a);
    forall x | x in xs + ys ensures KnownStage(targeting, x) {
      assert x in xs + [a] + ys;
    }
  }

  /** Moving one agent to another stage, with the counters migrated, keeps them matching. */
  lemma MigrationKeepsCounters(
    targeting: map<StageId, nat>, targeting': map<StageId, nat>, agents: seq<Agent>, i: nat, next: StageId,
    target: Target)
    requires CountersMatch(targeting, agents) && i < |agents|
    requires Migrated(targeting, targeting', agents[i].stage, next)
    ensures CountersMatch(targeting', agents[i := agents[i].(stage := next, target := target)])
  {
    var a := agents[i].(stage := next, target := target);
    forall s | s in targeting' ensures targeting'[s] == CountAt(agents[i := a], s) {
      CountUpdated(agents, i, a, s);
      assert targeting[s] == CountAt(agents, s);
    }
    forall x | x in agents[i := a] ensures KnownStage(targeting', x) {
      assert x in agents || x == a;
      assert x in agents ==> KnownStage(targeting, x);
    }
  }

  // ---- Journeys ----

  /** All stages a transition can lead to. */
  function Targets(t: Transition): set<StageId> {
    match t
    case Fixed(next) => {next}
    case RoundRobin(weighted, _) => set i | 0 <= i < |weighted| :: weighted[i].0
    case ToLeastTargeted(candidates) => set c | c in candidates
  }

  ghost predicate ValidTransition(t: Transition) {
    match t
    case Fixed(_) => true
    case RoundRobin(weighted, nextCalled) => ValidRoundRobin(weighted) && nextCalled < Sum(weighted)
    case ToLeastTargeted(candidates) => candidates != []
  }

  /** Every stage a journey names exists. (That every target is also a stage of the journey is not
      checked when a journey is added.) */
  ghost predicate ValidJourney(j: Journey, stages: set<StageId>) {
    forall s :: s in j ==> s in stages && ValidTransition(j[s]) && Targets(j[s]) <= stages
  }

  /** The next stage a transition leads to, and the transition after the call. */
  ghost predicate LeadsTo(t: Transition, targeting: map<StageId, nat>, next: StageId, t': Transition)
    requires ValidTransition(t) && Targets(t) <= targeting.Keys
  {
    match t
    case Fixed(n) => next == n && t' == t
    case RoundRobin(weighted, called) =>
      next == weighted[Pick(weighted, called)].0 && t' == RoundRobin(weighted, Cycle(called + 1, Sum(weighted)))
    case ToLeastTargeted(candidates) =>
      t' == t && exists i: nat :: IsLeastTargeted(candidates, targeting, i) && next == candidates[i]
  }

  lemma LeadsToTarget(t: Transition, targeting: map<StageId, nat>, next: StageId, t': Transition)
    requires ValidTransition(t) && Targets(t) <= targeting.Keys && LeadsTo(t, targeting, next, t')
    ensures next in Targets(t) && ValidTransition(t') && Targets(t') == Targets(t)
  {
  }

  /** A transition leaves no choice. */
  lemma LeadsToOne(
    t: Transition, targeting: map<StageId, nat>, n1: StageId, t1: Transition, n2: StageId, t2: Transition)
    requires ValidTransition(t) && Targets(t) <= targeting.Keys
    requires LeadsTo(t, targeting, n1, t1) && LeadsTo(t, targeting, n2, t2)
    ensures n1 == n2 && t1 == t2
  {
  }

  method NextInTurn(weighted: Weighted, called: nat) returns (next: StageId, t': Transition)
    requires ValidRoundRobin(weighted) && called < Sum(weighted)
    ensures next == weighted[Pick(weighted, called)].0
    ensures t' == RoundRobin(weighted, Cycle(called + 1, Sum(weighted)))
  {
    var transition := new RoundRobinTransition.At(weighted, called);
    next := transition.NextStage();
    t' := RoundRobin(weighted, transition.nextCalled);
  }

  method NextStage(t: Transition, targeting: map<StageId, nat>) returns (next: StageId, t': Transition)
    requires ValidTransition(t) && Targets(t) <= targeting.Keys
    ensures LeadsTo(t, targeting, next, t')
    ensures next in Targets(t) && ValidTransition(t') && Targets(t') == Targets(t)
  {
    match t
    case Fixed(n) =>
      next, t' := n, t;
    case RoundRobin(weighted, called) =>
      next, t' := NextInTurn(weighted, called);
    case ToLeastTargeted(candidates) =>
      var i := LeastTargeted(candidates, targeting);
      next, t' := candidates[i], t;
  }

  /** How a caller describes a stage's transition. */
  datatype Description =
    | Stay
    | GoTo(next: StageId)
    | RoundRobinOver(weighted: Weighted)
    | LeastTargetedOf(candidates: seq<StageId>)

  function Resolve(s: StageId, d: Description): Transition {
    match d
    case Stay => Fixed(s)
    case GoTo(next) => Fixed(next)
    case RoundRobinOver(weighted) => RoundRobin(weighted, 0)
    case LeastTargetedOf(candidates) => ToLeastTargeted(candidates)
  }

  /** What is checked of a stage's description: all stages exist, no weight is zero. */
  predicate Accepted(kinds: map<StageId, Kind>, s: StageId, d: Description) {
    && s in kinds
    && Targets(Resolve(s, d)) <= kinds.Keys
    && (d.RoundRobinOver? ==> forall i :: 0 <= i < |d.weighted| ==> d.weighted[i].1 > 0)
  }

  /** Not checked when a journey is added: a list without a stage is accepted, but no next stage can be
      taken from it. */
  predicate NamesSomeStage(d: Description) {
    && (d.RoundRobinOver? ==> d.weighted != [])
    && (d.LeastTargetedOf? ==> d.candidates != [])
  }

  predicate AllNameSomeStage(descriptions: map<StageId, Description>) {
    forall s :: s in descriptions ==> NamesSomeStage(descriptions[s])
  }

  function ResolveAll(descriptions: map<StageId, Description>): Journey {
    map s | s in descriptions :: Resolve(s, descriptions[s])
  }

  /** A journey with direct steering has no other stage. */
  predicate AcceptedAll(kinds: map<StageId, Kind>, descriptions: map<StageId, Description>) {
    && (forall s :: s in descriptions ==> Accepted(kinds, s, descriptions[s]))
    && (|descriptions| > 1 ==> forall s :: s in descriptions ==> !kinds[s].DirectSteering?)
  }

  lemma ResolvedIsValidIff(kinds: map<StageId, Kind>, descriptions: map<StageId, Description>)
    requires AcceptedAll(kinds, descriptions)
    ensures ValidJourney(ResolveAll(descriptions), kinds.Keys) <==> AllNameSomeStage(descriptions)
  {
    forall s | s in descriptions
      ensures ValidTransition(Resolve(s, descriptions[s])) <==> NamesSomeStage(descriptions[s])
    {
      var d := descriptions[s];
      assert Accepted(kinds, s, d);
      if d.RoundRobinOver? && d.weighted != [] {
        SumPositive(d.weighted);
      }
    }
    forall s | s in descriptions ensures s in kinds && Targets(Resolve(s, descriptions[s])) <= kinds.Keys {
      assert Accepted(kinds, s, descriptions[s]);
    }
    var j := ResolveAll(descriptions);
    assert forall s :: s in descriptions ==> s in j && j[s] == Resolve(s, descriptions[s]);
  }

  // ---- Where descriptions lead ----

  /** The transition that a description stands for once k agents have gone on from its stage. */
  ghost predicate AfterCalls(s: StageId, d: Description, k: nat, t: Transition) {
    match d
    case Stay => t == Fixed(s)
    case GoTo(n) => t == Fixed(n)
    case RoundRobinOver(w) => t == RoundRobin(w, if Sum(w) == 0 then 0 else k % Sum(w))
    case LeastTargetedOf(candidates) => t == ToLeastTargeted(candidates)
  }

  /** The stage that the k-th agent to complete stage s is sent to: the same again, the one named, the one
      whose interval of prefix sums holds k, counted around the cycle, or the first least targeted one. */
  ghost predicate SendsTo(s: StageId, d: Description, k: nat, targeting: map<StageId, nat>, next: StageId) {
    match d
    case Stay => next == s
    case GoTo(n) => next == n
    case RoundRobinOver(w) => Sum(w) > 0 && exists i: nat :: Holds(w, i, k % Sum(w)) && next == w[i].0
    case LeastTargetedOf(candidates) =>
      (forall c :: c in candidates ==> c in targeting) &&
      exists i: nat :: IsLeastTargeted(candidates, targeting, i) && next == candidates[i]
  }

  /** The stage and all stages it can lead to are known, and no weight is zero. */
  ghost predicate Known(known: set<StageId>, s: StageId, d: Description) {
    && s in known
    && match d
       case Stay => true
       case GoTo(n) => n in known
       case RoundRobinOver(w) => forall i :: 0 <= i < |w| ==> w[i].0 in known && w[i].1 > 0
       case LeastTargetedOf(candidates) => forall c :: c in candidates ==> c in known
  }

  lemma AcceptedIffKnown(kinds: map<StageId, Kind>, descriptions: map<StageId, Description>)
    ensures forall s :: s in descriptions ==>
              (Accepted(kinds, s, descriptions[s]) <==> Known(kinds.Keys, s, descriptions[s]))
  {
  }

  /** Every stage of the journey has the transition that its description stands for. */
  ghost predicate JustAdded(descriptions: map<StageId, Description>, journey: Journey) {
    journey.Keys == descriptions.Keys && forall s :: s in descriptions ==> AfterCalls(s, descriptions[s], 0, journey[s])
  }

  lemma ResolvedIsJustAdded(descriptions: map<StageId, Description>)
    ensures JustAdded(descriptions, ResolveAll(descriptions))
  {
    forall s | s in descriptions ensures AfterCalls(s, descriptions[s], 0, Resolve(s, descriptions[s])) {
      if descriptions[s].RoundRobinOver? && Sum(descriptions[s].weighted) > 0 {
        CycleIsModulo(0, Sum(descriptions[s].weighted));
      }
    }
  }

  lemma CallLeadsOn(
    s: StageId, d: Description, k: nat, targeting: map<StageId, nat>, t: Transition, next: StageId, t': Transition)
    requires AfterCalls(s, d, k, t) && ValidTransition(t) && Targets(t) <= targeting.Keys
    requires LeadsTo(t, targeting, next, t')
    ensures SendsTo(s, d, k, targeting, next) && AfterCalls(s, d, k + 1, t')
  {
    if d.RoundRobinOver? {
      var m := Sum(d.weighted);
      CycleIsModulo(k, m);
      CycleIsModulo(k % m, m);
      CycleIsModulo(k + 1, m);
      CycleStep(k, m);
    }
  }

  // ---- Agents and the grid ----

  function ItemOf(a: Agent): Item {
    Item(a.id, a.place.xy)
  }

  function ItemsOf(agents: seq<Agent>): (items: seq<Item>)
    ensures |items| == |agents|
    ensures forall i :: 0 <= i < |agents| ==> items[i] == ItemOf(agents[i])
  {
    seq(|agents|, i requires 0 <= i < |agents| => ItemOf(agents[i]))
  }

  ghost predicate UniqueIds(agents: seq<Agent>, nextId: nat) {
    && (forall a {:trigger IdBelow(a, nextId)} :: a in agents ==> IdBelow(a, nextId))
    && forall i, j {:trigger DifferentIds(agents, i, j)} :: 0 <= i < j < |agents| ==> DifferentIds(agents, i, j)
  }

  predicate IdBelow(a: Agent, nextId: nat) {
    a.id < nextId
  }

  predicate DifferentIds(agents: seq<Agent>, i: int, j: int)
    requires 0 <= i < j < |agents|
  {
    agents[i].id != agents[j].id
  }

  /** The agents not listed for removal, in their order. */
  ghost function Survivors(agents: seq<Agent>, listed: seq<AgentId>): (r: seq<Agent>)
    ensures forall a :: a in r <==> a in agents && a.id !in listed
  {
    if agents == [] then
      []
    else
      var last := agents[|agents| - 1];
      Survivors(agents[..|agents| - 1], listed) + (if last.id !in listed then [last] else [])
  }

  lemma SurvivorsStep(agents: seq<Agent>, listed: seq<AgentId>, i: nat)
    requires i < |agents|
    ensures Survivors(agents[..i + 1], listed) ==
            Survivors(agents[..i], listed) + (if agents[i].id !in listed then [agents[i]] else [])
  {
    assert agents[..i + 1][..i] == agents[..i];
  }

  lemma {:induction false} SurvivorsKeepIds(agents: seq<Agent>, listed: seq<AgentId>, nextId: nat)
    requires UniqueIds(agents, nextId)
    ensures UniqueIds(Survivors(agents, listed), nextId)
  {
    if agents != [] {
      var n := |agents| - 1;
      var front := agents[..n];
      forall i, j {:trigger DifferentIds(front, i, j)} | 0 <= i < j < n ensures DifferentIds(front, i, j) {
        assert DifferentIds(agents, i, j);
      }
      SurvivorsKeepIds(front, listed, nextId);
      var rest := Survivors(front, listed);
      var all := Survivors(agents, listed);
      forall i, j {:trigger DifferentIds(all, i, j)} | 0 <= i < j < |all| ensures DifferentIds(all, i, j) {
        if j < |rest| {
          assert DifferentIds(rest, i, j);
        } else {
          assert rest[i] in front;
          var k :| 0 <= k < n && front[k] == rest[i];
          assert DifferentIds(agents, k, n);
        }
      }
    }
  }

  /** What holds at every moment, also half-way through an iteration. */
  ghost predicate Consistent(
    kinds: map<StageId, Kind>, targeting: map<StageId, nat>, journeys: map<JourneyId, Journey>, agents: seq<Agent>,
    nextId: nat)
  {
    && targeting.Keys == kinds.Keys
    && CountersMatch(targeting, agents)
    && UniqueIds(agents, nextId)
    && (forall j {:trigger ValidJourney(journeys[j], kinds.Keys)} :: j in journeys ==>
         ValidJourney(journeys[j], kinds.Keys))
    && (forall a {:trigger KnownJourney(journeys, a)} :: a in agents ==> KnownJourney(journeys, a))
  }

  predicate KnownJourney(journeys: map<JourneyId, Journey>, a: Agent) {
    a.journey in journeys
  }

  /** The journeys after journey j's transition at stage s has become t'. */
  function Advanced(
    journeys: map<JourneyId, Journey>, j: JourneyId, s: StageId, t': Transition): (r: map<JourneyId, Journey>)
    requires j in journeys && s in journeys[j]
    ensures r.Keys == journeys.Keys && forall k :: k in r ==> r[k].Keys == journeys[k].Keys
  {
    var journey: Journey := journeys[j][s := t'];
    journeys[j := journey]
  }

  lemma AdvancingStaysConsistent(
    kinds: map<StageId, Kind>, targeting: map<StageId, nat>, journeys: map<JourneyId, Journey>, agents: seq<Agent>,
    nextId: nat, j: JourneyId, s: StageId, t': Transition)
    requires Consistent(kinds, targeting, journeys, agents, nextId)
    requires j in journeys && s in journeys[j]
    requires ValidTransition(t') && Targets(t') == Targets(journeys[j][s])
    ensures Consistent(kinds, targeting, Advanced(journeys, j, s, t'), agents, nextId)
  {
    var journeys' := Advanced(journeys, j, s, t');
    assert ValidJourney(journeys[j], kinds.Keys);
    forall k | k in journeys' ensures ValidJourney(journeys'[k], kinds.Keys) {
      assert ValidJourney(journeys[k], kinds.Keys);
    }
    forall a | a in agents ensures KnownJourney(journeys', a) {
      assert KnownJourney(journeys, a);
    }
  }

  lemma MigrationStaysConsistent(
    kinds: map<StageId, Kind>, targeting: map<StageId, nat>, targeting': map<StageId, nat>,
    journeys: map<JourneyId, Journey>, agents: seq<Agent>, nextId: nat, i: nat, next: StageId, target: Target)
    requires Consistent(kinds, targeting, journeys, agents, nextId) && i < |agents|
    requires Migrated(targeting, targeting', agents[i].stage, next)
    ensures Consistent(kinds, targeting', journeys, agents[i := agents[i].(stage := next, target := target)], nextId)
  {
    MigrationKeepsCounters(targeting, targeting', agents, i, next, target);
    var agents' := agents[i := agents[i].(stage := next, target := target)];
    forall a | a in agents' ensures KnownJourney(journeys, a) && IdBelow(a, nextId) {
      assert agents[i] in agents;
      var was := if a in agents then a else agents[i];
      assert KnownJourney(journeys, was) && IdBelow(was, nextId);
    }
    forall k, j {:trigger DifferentIds(agents', k, j)} | 0 <= k < j < |agents| ensures DifferentIds(agents', k, j) {
      assert DifferentIds(agents, k, j);
    }
  }

  lemma {:induction false} CountNone(agents: seq<Agent>, s: StageId)
    requires forall a :: a in agents ==> a.stage != s
    ensures CountAt(agents, s) == 0
  {
    if agents != [] {
      CountNone(agents[..|agents| - 1], s);
    }
  }

  lemma NewStageStaysConsistent(
    kinds: map<StageId, Kind>, targeting: map<StageId, nat>, journeys: map<JourneyId, Journey>, agents: seq<Agent>,
    nextId: nat, s: StageId, kind: Kind)
    requires Consistent(kinds, targeting, journeys, agents, nextId) && s !in kinds
    ensures Consistent(kinds[s := kind], targeting[s := 0], journeys, agents, nextId)
  {
    var kinds': map<StageId, Kind>, targeting': map<StageId, nat> := kinds[s := kind], targeting[s := 0];
    forall a | a in agents ensures KnownStage(targeting', a) && a.stage != s {
      assert KnownStage(targeting, a);
    }
    CountNone(agents, s);
    forall r | r in targeting' ensures targeting'[r] == CountAt(agents, r) {
      assert r != s ==> targeting[r] == CountAt(agents, r);
    }
    forall j | j in journeys ensures ValidJourney(journeys[j], kinds'.Keys) {
      assert ValidJourney(journeys[j], kinds.Keys);
    }
  }

  lemma ConsistentIffJourneyValid(
    kinds: map<StageId, Kind>, targeting: map<StageId, nat>, journeys: map<JourneyId, Journey>, agents: seq<Agent>,
    nextId: nat, j: JourneyId, journey: Journey)
    requires Consistent(kinds, targeting, journeys, agents, nextId)
    requires j !in journeys
    ensures Consistent(kinds, targeting, journeys[j := journey], agents, nextId) <==> ValidJourney(journey, kinds.Keys)
  {
    var journeys': map<JourneyId, Journey> := journeys[j := journey];
    assert j in journeys' && journeys'[j] == journey;
    forall k | k in journeys' && k != j ensures ValidJourney(journeys'[k], kinds.Keys) {
      assert ValidJourney(journeys[k], kinds.Keys);
    }
    forall a | a in agents ensures KnownJourney(journeys', a) {
      assert KnownJourney(journeys, a);
    }
  }

  lemma MemberFacts(
    kinds: map<StageId, Kind>, targeting: map<StageId, nat>, journeys: map<JourneyId, Journey>, agents: seq<Agent>,
    nextId: nat, i: nat)
    requires Consistent(kinds, targeting, journeys, agents, nextId) && i < |agents|
    ensures agents[i].journey in journeys && agents[i].stage in kinds && targeting[agents[i].stage] > 0
    ensures forall s :: s in journeys[agents[i].journey] ==>
              ValidTransition(journeys[agents[i].journey][s]) && Targets(journeys[agents[i].journey][s]) <= kinds.Keys
  {
    assert KnownJourney(journeys, agents[i]) && KnownStage(targeting, agents[i]);
    CountPositive(agents, i);
    assert ValidJourney(journeys[agents[i].journey], kinds.Keys);
  }

  /** Part-way through a removal: `kept` are the survivors among the first i agents, and the
      counters match these and the agents not looked at yet. */
  ghost predicate Removing(
    targeting: map<StageId, nat>, agents: seq<Agent>, listed: seq<AgentId>, i: nat, kept: seq<Agent>)
  {
    i <= |agents| && kept == Survivors(agents[..i], listed) && CountersMatch(targeting, kept + agents[i..])
  }

  lemma RemovalStarts(targeting: map<StageId, nat>, agents: seq<Agent>, listed: seq<AgentId>)
    requires CountersMatch(targeting, agents)
    ensures Removing(targeting, agents, listed, 0, [])
  {
    assert [] + agents[0..] == agents;
  }

  lemma ListedIsDropped(
    targeting: map<StageId, nat>, agents: seq<Agent>, listed: seq<AgentId>, i: nat, kept: seq<Agent>)
    requires Removing(targeting, agents, listed, i, kept) && i < |agents| && agents[i].id in listed
    ensures agents[i].stage in targeting && targeting[agents[i].stage] > 0
    ensures Removing(targeting[agents[i].stage := targeting[agents[i].stage] - 1], agents, listed, i + 1, kept)
  {
    SurvivorsStep(agents, listed, i);
    MoveOne(kept, agents, i);
    DroppingKeepsCounters(targeting, kept, agents[i], agents[i + 1..]);
  }

  lemma UnlistedIsKept(targeting: map<StageId, nat>, agents: seq<Agent>, listed: seq<AgentId>, i: nat, kept: seq<Agent>)
    requires Removing(targeting, agents, listed, i, kept) && i < |agents| && agents[i].id !in listed
    ensures Removing(targeting, agents, listed, i + 1, kept + [agents[i]])
  {
    SurvivorsStep(agents, listed, i);
    MoveOne(kept, agents, i);
  }

  lemma RemovalEnds(
    kinds: map<StageId, Kind>, before: map<StageId, nat>, targeting: map<StageId, nat>,
    journeys: map<JourneyId, Journey>, agents: seq<Agent>, nextId: nat, listed: seq<AgentId>, kept: seq<Agent>)
    requires Consistent(kinds, before, journeys, agents, nextId) && targeting.Keys == kinds.Keys
    requires Removing(targeting, agents, listed, |agents|, kept)
    ensures kept == Survivors(agents, listed) && Consistent(kinds, targeting, journeys, kept, nextId)
  {
    assert agents[..|agents|] == agents && kept + agents[|agents|..] == kept;
    SurvivorsKeepIds(agents, listed, nextId);
  }
}
