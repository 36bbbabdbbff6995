// What becomes of single agents: over one iteration, and on a journey from the time it is added
// (libsimulator/src/simulation.cpp, libsimulator/src/journey.hpp and the decision systems).
module AgentCourses {
  import opened Wrappers
  import opened Journeys
  import opened Stages
  import opened Agents
  import opened Routing
  import opened Steps

  // ---- One agent over one iteration ----

  /** Agent a, then agent b after an iteration: on the same journey; at its stage or, if it had reached it, at
      one that the journey leads to from there; routed to that stage unless that is direct steering, which
      leaves the target to others; and walking as the router said from where it stood. */
  ghost predicate WentOn(
    kinds: map<StageId, Kind>, router: Router, journeys: map<JourneyId, Journey>, a: Agent, b: Agent)
  {
    && b.id == a.id && b.journey == a.journey
    && a.journey in journeys && a.stage in journeys[a.journey] && a.stage in kinds
    && (if kinds[a.stage].DirectSteering? || router.contains(a.stage, a.place) == Some(false) then
          b.stage == a.stage
        else
          router.contains(a.stage, a.place) == Some(true) && b.stage in Targets(journeys[a.journey][a.stage]))
    && b.target == (if b.stage in kinds && kinds[b.stage].DirectSteering? then a.target else ToStage(b.stage))
    && router.orient(b.target, a.place) == Some(b.heading)
  }

  /** The place and state of agent k after an iteration are computed from where all agents stood, decided and
      turned. */
  ghost predicate MovedOn(
    advance: (seq<Agent>, Agent) -> Option<(Place, nat)>, first: seq<Agent>, turned: seq<Agent>, after: seq<Agent>,
    k: nat)
    requires k < |first| == |turned| == |after|
  {
    && turned[k].place == first[k].place && turned[k].state == first[k].state
    && advance(turned, turned[k]) == Some((after[k].place, after[k].state))
    && after[k] == turned[k].(place := after[k].place, state := after[k].state)
  }

  /** A successful iteration, agent by agent. */
  lemma IterationPerAgent(
    kinds: map<StageId, Kind>, router: Router, advance: (seq<Agent>, Agent) -> Option<(Place, nat)>, before: Minds,
    run: IterationRun, after: Minds, k: nat)
    requires Iterated(kinds, router, advance, before, run, Ok, after)
    requires k < |run.first.agents|
    ensures run.first.agents == Survivors(before.agents, before.removed)
    ensures |after.agents| == |run.first.agents| == |run.oriented|
    ensures WentOn(kinds, router, before.journeys, run.first.agents[k], after.agents[k])
    ensures MovedOn(advance, run.first.agents, run.oriented, after.agents, k)
  {
    DecisionsTogether(kinds, router, run.first, run.decided, 0, run.done);
    assert Fate(kinds, router, run.first, run.decided, 0, run.done, k);
    assert TurnedAt(router, run.decided.agents, run.oriented, 0, run.turned, k);
    assert SteppedAt(advance, run.oriented, after.agents, k);
    TurnedAfterDecision(kinds, router, before.journeys, run.first.agents[k], run.decided.agents[k], run.oriented[k]);
  }

  lemma TurnedAfterDecision(
    kinds: map<StageId, Kind>, router: Router, journeys: map<JourneyId, Journey>, a: Agent, d: Agent, b: Agent)
    requires a.journey in journeys && a.stage in journeys[a.journey] && a.stage in kinds && Test(kinds, router, a).Some?
    requires d == Heading(kinds, a, d.stage) && Decided(kinds, router, journeys, a, d.stage)
    requires Routable(router, d) && b == Turned(router, d)
    ensures WentOn(kinds, router, journeys, a, b)
    ensures b.place == a.place && b.state == a.state
  {
    var there := router.contains(a.stage, a.place);
    assert there.Some? ==> there == if there.value then Some(true) else Some(false);
  }

  /** The agents listed for removal by an iteration are those that have reached an exit. */
  lemma ExitsAreListed(
    kinds: map<StageId, Kind>, router: Router, advance: (seq<Agent>, Agent) -> Option<(Place, nat)>, before: Minds,
    run: IterationRun, after: Minds, id: AgentId)
    requires Iterated(kinds, router, advance, before, run, Ok, after)
    ensures id in after.removed <==>
              exists a :: a in Survivors(before.agents, before.removed) && a.id == id && a.stage in kinds &&
                kinds[a.stage].Exit? && router.contains(a.stage, a.place) == Some(true)
  {
    DecisionsTogether(kinds, router, run.first, run.decided, 0, run.done);
    LeavingIff(kinds, router, run.first.agents, id);
  }

  lemma LeavingIff(kinds: map<StageId, Kind>, router: Router, agents: seq<Agent>, id: AgentId)
    ensures id in Leaving(kinds, router, agents, 0, |agents|) <==>
              exists a :: a in agents && a.id == id && a.stage in kinds &&
                kinds[a.stage].Exit? && router.contains(a.stage, a.place) == Some(true)
  {
    if id in Leaving(kinds, router, agents, 0, |agents|) {
      LeavingIds(kinds, router, agents, |agents|, id);
    }
    forall a | a in agents && Leaves(kinds, router, a) ensures a.id in Leaving(kinds, router, agents, 0, |agents|) {
      var k :| 0 <= k < |agents| && agents[k] == a;
      LeaversAreListed(kinds, router, agents, |agents|, k);
    }
  }

  lemma {:induction false} LeaversAreListed(
    kinds: map<StageId, Kind>, router: Router, agents: seq<Agent>, n: nat, k: nat)
    requires k < n <= |agents| && Leaves(kinds, router, agents[k])
    ensures agents[k].id in Leaving(kinds, router, agents, 0, n)
  {
    if k < n - 1 {
      LeaversAreListed(kinds, router, agents, n - 1, k);
    }
  }

  // ---- A journey from the time it is added ----

  /** What happens to a simulation from one state to the next: an agent decides, or something else, like
      moving, adding or removing agents, adding stages or other journeys, that leaves journey j as it is. */
  datatype Event = Decision(agent: nat) | Other

  /** States of a simulation, the stages there are in each, and the events between them. */
  datatype History = History(states: seq<Minds>, kinds: seq<map<StageId, Kind>>, events: seq<Event>)

  ghost predicate Happens(h: History, router: Router, j: JourneyId, n: int)
    requires |h.states| == |h.kinds| == |h.events| + 1 && 0 <= n < |h.events|
  {
    match h.events[n]
    case Decision(i) => i < |h.states[n].agents| && DecidesOne(h.kinds[n], router, h.states[n], h.states[n + 1], i)
    case Other =>
      && j in h.states[n].journeys && j in h.states[n + 1].journeys
      && h.states[n + 1].journeys[j] == h.states[n].journeys[j]
  }

  ghost predicate IsHistory(h: History, router: Router, j: JourneyId) {
    && |h.states| == |h.kinds| == |h.events| + 1
    && forall n {:trigger Happens(h, router, j, n)} :: 0 <= n < |h.events| ==> Happens(h, router, j, n)
  }

  /** Event n is the decision of an agent on journey j that has reached stage s. */
  ghost predicate GoesOnFrom(h: History, router: Router, j: JourneyId, s: StageId, n: nat)
    requires |h.states| == |h.kinds| == |h.events| + 1 && n < |h.events|
  {
    h.events[n].Decision? && h.events[n].agent < |h.states[n].agents| &&
    var a := h.states[n].agents[h.events[n].agent];
    && a.journey == j && a.stage == s && s in h.kinds[n] && !h.kinds[n][s].DirectSteering?
    && router.contains(s, a.place) == Some(true)
  }

  /** How many of the first n events are. */
  ghost function Gone(h: History, router: Router, j: JourneyId, s: StageId, n: nat): nat
    requires |h.states| == |h.kinds| == |h.events| + 1 && n <= |h.events|
  {
    if n == 0 then 0 else Gone(h, router, j, s, n - 1) + (if GoesOnFrom(h, router, j, s, n - 1) then 1 else 0)
  }

  /** The transitions of journey j after the first n events. */
  ghost predicate KeepsPace(h: History, router: Router, j: JourneyId, descriptions: map<StageId, Description>, n: nat)
    requires |h.states| == |h.kinds| == |h.events| + 1 && n <= |h.events|
  {
    && j in h.states[n].journeys && h.states[n].journeys[j].Keys == descriptions.Keys
    && forall s {:trigger Gone(h, router, j, s, n)} :: s in descriptions ==>
         AfterCalls(s, descriptions[s], Gone(h, router, j, s, n), h.states[n].journeys[j][s])
  }

  lemma PaceOneMore(h: History, router: Router, j: JourneyId, descriptions: map<StageId, Description>, n: nat)
    requires IsHistory(h, router, j) && n < |h.events| && KeepsPace(h, router, j, descriptions, n)
    ensures KeepsPace(h, router, j, descriptions, n + 1)
    ensures forall s :: s in descriptions && GoesOnFrom(h, router, j, s, n) ==>
              h.events[n].agent < |h.states[n + 1].agents| &&
              SendsTo(s, descriptions[s], Gone(h, router, j, s, n), h.states[n].targeting,
                      h.states[n + 1].agents[h.events[n].agent].stage)
  {
    assert Happens(h, router, j, n);
    var m, m' := h.states[n], h.states[n + 1];
    if h.events[n].Decision? && Completed(h.kinds[n], router, m.agents[h.events[n].agent]) {
      var a := m.agents[h.events[n].agent];
      var next, t' :| GoesOn(h.kinds[n], m, m', h.events[n].agent, next, t');
      if a.journey == j {
        CallLeadsOn(a.stage, descriptions[a.stage], Gone(h, router, j, a.stage, n), m.targeting, m.journeys[j][a.stage],
          next, t');
      }
    }
    var n' := n + 1;
    forall s | s in descriptions ensures AfterCalls(s, descriptions[s], Gone(h, router, j, s, n'), m'.journeys[j][s]) {
      assert AfterCalls(s, descriptions[s], Gone(h, router, j, s, n), m.journeys[j][s]);
    }
  }

  /** From the time a journey is added, whatever else happens, the agent that is the k-th to go on from one of
      its stages is sent where the stage's description says. */
  lemma AgentsFollowDescriptions(
    h: History, router: Router, j: JourneyId, descriptions: map<StageId, Description>, n: nat)
    requires IsHistory(h, router, j) && n < |h.events|
    requires j in h.states[0].journeys && JustAdded(descriptions, h.states[0].journeys[j])
    ensures forall s :: s in descriptions && GoesOnFrom(h, router, j, s, n) ==>
              h.events[n].agent < |h.states[n + 1].agents| &&
              SendsTo(s, descriptions[s], Gone(h, router, j, s, n), h.states[n].targeting,
                      h.states[n + 1].agents[h.events[n].agent].stage)
  {
    for k := 0 to n
      invariant KeepsPace(h, router, j, descriptions, k)
    {
      PaceOneMore(h, router, j, descriptions, k);
    }
    PaceOneMore(h, router, j, descriptions, n);
  }
}
