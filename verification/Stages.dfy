// Stages and how many agents head for each of them (libsimulator/src/stage.hpp,
// libsimulator/src/stage_manager.hpp).
module Stages {
  import opened Journeys

  datatype Kind = Waypoint | Exit | DirectSteering

  /** How a caller describes a stage; `meetsRegion` says whether its area meets the region it is
      given for, `hasCells` whether every piece of it has a walkable cell in or near it. */
  datatype StageDescription =
    | WaypointAround(distance: real, meetsRegion: bool, hasCells: bool)
    | ExitOver(meetsRegion: bool, hasCells: bool)
    | Steering

  /** The area can be cut into pieces, and these can be registered as a destination. */
  predicate Buildable(d: StageDescription) {
    match d
    case WaypointAround(distance, meetsRegion, hasCells) => distance > 0.0 && meetsRegion && hasCells
    case ExitOver(meetsRegion, hasCells) => meetsRegion && hasCells
    case Steering => true
  }

  function KindOf(d: StageDescription): Kind {
    match d
    case WaypointAround(_, _, _) => Waypoint
    case ExitOver(_, _) => Exit
    case Steering => DirectSteering
  }

  /** One agent has moved from heading for `previous` to heading for `next`. */
  ghost predicate Migrated(before: map<StageId, nat>, after: map<StageId, nat>, previous: StageId, next: StageId) {
    && previous in before && next in before
    && if previous == next then after == before
       else before[previous] > 0 && after == before[next := before[next] + 1][previous := before[previous] - 1]
  }

  class StageManager {
    var kinds: map<StageId, Kind>
    var targeting: map<StageId, nat>

    ghost predicate Valid()
      reads this
    {
      targeting.Keys == kinds.Keys
    }

    constructor ()
      ensures Valid() && kinds == map[] && targeting == map[]
    {
      kinds, targeting := map[], map[];
    }

    method AddStage(id: StageId, kind: Kind)
      requires Valid() && id !in kinds
      modifies this
      ensures Valid() && kinds == old(kinds)[id := kind] && targeting == old(targeting)[id := 0]
    {
      kinds := kinds[id := kind];
      targeting := targeting[id := 0];
    }

    method HandleNewAgent(id: StageId)
      requires Valid() && id in kinds
      modifies this`targeting
      ensures Valid() && targeting == old(targeting)[id := old(targeting[id]) + 1]
    {
      targeting := targeting[id := targeting[id] + 1];
    }

    /** The counter is positive: the source asserts it before it decrements. */
    method HandleRemoveAgent(id: StageId)
      requires Valid() && id in kinds && targeting[id] >= 1
      modifies this`targeting
      ensures Valid() && targeting == old(targeting)[id := old(targeting[id]) - 1]
    {
      targeting := targeting[id := targeting[id] - 1];
    }

    /** The new target gains the agent before the previous one loses it, so that an agent that
        stays where it is leaves its counter as it was. */
    method MigrateAgent(previous: StageId, next: StageId)
      requires Valid() && previous in kinds && next in kinds && targeting[previous] >= 1
      modifies this`targeting
      ensures Valid() && Migrated(old(targeting), targeting, previous, next)
    {
      HandleNewAgent(next);
      HandleRemoveAgent(previous);
      assert previous == next ==> targeting == old(targeting);
    }
  }
}
