// What the simulation asks of routing: whether a place lies in a stage's destination, and which way to
// walk. Either question can fail (libsimulator/src/routing_engine.hpp, libsimulator/src/routing_target.hpp).
module Routing {
  import opened Wrappers
  import opened Plane
  import opened Journeys

  /** A point of the surface: the region it lies in and its projection. */
  datatype Place = Place(region: nat, xy: Point)

  datatype Target = ToStage(stage: StageId) | ToPlace(place: Place)

  /** The answers of the routing engine; none where it raises an error. */
  datatype Router = Router(contains: (StageId, Place) -> Option<bool>, orient: (Target, Place) -> Option<Point>)
}
