/**
 * `find_path` (P1/src/nm_pathfinder.py) end to end: locate both endpoints,
 * run the bidirectional search, stitch its halves and check them; as
 * written, the stitched path is then replaced by the one `astar_find_path`
 * finds.
 */
module Pathfinder {
  import opened Wrappers
  import opened Geometry
  import opened SearchState
  import opened Astar
  import opened PathShape
  import opened Bidirectional


  /**
   * `find_path` as written: the stitched bidirectional path must pass the
   * asserts at lines 152-160, and is then replaced by the path of
   * `astar_find_path` (which may fail its own assert at line 366).
   * Whenever both endpoints share a box it fails.
   */
  method FindPathAsWritten(source: Point, destination: Point, mesh: Mesh, dist: Metric, fuel: nat)
    returns (r: Result<Found>)
    requires Closed(mesh) && IsDistance(dist)
    ensures FindBox(source, mesh.boxes).None? || FindBox(destination, mesh.boxes).None? ==>
              r == Ok(Fallback(source, destination))
    ensures fuel > 0 && FindBox(source, mesh.boxes).Some? &&
            FindBox(source, mesh.boxes) == FindBox(destination, mesh.boxes) ==>
              r == Err(IndexOutOfRange)
    ensures r.Ok? ==> |r.value.path| > 0 && r.value.path[0] == source
                      && r.value.path[|r.value.path| - 1] == destination
    ensures r.Ok? && FindBox(source, mesh.boxes).Some? && FindBox(destination, mesh.boxes).Some? ==>
              AllDistinct(r.value.path) && FindBox(source, mesh.boxes).value in r.value.explored
    ensures r.Err? ==> StitchError(r.error) || r.error == AssertionFailed(366) || r.error == OutOfFuel
    ensures r.Ok? && Navigable(mesh) && FindBox(source, mesh.boxes).Some? && FindBox(destination, mesh.boxes).Some? &&
            Reachable(mesh, FindBox(source, mesh.boxes).value, FindBox(destination, mesh.boxes).value) ==>
              Segments(r.value.path, mesh)
  {
    match (FindBox(source, mesh.boxes), FindBox(destination, mesh.boxes))
    case (Some(srcBox), Some(dstBox)) =>
      FoundBoxInMesh(source, mesh);
      FoundBoxInMesh(destination, mesh);
      r := BoxesAsWritten(srcBox, dstBox, source, destination, mesh, dist, fuel);
    case _ =>
      r := Ok(Fallback(source, destination));
  }

  /** The points lines 24-25 of `find_path` substitute for its arguments. */
  const PinnedSource := Point(310, 337)
  const PinnedDestination := Point(69, 434)

  /**
   * `find_path` including lines 24-25, which discard the caller's points:
   * whatever the arguments, a path it returns runs between the two pinned
   * points.
   */
  method FindPathPinned(source: Point, destination: Point, mesh: Mesh, dist: Metric, fuel: nat)
    returns (r: Result<Found>)
    requires Closed(mesh) && IsDistance(dist)
    ensures FindBox(PinnedSource, mesh.boxes).None? || FindBox(PinnedDestination, mesh.boxes).None? ==>
              r == Ok(Fallback(PinnedSource, PinnedDestination))
    ensures r.Ok? ==> |r.value.path| > 0 && r.value.path[0] == PinnedSource
                      && r.value.path[|r.value.path| - 1] == PinnedDestination
    ensures r.Err? ==> StitchError(r.error) || r.error == AssertionFailed(366) || r.error == OutOfFuel
  {
    r := FindPathAsWritten(PinnedSource, PinnedDestination, mesh, dist, fuel);
  }

  /**
   * `find_path` with the corrected stitching: the path runs from source to
   * destination without repeated points, and source and destination in
   * one box give the two endpoints.
   */
  method FindPath(source: Point, destination: Point, mesh: Mesh, dist: Metric, fuel: nat)
    returns (r: Result<Found>)
    requires Closed(mesh) && IsDistance(dist)
    ensures FindBox(source, mesh.boxes).None? || FindBox(destination, mesh.boxes).None? ==>
              r == Ok(Fallback(source, destination))
    ensures r.Ok? && FindBox(source, mesh.boxes).Some? && FindBox(destination, mesh.boxes).Some? ==>
              && |r.value.path| > 0
              && r.value.path[0] == source
              && r.value.path[|r.value.path| - 1] == destination
              && NoAdjacentDup(r.value.path)
              && AllDistinct(r.value.path)
              && FindBox(source, mesh.boxes).value in r.value.explored
    ensures r.Err? ==> r.error == AssertionFailed(160) || r.error == OutOfFuel
    ensures fuel > 0 && FindBox(source, mesh.boxes).Some? &&
            FindBox(source, mesh.boxes) == FindBox(destination, mesh.boxes) ==>
              r == Ok(Found(SameBoxPath(source, destination), {FindBox(source, mesh.boxes).value}))
    ensures r.Ok? && Navigable(mesh) && FindBox(source, mesh.boxes).Some? && FindBox(destination, mesh.boxes).Some? &&
            Reachable(mesh, FindBox(source, mesh.boxes).value, FindBox(destination, mesh.boxes).value) ==>
              Segments(r.value.path, mesh)
  {
    match (FindBox(source, mesh.boxes), FindBox(destination, mesh.boxes))
    case (Some(srcBox), Some(dstBox)) =>
      FoundBoxInMesh(source, mesh);
      FoundBoxInMesh(destination, mesh);
      r := BoxesCorrected(srcBox, dstBox, source, destination, mesh, dist, fuel);
    case _ =>
      r := Ok(Fallback(source, destination));
  }
}
