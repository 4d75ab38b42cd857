/**
 * `astar_find_path` (P1/src/nm_pathfinder.py): a best-first search over
 * box adjacency from the source's box to the destination's box, followed
 * by backpointer reconstruction.
 *
 * Two quirks of the source are kept as written: the heuristic is
 * multiplied by 0, so the priority is the cost alone (Dijkstra's order),
 * and `pathFound` starts out true, so when the frontier runs empty the
 * path is still reconstructed, from the last box popped, with the
 * destination appended after it.
 */
module Astar {
  import opened Wrappers
  import opened Geometry
  import opened SearchState
  import opened Frontier
  import opened Expansion
  import opened Coverage
  import opened PathShape

  /** A search's answer: the path and the set of boxes it popped. */
  datatype Found = Found(path: seq<Point>, explored: set<Box>)

  /** `len(path) == len(set(path))`: no point occurs twice. */
  predicate AllDistinct(s: seq<Point>) {
    forall i, j :: 0 <= i < j < |s| ==> s[i] != s[j]
  }

  /** The result when either endpoint lies in no box: the straight two-point path. */
  function Fallback(source: Point, destination: Point): Found {
    Found([source, destination], {})
  }

  /** The path a search returns when source and destination share a box. */
  function SameBoxPath(source: Point, destination: Point): seq<Point> {
    if source == destination then [source] else [source, destination]
  }

  /** Where the search loop stopped: the last box popped, the labels, the boxes popped. */
  datatype Stop = Stop(last: Box, labels: Labels, explored: set<Box>)

  /** Valid labels over boxes of the mesh, and a frontier of reached boxes. */
  ghost predicate SearchShape(l: Labels, stamp: map<Box, nat>, clock: nat, frontier: seq<Push>,
                              srcBox: Box, source: Point, mesh: Mesh)
  {
    && Valid(l, stamp, srcBox, source) && StampsBelow(stamp, clock)
    && l.prev.Keys <= mesh.adj.Keys
    && (forall e :: e in frontier ==> e.box in l.prev)
  }

  /**
   * Every reached box is reachable from the source's box, and pending or
   * done with its neighbours reached; the destination's box is never done,
   * since popping it ends the loop.
   */
  ghost predicate SearchCover(l: Labels, frontier: seq<Push>, done: set<Box>, srcBox: Box, dstBox: Box, mesh: Mesh) {
    Covered(l, BoxesOf(frontier), done, mesh) && dstBox !in done && ReachedFrom(l, mesh, srcBox)
  }

  /** On a navigable mesh, with the source in its box, entry points lie in their boxes. */
  ghost predicate SearchGeo(l: Labels, srcBox: Box, source: Point, mesh: Mesh) {
    Navigable(mesh) && CheckInBox(source, srcBox) ==> GeoLabels(l, mesh)
  }

  /** What the search loop keeps. */
  ghost predicate SearchInv(l: Labels, stamp: map<Box, nat>, clock: nat, frontier: seq<Push>, done: set<Box>,
                            srcBox: Box, dstBox: Box, source: Point, mesh: Mesh)
  {
    && SearchShape(l, stamp, clock, frontier, srcBox, source, mesh)
    && SearchCover(l, frontier, done, srcBox, dstBox, mesh)
    && SearchGeo(l, srcBox, source, mesh)
  }

  lemma StartShape(srcBox: Box, source: Point, mesh: Mesh)
    requires srcBox in mesh.adj
    ensures SearchShape(Start(srcBox, source), map[srcBox := 0], 1, [Push(0.0, srcBox)], srcBox, source, mesh)
  {
    StartValid(srcBox, source);
  }

  lemma StartCover(srcBox: Box, dstBox: Box, source: Point, mesh: Mesh)
    ensures SearchCover(Start(srcBox, source), [Push(0.0, srcBox)], {}, srcBox, dstBox, mesh)
  {
    StartCovered(srcBox, source, mesh);
    BoxesOfOne(Push(0.0, srcBox));
  }

  /** The loop invariant holds for the labels and frontier the search starts from. */
  lemma SearchStart(srcBox: Box, dstBox: Box, source: Point, mesh: Mesh)
    requires srcBox in mesh.adj
    ensures SearchInv(Start(srcBox, source), map[srcBox := 0], 1, [Push(0.0, srcBox)], {}, srcBox, dstBox, source, mesh)
  {
    StartShape(srcBox, source, mesh);
    StartCover(srcBox, dstBox, source, mesh);
    if Navigable(mesh) && CheckInBox(source, srcBox) {
      StartGeo(srcBox, source, mesh);
    }
  }

  /** After a pop and an expansion over a listed neighbour list, the labels and frontier keep their shape. */
  lemma StepShape(l: Labels, l': Labels, stamp: map<Box, nat>, clock: nat, stamp': map<Box, nat>, clock': nat,
                  before: seq<Push>, rest: seq<Push>, pushed: seq<Push>, cur: Box,
                  srcBox: Box, source: Point, mesh: Mesh)
    requires Closed(mesh) && SearchShape(l, stamp, clock, before, srcBox, source, mesh) && cur in l.prev
    requires forall x :: x in rest ==> x in before
    requires Valid(l', stamp', srcBox, source) && StampsBelow(stamp', clock')
    requires FrameSince(l, l', mesh.adj[cur]) && PushedReached(pushed, mesh.adj[cur], l')
    ensures SearchShape(l', stamp', clock', rest + pushed, srcBox, source, mesh)
  {
    forall b | b in l'.prev ensures b in mesh.adj {
      if b !in l.prev {
        var j :| 0 <= j < |mesh.adj[cur]| && mesh.adj[cur][j] == b;
      }
    }
  }

  /** Every listed neighbour of `cur` is reached after its expansion. */
  lemma StepReached(l: Labels, l': Labels, cur: Box, neighbors: seq<Box>, dist: Metric)
    requires WellKeyed(l) && WellKeyed(l') && cur in l.prev
    requires forall nb :: nb in neighbors ==> Settled(l, l', cur, l.entry[cur], nb, dist)
    ensures forall nb :: nb in neighbors ==> nb in l'.prev
  {
    forall nb | nb in neighbors ensures nb in l'.prev {
      assert Settled(l, l', cur, l.entry[cur], nb, dist);
    }
  }

  /** Popping `e` and expanding its box keeps the cover and the reachability of the labels. */
  lemma StepCover(l: Labels, l': Labels, before: seq<Push>, e: Push, rest: seq<Push>, pushed: seq<Push>, done: set<Box>,
                  srcBox: Box, dstBox: Box, mesh: Mesh, dist: Metric)
    requires SearchCover(l, before, done, srcBox, dstBox, mesh) && e.box != dstBox
    requires WellKeyed(l) && WellKeyed(l') && e.box in l.prev && e.box in mesh.adj
    requires multiset(rest) + multiset{e} == multiset(before)
    requires l.prev.Keys <= l'.prev.Keys
    requires forall nb :: nb in mesh.adj[e.box] ==> Settled(l, l', e.box, l.entry[e.box], nb, dist)
    requires forall b :: b !in mesh.adj[e.box] ==> Same(l, l', b)
    requires forall nb :: nb in mesh.adj[e.box] && Improves(l, e.box, l.entry[e.box], nb, dist) ==>
               exists p :: p in pushed && p.box == nb
    ensures SearchCover(l', rest + pushed, done + {e.box}, srcBox, dstBox, mesh)
  {
    StepReached(l, l', e.box, mesh.adj[e.box], dist);
    ExpandCovered(l, l', before, e, rest, pushed, done, mesh, srcBox, dist);
  }

  /** An expansion keeps the entry points in their boxes on a navigable mesh. */
  lemma StepGeo(l: Labels, l': Labels, cur: Box, srcBox: Box, source: Point, mesh: Mesh, dist: Metric)
    requires SearchGeo(l, srcBox, source, mesh) && Closed(mesh)
    requires WellKeyed(l) && WellKeyed(l') && cur in l.prev && cur in mesh.adj && l.prev.Keys <= l'.prev.Keys
    requires forall nb :: nb in mesh.adj[cur] ==> Settled(l, l', cur, l.entry[cur], nb, dist)
    requires forall b :: b !in mesh.adj[cur] ==> Same(l, l', b)
    ensures SearchGeo(l', srcBox, source, mesh)
  {
    if Navigable(mesh) && CheckInBox(source, srcBox) {
      ExpandGeo(l, l', cur, mesh, dist);
    }
  }

  /** Popping `e` (not the destination's box) and expanding its box keeps the loop invariant. */
  lemma SearchStep(l: Labels, l': Labels, stamp: map<Box, nat>, clock: nat, stamp': map<Box, nat>, clock': nat,
                   before: seq<Push>, e: Push, rest: seq<Push>, pushed: seq<Push>, done: set<Box>,
                   srcBox: Box, dstBox: Box, source: Point, mesh: Mesh, dist: Metric)
    requires Closed(mesh) && SearchInv(l, stamp, clock, before, done, srcBox, dstBox, source, mesh)
    requires e in before && e.box != dstBox
    requires multiset(rest) + multiset{e} == multiset(before) && forall x :: x in rest ==> x in before
    requires Valid(l', stamp', srcBox, source) && StampsBelow(stamp', clock')
    requires FrameSince(l, l', mesh.adj[e.box]) && PushedReached(pushed, mesh.adj[e.box], l')
    requires forall nb :: nb in mesh.adj[e.box] ==> Settled(l, l', e.box, l.entry[e.box], nb, dist)
    requires forall b :: b !in mesh.adj[e.box] ==> Same(l, l', b)
    requires forall nb :: nb in mesh.adj[e.box] && Improves(l, e.box, l.entry[e.box], nb, dist) ==>
               exists p :: p in pushed && p.box == nb
    ensures SearchInv(l', stamp', clock', rest + pushed, done + {e.box}, srcBox, dstBox, source, mesh)
  {
    assert SearchShape(l, stamp, clock, before, srcBox, source, mesh);
    assert e.box in l.prev && e.box in mesh.adj;
    StepShape(l, l', stamp, clock, stamp', clock', before, rest, pushed, e.box, srcBox, source, mesh);
    StepCover(l, l', before, e, rest, pushed, done, srcBox, dstBox, mesh, dist);
    StepGeo(l, l', e.box, srcBox, source, mesh, dist);
  }

  /** A box popped and found to be the destination's box was reached from the source's box. */
  lemma SearchHit(l: Labels, stamp: map<Box, nat>, clock: nat, frontier: seq<Push>, done: set<Box>,
                  srcBox: Box, dstBox: Box, source: Point, mesh: Mesh)
    requires SearchInv(l, stamp, clock, frontier, done, srcBox, dstBox, source, mesh)
    requires exists e :: e in frontier && e.box == dstBox
    ensures Reachable(mesh, srcBox, dstBox)
  {
    assert SearchShape(l, stamp, clock, frontier, srcBox, source, mesh);
    assert SearchCover(l, frontier, done, srcBox, dstBox, mesh);
  }

  /**
   * With the frontier exhausted, the destination's box is unreachable, so
   * the last box popped is not it.
   */
  lemma SearchDrained(l: Labels, stamp: map<Box, nat>, clock: nat, done: set<Box>,
                      srcBox: Box, dstBox: Box, source: Point, mesh: Mesh, last: Box)
    requires SearchInv(l, stamp, clock, [], done, srcBox, dstBox, source, mesh) && last in l.prev
    ensures !Reachable(mesh, srcBox, dstBox) && last != dstBox
  {
    assert SearchCover(l, [], done, srcBox, dstBox, mesh);
    assert BoxesOf([]) == {};
    assert Valid(l, stamp, srcBox, source);
    Drained(l, done, mesh, srcBox, dstBox);
  }

  lemma AddPresent(s: set<Box>, x: Box)
    requires x in s
    ensures s + {x} == s
  {
  }

  /**
   * The `while (frontier)` loop of `astar_find_path`: pop a cheapest entry,
   * stop at the destination's box, otherwise expand the popped box.
   * `fuel` bounds the number of pops.
   */
  method Search(srcBox: Box, dstBox: Box, source: Point, destination: Point,
                mesh: Mesh, dist: Metric, fuel: nat)
    returns (r: Result<Stop>, ghost stamp: map<Box, nat>)
    requires Closed(mesh) && IsDistance(dist) && srcBox in mesh.adj
    ensures r.Ok? ==> Valid(r.value.labels, stamp, srcBox, source)
    ensures r.Ok? ==> r.value.last in r.value.labels.prev && r.value.last in r.value.explored && srcBox in r.value.explored
    ensures r.Err? ==> r.error == OutOfFuel
    ensures srcBox == dstBox && fuel > 0 ==> r == Ok(Stop(srcBox, Start(srcBox, source), {srcBox}))
    ensures r.Ok? ==> (r.value.last == dstBox <==> Reachable(mesh, srcBox, dstBox))
    ensures r.Ok? && Navigable(mesh) && CheckInBox(source, srcBox) ==> GeoLabels(r.value.labels, mesh)
  {
    var l := Start(srcBox, source);
    stamp := map[srcBox := 0];
    ghost var clock: nat := 1;
    ghost var done: set<Box> := {};
    var frontier := [Push(0.0, srcBox)];
    SearchStart(srcBox, dstBox, source, mesh);
    var explored := {srcBox};
    var pBox := srcBox;
    var steps := 0;
    while frontier != [] && steps < fuel
      invariant SearchInv(l, stamp, clock, frontier, done, srcBox, dstBox, source, mesh)
      invariant pBox in l.prev && pBox in explored && srcBox in explored
      invariant srcBox == dstBox ==>
                  steps == 0 && frontier == [Push(0.0, srcBox)] && l == Start(srcBox, source) && explored == {srcBox}
      decreases fuel - steps
    {
      ghost var before := frontier;
      var e;
      e, frontier := Pop(frontier, (e: Push) => e.priority);
      if srcBox == dstBox {
        OnlyEntry(e, Push(0.0, srcBox));
      }
      pBox := e.box;
      if srcBox == dstBox {
        AddPresent(explored, pBox);
      }
      explored := explored + {pBox};
      steps := steps + 1;
      if pBox == dstBox {
        SearchHit(l, stamp, clock, before, done, srcBox, dstBox, source, mesh);
        return Ok(Stop(pBox, l, explored)), stamp;
      }
      // The heuristic term is `0 * euclidean(p_dst, destination_point)`.
      var l', stamp', clock', pushed := Expand(l, stamp, clock, srcBox, source, pBox, mesh.adj[pBox], destination, 0.0, dist);
      SearchStep(l, l', stamp, clock, stamp', clock', before, e, frontier, pushed, done,
                 srcBox, dstBox, source, mesh, dist);
      l, stamp, clock, done := l', stamp', clock', done + {pBox};
      frontier := frontier + pushed;
    }
    if frontier != [] {
      return Err(OutOfFuel), stamp;
    }
    SearchDrained(l, stamp, clock, done, srcBox, dstBox, source, mesh, pBox);
    // `pathFound` starts out true, so an empty frontier still reconstructs from the last box popped.
    return Ok(Stop(pBox, l, explored)), stamp;
  }

  /** With source and destination in one box, the reconstruction is the two endpoints. */
  lemma SameBoxConstruct(l: Labels, b: Box, source: Point, destination: Point)
    requires WellKeyed(l) && b in l.entry && l.entry[b] == source
    ensures ConstructPath(b, b, l.prev, l.entry, Some(destination), true) == Ok(SameBoxPath(source, destination))
  {
    var full := if destination != source then [destination, source] else [destination];
    assert Reverse(full) == SameBoxPath(source, destination);
  }

  /**
   * The reconstruction after the loop: from the last box popped back to
   * the source's box, with the destination appended, then reversed. It
   * runs from the source to the destination, and when the last box holds
   * the destination and the entry points lie in their boxes, every leg of
   * it runs inside one box of the mesh.
   */
  lemma Reconstruct(l: Labels, stamp: map<Box, nat>, last: Box, srcBox: Box, dstBox: Box,
                    source: Point, destination: Point, mesh: Mesh)
    requires Valid(l, stamp, srcBox, source) && last in l.prev
    requires last == dstBox <==> Reachable(mesh, srcBox, dstBox)
    requires Navigable(mesh) && CheckInBox(source, srcBox) ==> GeoLabels(l, mesh)
    ensures var r := ConstructPath(last, srcBox, l.prev, l.entry, Some(destination), true);
            && r.Ok? && |r.value| > 0 && NoAdjacentDup(r.value)
            && r.value[0] == source && r.value[|r.value| - 1] == destination
    ensures Reachable(mesh, srcBox, dstBox) && Navigable(mesh) &&
            CheckInBox(source, srcBox) && CheckInBox(destination, dstBox) ==>
              Segments(ConstructPath(last, srcBox, l.prev, l.entry, Some(destination), true).value, mesh)
  {
    ConstructPathSucceeds(l, stamp, srcBox, source, last, Some(destination), true);
    if Reachable(mesh, srcBox, dstBox) && Navigable(mesh) && CheckInBox(source, srcBox) && CheckInBox(destination, dstBox) {
      ConstructPathSegments(l, mesh, last, srcBox, Some(destination), true);
    }
  }

  /**
   * The reconstruction after the loop, from the last box popped back to
   * the source's box with the destination appended, and the assertion
   * that no point repeats.
   */
  method Rebuild(stop: Stop, ghost stamp: map<Box, nat>, srcBox: Box, dstBox: Box,
                 source: Point, destination: Point, mesh: Mesh)
    returns (r: Result<Found>)
    requires Valid(stop.labels, stamp, srcBox, source) && stop.last in stop.labels.prev
    requires stop.last == dstBox <==> Reachable(mesh, srcBox, dstBox)
    requires Navigable(mesh) && CheckInBox(source, srcBox) ==> GeoLabels(stop.labels, mesh)
    ensures r.Ok? ==>
              && |r.value.path| > 0
              && r.value.path[0] == source
              && r.value.path[|r.value.path| - 1] == destination
              && NoAdjacentDup(r.value.path)
              && AllDistinct(r.value.path)
              && r.value.explored == stop.explored
    ensures r.Err? ==> r.error == AssertionFailed(366)
    ensures srcBox == dstBox && stop.labels == Start(srcBox, source) && stop.last == srcBox ==>
              r == Ok(Found(SameBoxPath(source, destination), stop.explored))
    ensures r.Ok? && Reachable(mesh, srcBox, dstBox) && Navigable(mesh) &&
            CheckInBox(source, srcBox) && CheckInBox(destination, dstBox) ==>
              Segments(r.value.path, mesh)
  {
    var Stop(pBox, l, explored) := stop;
    Reconstruct(l, stamp, pBox, srcBox, dstBox, source, destination, mesh);
    if srcBox == dstBox && l == Start(srcBox, source) && pBox == srcBox {
      SameBoxConstruct(l, srcBox, source, destination);
    }
    var path := ConstructPath(pBox, srcBox, l.prev, l.entry, Some(destination), true).value;
    if !AllDistinct(path) {
      return Err(AssertionFailed(366));
    }
    return Ok(Found(path, explored));
  }

  /**
   * The part of `astar_find_path` after both endpoints have been located:
   * the search, the reconstruction and the distinctness assertion, with
   * `pathFound` set before the loop as the source does.
   */
  method AstarBoxes(srcBox: Box, dstBox: Box, source: Point, destination: Point,
                    mesh: Mesh, dist: Metric, fuel: nat)
    returns (r: Result<Found>)
    requires Closed(mesh) && IsDistance(dist)
    requires srcBox in mesh.adj
    ensures r.Ok? ==>
              && |r.value.path| > 0
              && r.value.path[0] == source
              && r.value.path[|r.value.path| - 1] == destination
              && NoAdjacentDup(r.value.path)
              && AllDistinct(r.value.path)
              && srcBox in r.value.explored
    ensures r.Err? ==> r.error == AssertionFailed(366) || r.error == OutOfFuel
    ensures fuel > 0 && srcBox == dstBox ==>
              r == Ok(Found(SameBoxPath(source, destination), {srcBox}))
    ensures r.Ok? && Reachable(mesh, srcBox, dstBox) ==> dstBox in r.value.explored
    ensures r.Ok? && Reachable(mesh, srcBox, dstBox) && Navigable(mesh) &&
            CheckInBox(source, srcBox) && CheckInBox(destination, dstBox) ==>
              Segments(r.value.path, mesh)
  {
    var stop, stamp := Search(srcBox, dstBox, source, destination, mesh, dist, fuel);
    if stop.Err? {
      return Err(stop.error);
    }
    r := Rebuild(stop.value, stamp, srcBox, dstBox, source, destination, mesh);
  }


  /**
   * `AstarBoxes` with `pathFound` set only when the destination's box is
   * popped: an exhausted frontier gives the two-point fallback path.
   */
  method AstarBoxesCorrected(srcBox: Box, dstBox: Box, source: Point, destination: Point,
                             mesh: Mesh, dist: Metric, fuel: nat)
    returns (r: Result<Found>)
    requires Closed(mesh) && IsDistance(dist)
    requires srcBox in mesh.adj
    ensures r.Ok? ==>
              && |r.value.path| > 0
              && r.value.path[0] == source
              && r.value.path[|r.value.path| - 1] == destination
              && srcBox in r.value.explored
    ensures r.Err? ==> r.error == AssertionFailed(366) || r.error == OutOfFuel
    ensures fuel > 0 && srcBox == dstBox ==>
              r == Ok(Found(SameBoxPath(source, destination), {srcBox}))
    ensures r.Ok? && !Reachable(mesh, srcBox, dstBox) ==> r.value.path == [source, destination]
    ensures r.Ok? && Reachable(mesh, srcBox, dstBox) ==>
              NoAdjacentDup(r.value.path) && AllDistinct(r.value.path) && dstBox in r.value.explored
    ensures r.Ok? && Reachable(mesh, srcBox, dstBox) && Navigable(mesh) &&
            CheckInBox(source, srcBox) && CheckInBox(destination, dstBox) ==>
              Segments(r.value.path, mesh)
  {
    var stop, stamp := Search(srcBox, dstBox, source, destination, mesh, dist, fuel);
    if stop.Err? {
      return Err(stop.error);
    }
    if stop.value.last != dstBox {
      return Ok(Found([source, destination], stop.value.explored));
    }
    r := Rebuild(stop.value, stamp, srcBox, dstBox, source, destination, mesh);
  }


  // ---------------------------------------------------------------------
  // An unreachable destination. Boxes A = [0,10]x[0,10] and B = [10,20]x[0,10]
  // touch; C = [30,40]x[0,10] touches neither. From (2,2) in A the search
  // pops A, enters B at (10,2) with cost 8, pops B, finds nothing to
  // improve, and stops with the frontier empty and B as its last box.
  // ---------------------------------------------------------------------

  const BoxA := Box(0, 10, 0, 10)
  const BoxB := Box(10, 20, 0, 10)
  const BoxC := Box(30, 40, 0, 10)
  const SplitMesh := Mesh([BoxA, BoxB, BoxC], map[BoxA := [BoxB], BoxB := [BoxA], BoxC := []])

  /** The labels the search holds when its frontier runs empty. */
  const SplitLabels := Labels(map[BoxA := 0.0, BoxB := 8.0], map[BoxA := None, BoxB := Some(BoxA)],
                              map[BoxA := Point(2, 2), BoxB := Point(10, 2)])

  lemma SplitMeshShape()
    ensures Navigable(SplitMesh) && Closed(SplitMesh)
    ensures !Reachable(SplitMesh, BoxA, BoxC)
  {
    assert Touch(BoxA, BoxB) && Touch(BoxB, BoxA);
    assert ClosedUnderAdj(SplitMesh, {BoxA, BoxB});
    if Reachable(SplitMesh, BoxA, BoxC) {
      ReachableInsideClosed(SplitMesh, {BoxA, BoxB}, BoxA, BoxC);
    }
  }

  lemma SplitLabelsShape()
    ensures FindNextPoint(Point(2, 2), BoxA, BoxB) == Point(10, 2)
    ensures GeoLabels(SplitLabels, SplitMesh)
  {
  }

  lemma SplitPath()
    ensures ConstructPath(BoxB, BoxA, SplitLabels.prev, SplitLabels.entry, Some(Point(35, 5)), true)
            == Ok([Point(2, 2), Point(10, 2), Point(35, 5)])
  {
    TwoBoxReconstruct(BoxA, BoxB, Point(2, 2), Point(10, 2), Point(35, 5));
  }

  lemma SplitLastLeg()
    ensures !InOneBox(Point(10, 2), Point(35, 5), SplitMesh)
  {
    assert SplitMesh.adj.Keys == {BoxA, BoxB, BoxC};
  }

  /** One leg outside every box breaks the path. */
  lemma BrokenLeg(path: seq<Point>, i: nat, mesh: Mesh)
    requires 0 < i < |path| && !InOneBox(path[i - 1], path[i], mesh)
    ensures !Segments(path, mesh)
  {
  }

  /**
   * With `pathFound` already true, `AstarBoxes` reconstructs from B and
   * appends the destination (35,5) in C: the last leg of the path runs from
   * (10,2) straight to (35,5) through no box of the mesh.
   */
  lemma DisconnectedAsWritten()
    ensures Navigable(SplitMesh) && Closed(SplitMesh) && !Reachable(SplitMesh, BoxA, BoxC)
    ensures GeoLabels(SplitLabels, SplitMesh) && SplitLabels.entry[BoxB] == FindNextPoint(Point(2, 2), BoxA, BoxB)
    ensures ConstructPath(BoxB, BoxA, SplitLabels.prev, SplitLabels.entry, Some(Point(35, 5)), true)
            == Ok([Point(2, 2), Point(10, 2), Point(35, 5)])
    ensures !Segments([Point(2, 2), Point(10, 2), Point(35, 5)], SplitMesh)
  {
    SplitMeshShape();
    SplitLabelsShape();
    SplitPath();
    SplitLastLeg();
    BrokenLeg([Point(2, 2), Point(10, 2), Point(35, 5)], 2, SplitMesh);
  }

  /**
   * `astar_find_path`. `fuel` bounds the number of frontier pops; a search
   * that would need more ends in `OutOfFuel`, where the source would keep going.
   */
  method AstarFindPath(source: Point, destination: Point, mesh: Mesh, dist: Metric, fuel: nat)
    returns (r: Result<Found>)
    requires Closed(mesh) && IsDistance(dist)
    ensures FindBox(source, mesh.boxes).None? || FindBox(destination, mesh.boxes).None? ==>
              r == Ok(Fallback(source, destination))
    ensures r.Ok? && FindBox(source, mesh.boxes).Some? && FindBox(destination, mesh.boxes).Some? ==>
              && |r.value.path| > 0
              && r.value.path[0] == source
              && r.value.path[|r.value.path| - 1] == destination
              && NoAdjacentDup(r.value.path)
              && AllDistinct(r.value.path)
              && FindBox(source, mesh.boxes).value in r.value.explored
    ensures r.Err? ==> r.error == AssertionFailed(366) || r.error == OutOfFuel
    ensures fuel > 0 && FindBox(source, mesh.boxes).Some? &&
            FindBox(source, mesh.boxes) == FindBox(destination, mesh.boxes) ==>
              r == Ok(Found(SameBoxPath(source, destination), {FindBox(source, mesh.boxes).value}))
    ensures r.Ok? && Navigable(mesh) && FindBox(source, mesh.boxes).Some? && FindBox(destination, mesh.boxes).Some? &&
            Reachable(mesh, FindBox(source, mesh.boxes).value, FindBox(destination, mesh.boxes).value) ==>
              Segments(r.value.path, mesh)
  {
    var srcOpt, dstOpt := FindBox(source, mesh.boxes), FindBox(destination, mesh.boxes);
    if srcOpt.None? || dstOpt.None? {
      r := Ok(Fallback(source, destination));
    } else {
      FoundBoxInMesh(source, mesh);
      FoundBoxInMesh(destination, mesh);
      r := AstarBoxes(srcOpt.value, dstOpt.value, source, destination, mesh, dist, fuel);
    }
  }

  /** `astar_find_path` with the corrected `pathFound`: an unreachable destination gets the two-point path. */
  method AstarFindPathCorrected(source: Point, destination: Point, mesh: Mesh, dist: Metric, fuel: nat)
    returns (r: Result<Found>)
    requires Closed(mesh) && IsDistance(dist)
    ensures FindBox(source, mesh.boxes).None? || FindBox(destination, mesh.boxes).None? ==>
              r == Ok(Fallback(source, destination))
    ensures r.Ok? ==> |r.value.path| > 0 && r.value.path[0] == source && r.value.path[|r.value.path| - 1] == destination
    ensures r.Err? ==> r.error == AssertionFailed(366) || r.error == OutOfFuel
    ensures r.Ok? && FindBox(source, mesh.boxes).Some? && FindBox(destination, mesh.boxes).Some? &&
            !Reachable(mesh, FindBox(source, mesh.boxes).value, FindBox(destination, mesh.boxes).value) ==>
              r.value.path == [source, destination]
    ensures r.Ok? && Navigable(mesh) && FindBox(source, mesh.boxes).Some? && FindBox(destination, mesh.boxes).Some? &&
            Reachable(mesh, FindBox(source, mesh.boxes).value, FindBox(destination, mesh.boxes).value) ==>
              AllDistinct(r.value.path) && Segments(r.value.path, mesh)
  {
    var srcOpt, dstOpt := FindBox(source, mesh.boxes), FindBox(destination, mesh.boxes);
    if srcOpt.None? || dstOpt.None? {
      r := Ok(Fallback(source, destination));
    } else {
      FoundBoxInMesh(source, mesh);
      FoundBoxInMesh(destination, mesh);
      r := AstarBoxesCorrected(srcOpt.value, dstOpt.value, source, destination, mesh, dist, fuel);
    }
  }
}
