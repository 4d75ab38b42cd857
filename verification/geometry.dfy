/**
 * Points, axis-aligned boxes and the navigation mesh of the pathfinder
 * (P1/src/nm_pathfinder.py): the inclusive point-in-box test, the box
 * lookup, and the portal crossing point between two adjacent boxes.
 */
module Geometry {
  import opened Wrappers

  /** A point with integer coordinates; `x` is the tuple's first component. */
  datatype Point = Point(x: int, y: int)

  /** A box `(x1, x2, y1, y2)`: x ranges over [x1, x2] and y over [y1, y2]. */
  datatype Box = Box(x1: int, x2: int, y1: int, y2: int)

  /** The mesh: the box list (in lookup order) and each box's neighbour list. */
  datatype Mesh = Mesh(boxes: seq<Box>, adj: map<Box, seq<Box>>)

  /** The straight-line distance, left abstract: any function with these properties. */
  type Metric = (Point, Point) -> real

  ghost predicate IsDistance(dist: Metric) {
    forall p: Point, q: Point ::
      && dist(p, q) >= 0.0
      && dist(p, q) == dist(q, p)
      && (dist(p, q) == 0.0 <==> p == q)
  }

  /** Every box of the list and every listed neighbour has its own neighbour
      list, so the searches never look up a box the adjacency map lacks. */
  ghost predicate Closed(mesh: Mesh) {
    && (forall i :: 0 <= i < |mesh.boxes| ==> mesh.boxes[i] in mesh.adj)
    && (forall b, j :: b in mesh.adj && 0 <= j < |mesh.adj[b]| ==> mesh.adj[b][j] in mesh.adj)
  }

  predicate WellFormedBox(b: Box) {
    b.x1 <= b.x2 && b.y1 <= b.y2
  }

  /** Inclusive on all four sides, so a point on a shared edge lies in both boxes. */
  predicate CheckInBox(p: Point, b: Box) {
    b.x1 <= p.x <= b.x2 && b.y1 <= p.y <= b.y2
  }

  function Max(a: int, b: int): int { if a < b then b else a }
  function Min(a: int, b: int): int { if a < b then a else b }

  /** The clamp the crossing computation applies to one coordinate. */
  function Clamp(v: int, lo: int, hi: int): int {
    if v <= lo then lo else if hi <= v then hi else v
  }

  /** The first box of `boxes` that contains `p`, or None when none does. */
  function FindBox(p: Point, boxes: seq<Box>): (r: Option<Box>)
    ensures r.None? <==> forall i :: 0 <= i < |boxes| ==> !CheckInBox(p, boxes[i])
    ensures r.Some? ==> exists i :: 0 <= i < |boxes| && boxes[i] == r.value && CheckInBox(p, boxes[i])
                          && forall j :: 0 <= j < i ==> !CheckInBox(p, boxes[j])
  {
    if |boxes| == 0 then None
    else if CheckInBox(p, boxes[0]) then Some(boxes[0])
    else
      var r := FindBox(p, boxes[1..]);
      assert forall i :: 1 <= i < |boxes| ==> boxes[i] == boxes[1..][i - 1];
      r
  }

  /** The two boxes share a vertical edge: one's left side is the other's right side. */
  predicate SharesVerticalEdge(a: Box, b: Box) {
    a.x1 == b.x2 || a.x2 == b.x1
  }

  /** The two boxes share a horizontal edge. */
  predicate SharesHorizontalEdge(a: Box, b: Box) {
    a.y1 == b.y2 || a.y2 == b.y1
  }

  /**
   * The point at which a path standing at `n` in box `src` enters box `dst`.
   * The horizontal-edge case is checked second and overrides the first.
   */
  function FindNextPoint(n: Point, src: Box, dst: Box): (r: Point)
    ensures !SharesVerticalEdge(src, dst) && !SharesHorizontalEdge(src, dst) ==> r == n
  {
    var p1 :=
      if SharesVerticalEdge(src, dst) then
        Point(if src.x1 == dst.x2 then src.x1 else src.x2,
              Clamp(n.y, Max(src.y1, dst.y1), Min(src.y2, dst.y2)))
      else n;
    if SharesHorizontalEdge(src, dst) then
      Point(Clamp(n.x, Max(src.x1, dst.x1), Min(src.x2, dst.x2)),
            if src.y1 == dst.y2 then src.y1 else src.y2)
    else p1
  }

  /** The portal between two boxes: the points they have in common. */
  predicate OnPortal(q: Point, a: Box, b: Box) {
    CheckInBox(q, a) && CheckInBox(q, b)
  }

  function SqDist(p: Point, q: Point): int {
    (p.x - q.x) * (p.x - q.x) + (p.y - q.y) * (p.y - q.y)
  }

  lemma SquareMonotone(a: int, b: int)
    requires (if a < 0 then -a else a) <= (if b < 0 then -b else b)
    ensures a * a <= b * b
  {
    var a' := if a < 0 then -a else a;
    var b' := if b < 0 then -b else b;
    assert a * a == a' * a';
    assert b * b == b' * b';
    assert a' * a' <= a' * b' <= b' * b';
  }

  /** The clamp picks the point of a non-empty interval nearest to `v`. */
  lemma ClampIsNearest(v: int, lo: int, hi: int, z: int)
    requires lo <= z <= hi
    ensures lo <= Clamp(v, lo, hi) <= hi
    ensures (Clamp(v, lo, hi) - v) * (Clamp(v, lo, hi) - v) <= (z - v) * (z - v)
  {
    SquareMonotone(Clamp(v, lo, hi) - v, z - v);
  }

  /**
   * When two well-formed boxes touch along an edge, the crossing point lies
   * on their portal, and no portal point is closer to the current point.
   * A portal of a single point (a zero-length edge) is no exception.
   */
  lemma CrossingIsNearestPortalPoint(n: Point, src: Box, dst: Box, q: Point)
    requires WellFormedBox(src) && WellFormedBox(dst)
    requires SharesVerticalEdge(src, dst) || SharesHorizontalEdge(src, dst)
    requires OnPortal(q, src, dst)
    ensures OnPortal(FindNextPoint(n, src, dst), src, dst)
    ensures SqDist(n, FindNextPoint(n, src, dst)) <= SqDist(n, q)
  {
    var r := FindNextPoint(n, src, dst);
    if SharesHorizontalEdge(src, dst) {
      ClampIsNearest(n.x, Max(src.x1, dst.x1), Min(src.x2, dst.x2), q.x);
      assert r.y == q.y;
    } else {
      ClampIsNearest(n.y, Max(src.y1, dst.y1), Min(src.y2, dst.y2), q.y);
      assert r.x == q.x;
    }
  }

  // ---------------------------------------------------------------------
  // The mesh as a graph, and the shape of a path through it
  // ---------------------------------------------------------------------

  /** Two well-formed boxes that share an edge and overlap along it. */
  predicate Touch(a: Box, b: Box) {
    && WellFormedBox(a) && WellFormedBox(b)
    && (SharesVerticalEdge(a, b) || SharesHorizontalEdge(a, b))
    && Max(a.x1, b.x1) <= Min(a.x2, b.x2)
    && Max(a.y1, b.y1) <= Min(a.y2, b.y2)
  }

  /** A mesh whose adjacency lists only pair boxes that touch, as the mesh builder produces. */
  ghost predicate Navigable(mesh: Mesh) {
    forall b, j :: b in mesh.adj && 0 <= j < |mesh.adj[b]| ==> Touch(b, mesh.adj[b][j])
  }

  /** The crossing point between touching boxes lies in both of them. */
  lemma TouchCrossing(n: Point, src: Box, dst: Box)
    requires Touch(src, dst)
    ensures CheckInBox(FindNextPoint(n, src, dst), src) && CheckInBox(FindNextPoint(n, src, dst), dst)
  {
    CrossingIsNearestPortalPoint(n, src, dst, Point(Max(src.x1, dst.x1), Max(src.y1, dst.y1)));
  }

  /** Some box of the mesh holds both points, so the segment between them stays inside it. */
  ghost predicate InOneBox(p: Point, q: Point, mesh: Mesh) {
    exists b :: b in mesh.adj && CheckInBox(p, b) && CheckInBox(q, b)
  }

  /** Every leg of `path` runs inside a single box of the mesh. */
  ghost predicate Segments(path: seq<Point>, mesh: Mesh) {
    forall i :: 0 < i < |path| ==> InOneBox(path[i - 1], path[i], mesh)
  }

  /** `route` steps from each box to one of its listed neighbours. */
  ghost predicate IsRoute(mesh: Mesh, route: seq<Box>) {
    forall i :: 0 <= i < |route| - 1 ==> route[i] in mesh.adj && route[i + 1] in mesh.adj[route[i]]
  }

  /** `b` can be reached from `a` by following adjacency lists. */
  ghost predicate Reachable(mesh: Mesh, a: Box, b: Box) {
    exists route :: IsRoute(mesh, route) && |route| > 0 && route[0] == a && route[|route| - 1] == b
  }

  lemma ReachableSelf(mesh: Mesh, a: Box)
    ensures Reachable(mesh, a, a)
  {
    assert IsRoute(mesh, [a]);
  }

  /** One more step along an adjacency list extends a route. */
  lemma ReachableStep(mesh: Mesh, a: Box, b: Box, c: Box)
    requires Reachable(mesh, a, b) && b in mesh.adj && c in mesh.adj[b]
    ensures Reachable(mesh, a, c)
  {
    var route :| IsRoute(mesh, route) && |route| > 0 && route[0] == a && route[|route| - 1] == b;
    assert IsRoute(mesh, route) && |route| > 0 && route[0] == a && route[|route| - 1] == b;
    var longer := route + [c];
    assert IsRoute(mesh, longer);
  }

  /** A set of boxes whose every neighbour is again in the set. */
  ghost predicate ClosedUnderAdj(mesh: Mesh, s: set<Box>) {
    forall b :: b in s ==> b in mesh.adj && forall n :: n in mesh.adj[b] ==> n in s
  }

  /** A route that starts in a set closed under adjacency never leaves it. */
  lemma {:induction false} RouteStaysInside(mesh: Mesh, s: set<Box>, route: seq<Box>, k: nat)
    requires ClosedUnderAdj(mesh, s) && IsRoute(mesh, route) && 0 < |route| && route[0] in s
    requires k < |route|
    ensures route[k] in s
  {
    if k > 0 {
      RouteStaysInside(mesh, s, route, k - 1);
      assert route[k - 1] in mesh.adj && route[k] in mesh.adj[route[k - 1]];
    }
  }

  /** Everything reachable from inside a closed set is in it. */
  lemma ReachableInsideClosed(mesh: Mesh, s: set<Box>, a: Box, b: Box)
    requires ClosedUnderAdj(mesh, s) && a in s && Reachable(mesh, a, b)
    ensures b in s
  {
    var route :| IsRoute(mesh, route) && |route| > 0 && route[0] == a && route[|route| - 1] == b;
    assert IsRoute(mesh, route) && |route| > 0 && route[0] == a && route[|route| - 1] == b;
    RouteStaysInside(mesh, s, route, |route| - 1);
  }

  /** The box `FindBox` returns is a box of the mesh that holds the point. */
  lemma FoundBoxInMesh(p: Point, mesh: Mesh)
    requires Closed(mesh) && FindBox(p, mesh.boxes).Some?
    ensures FindBox(p, mesh.boxes).value in mesh.adj && CheckInBox(p, FindBox(p, mesh.boxes).value)
  {
    var i :| 0 <= i < |mesh.boxes| && mesh.boxes[i] == FindBox(p, mesh.boxes).value && CheckInBox(p, mesh.boxes[i]);
  }
}
