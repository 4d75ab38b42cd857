/**
 * `path_len` (P1/src/nm_pathfinder.py): the length of a polyline under the
 * distance `dist`. As written it only adds up the segments of paths with
 * more than two points, so a two-point path has length 0.
 */
module PathLength {
  import opened Geometry

  /** The sum of the distances between consecutive points. */
  function Polyline(path: seq<Point>, dist: Metric): real
  {
    if |path| < 2 then 0.0
    else Polyline(path[..|path| - 1], dist) + dist(path[|path| - 2], path[|path| - 1])
  }

  /** The guard `len(path) > 2`: which paths `path_len` measures. */
  predicate Measured(path: seq<Point>) {
    |path| > 2
  }

  /** `path_len` as written. */
  method PathLen(path: seq<Point>, dist: Metric) returns (r: real)
    ensures r == if Measured(path) then Polyline(path, dist) else 0.0
  {
    r := 0.0;
    if Measured(path) {
      var i := 1;
      while i < |path|
        invariant 1 <= i <= |path|
        invariant r == Polyline(path[..i], dist)
      {
        assert path[..i + 1][..i] == path[..i];
        r := r + dist(path[i - 1], path[i]);
        i := i + 1;
      }
      assert path[..|path|] == path;
    }
  }

  /** `path_len` with the guard it evidently meant, `len(path) >= 2`. */
  method PathLenCorrected(path: seq<Point>, dist: Metric) returns (r: real)
    ensures r == Polyline(path, dist)
  {
    r := 0.0;
    if |path| >= 2 {
      var i := 1;
      while i < |path|
        invariant 1 <= i <= |path|
        invariant r == Polyline(path[..i], dist)
      {
        assert path[..i + 1][..i] == path[..i];
        r := r + dist(path[i - 1], path[i]);
        i := i + 1;
      }
      assert path[..|path|] == path;
    }
  }

  lemma {:induction false} PolylineNonNegative(path: seq<Point>, dist: Metric)
    requires IsDistance(dist)
    ensures Polyline(path, dist) >= 0.0
  {
    if |path| >= 2 {
      PolylineNonNegative(path[..|path| - 1], dist);
    }
  }

  /** The length is zero exactly when no two consecutive points differ. */
  lemma {:induction false} PolylineZero(path: seq<Point>, dist: Metric)
    requires IsDistance(dist)
    ensures Polyline(path, dist) == 0.0 <==> forall i :: 0 < i < |path| ==> path[i - 1] == path[i]
  {
    if |path| >= 2 {
      var init := path[..|path| - 1];
      PolylineZero(init, dist);
      PolylineNonNegative(init, dist);
      assert forall i :: 0 <= i < |init| ==> init[i] == path[i];
    }
  }

  /** Joining two polylines adds the segment between them. */
  lemma {:induction false} PolylineAppend(a: seq<Point>, b: seq<Point>, dist: Metric)
    requires |a| > 0 && |b| > 0
    ensures Polyline(a + b, dist) == Polyline(a, dist) + dist(a[|a| - 1], b[0]) + Polyline(b, dist)
    decreases |b|
  {
    if |b| == 1 {
      assert (a + b)[..|a + b| - 1] == a;
    } else {
      var b' := b[..|b| - 1];
      PolylineAppend(a, b', dist);
      assert (a + b)[..|a + b| - 1] == a + b';
    }
  }

  /** As written, a two-point path with distinct ends measures 0, though its polyline length is positive. */
  lemma PathLenTwoPoints(p: Point, q: Point, dist: Metric)
    requires IsDistance(dist) && p != q
    ensures !Measured([p, q]) && Polyline([p, q], dist) > 0.0
  {
    assert [p, q][..1] == [p];
  }
}
