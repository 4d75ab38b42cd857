/**
 * Where the points of a reconstructed path lie. On a mesh whose
 * adjacency lists only pair touching boxes, every entry point a search
 * records lies in its own box and in the box its backpointer names, so
 * each leg of a path `construct_path` builds from the labels runs inside
 * one box of the mesh.
 */
module PathShape {
  import opened Wrappers
  import opened Geometry
  import opened SearchState
  import opened Expansion

  /** Every entry point lies in its own box and in the box its backpointer names. */
  ghost predicate GeoLabels(l: Labels, mesh: Mesh) {
    && WellKeyed(l)
    && forall b :: b in l.prev ==>
         && b in mesh.adj && CheckInBox(l.entry[b], b)
         && (l.prev[b].Some? ==>
               && l.prev[b].value in l.prev && l.prev[b].value in mesh.adj
               && CheckInBox(l.entry[b], l.prev[b].value))
  }

  lemma StartGeo(origin: Box, p: Point, mesh: Mesh)
    requires origin in mesh.adj && CheckInBox(p, origin)
    ensures GeoLabels(Start(origin, p), mesh)
  {
  }

  /**
   * An expansion of `cur` over its adjacency list keeps the entry points
   * in their boxes: a relaxed neighbour is entered at the crossing point,
   * which lies in both `cur` and the neighbour.
   */
  lemma ExpandGeo(l: Labels, l': Labels, cur: Box, mesh: Mesh, dist: Metric)
    requires WellKeyed(l) && WellKeyed(l') && cur in l.prev && l.prev.Keys <= l'.prev.Keys
    requires GeoLabels(l, mesh) && Navigable(mesh) && Closed(mesh)
    requires forall nb :: nb in mesh.adj[cur] ==> Settled(l, l', cur, l.entry[cur], nb, dist)
    requires forall b :: b !in mesh.adj[cur] ==> Same(l, l', b)
    ensures GeoLabels(l', mesh)
  {
    forall x | x in l'.prev
      ensures && x in mesh.adj && CheckInBox(l'.entry[x], x)
              && (l'.prev[x].Some? ==>
                    && l'.prev[x].value in l'.prev && l'.prev[x].value in mesh.adj
                    && CheckInBox(l'.entry[x], l'.prev[x].value))
    {
      if x in mesh.adj[cur] && Improves(l, cur, l.entry[cur], x, dist) {
        assert Settled(l, l', cur, l.entry[cur], x, dist);
        var j :| 0 <= j < |mesh.adj[cur]| && mesh.adj[cur][j] == x;
        assert Touch(cur, x);
        TouchCrossing(l.entry[cur], cur, x);
      } else if x in mesh.adj[cur] {
        assert Settled(l, l', cur, l.entry[cur], x, dist);
      } else {
        assert Same(l, l', x);
      }
    }
  }

  // ---------------------------------------------------------------------
  // The legs of a reconstructed path
  // ---------------------------------------------------------------------

  /** A point in the same box as the last one extends a path leg by leg. */
  lemma SegmentsSnoc(path: seq<Point>, p: Point, b: Box, mesh: Mesh)
    requires Segments(path, mesh) && |path| > 0 && b in mesh.adj
    requires CheckInBox(path[|path| - 1], b) && CheckInBox(p, b)
    ensures Segments(path + [p], mesh)
  {
    var r := path + [p];
    forall i | 0 < i < |r| ensures InOneBox(r[i - 1], r[i], mesh) {
      if i == |path| {
        assert CheckInBox(r[i - 1], b) && CheckInBox(r[i], b);
      } else {
        assert r[i - 1] == path[i - 1] && r[i] == path[i];
      }
    }
  }

  lemma SegmentsReverse(path: seq<Point>, mesh: Mesh)
    requires Segments(path, mesh)
    ensures Segments(Reverse(path), mesh)
  {
    var r := Reverse(path);
    forall i | 0 < i < |r| ensures InOneBox(r[i - 1], r[i], mesh) {
      var j := |path| - i;
      assert r[i - 1] == path[j] && r[i] == path[j - 1];
      var b :| b in mesh.adj && CheckInBox(path[j - 1], b) && CheckInBox(path[j], b);
      assert CheckInBox(r[i - 1], b) && CheckInBox(r[i], b);
    }
  }

  /** A successful walk runs leg by leg through the mesh and ends inside `target`. */
  ghost predicate WalkInMesh(r: Result<seq<Point>>, target: Box, mesh: Mesh) {
    r.Ok? ==> |r.value| > 0 && Segments(r.value, mesh) && CheckInBox(r.value[|r.value| - 1], target)
  }

  /** The walk back along backpointers only adds legs inside the box it is leaving. */
  lemma {:induction false} WalkSegments(l: Labels, mesh: Mesh, path: seq<Point>, cur: Box, target: Box, fuel: nat)
    requires GeoLabels(l, mesh) && |path| > 0 && cur in l.prev
    requires Segments(path, mesh) && CheckInBox(path[|path| - 1], cur)
    ensures WalkInMesh(Walk(path, cur, target, l.prev, l.entry, fuel), target, mesh)
    decreases fuel
  {
    if cur != target && cur in l.entry && cur in l.prev && l.prev[cur].Some? && fuel > 0 {
      var p := l.prev[cur].value;
      assert p in l.prev && CheckInBox(l.entry[cur], p) && CheckInBox(l.entry[cur], cur) && cur in mesh.adj;
      var path' := if path[|path| - 1] != l.entry[cur] then path + [l.entry[cur]] else path;
      if path[|path| - 1] != l.entry[cur] {
        SegmentsSnoc(path, l.entry[cur], cur, mesh);
      }
      assert |path'| > 0 && Segments(path', mesh) && path'[|path'| - 1] == l.entry[cur];
      WalkSegments(l, mesh, path', p, target, fuel - 1);
      assert Walk(path, cur, target, l.prev, l.entry, fuel) == Walk(path', p, target, l.prev, l.entry, fuel - 1);
    } else if cur == target {
      assert Walk(path, cur, target, l.prev, l.entry, fuel) == Ok(path);
    }
  }

  /** Appending the target's entry point and reversing keep every leg in one box. */
  lemma FinishSegments(l: Labels, mesh: Mesh, w: seq<Point>, target: Box, reverse: bool)
    requires GeoLabels(l, mesh) && |w| > 0 && NoAdjacentDup(w)
    requires Segments(w, mesh) && CheckInBox(w[|w| - 1], target)
    ensures var r := Finish(w, target, l.entry, reverse); r.Ok? ==> Segments(r.value, mesh)
  {
    if target in l.entry {
      var full := if w[|w| - 1] != l.entry[target] then w + [l.entry[target]] else w;
      if w[|w| - 1] != l.entry[target] {
        SegmentsSnoc(w, l.entry[target], target, mesh);
      }
      if reverse {
        SegmentsReverse(full, mesh);
      }
    }
  }

  /**
   * Every leg of a path `construct_path` rebuilds from labels whose entry
   * points lie in their boxes runs inside one box, provided the given last
   * point lies in the last box.
   */
  lemma ConstructPathSegments(l: Labels, mesh: Mesh, lastBox: Box, target: Box, lastPoint: Option<Point>, reverse: bool)
    requires GeoLabels(l, mesh) && lastBox in l.prev
    requires lastPoint.Some? ==> CheckInBox(lastPoint.value, lastBox)
    ensures var r := ConstructPath(lastBox, target, l.prev, l.entry, lastPoint, reverse);
            r.Ok? ==> Segments(r.value, mesh)
  {
    if !(lastPoint.None? && lastBox == target) {
      if lastPoint.Some? {
        WalkSegments(l, mesh, [lastPoint.value], lastBox, target, |l.prev|);
        var walked := Walk([lastPoint.value], lastBox, target, l.prev, l.entry, |l.prev|);
        assert WalkInMesh(walked, target, mesh);
        if walked.Ok? {
          FinishSegments(l, mesh, walked.value, target, reverse);
        }
      } else if l.prev[lastBox].Some? {
        var p := l.prev[lastBox].value;
        WalkSegments(l, mesh, [l.entry[lastBox]], p, target, |l.prev|);
        var walked := Walk([l.entry[lastBox]], p, target, l.prev, l.entry, |l.prev|);
        assert WalkInMesh(walked, target, mesh);
        if walked.Ok? {
          FinishSegments(l, mesh, walked.value, target, reverse);
        }
      }
    }
  }
}
