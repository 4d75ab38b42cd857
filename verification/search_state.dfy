/**
 * The state one search direction keeps (P1/src/nm_pathfinder.py): a cost,
 * a backpointer and an entry point per reached box, the relaxation rule
 * that updates them, and `construct_path`, which walks the backpointers.
 */
module SearchState {
  import opened Wrappers
  import opened Geometry

  /** Cost so far, backpointer (None for the origin) and entry point, per box. */
  datatype Labels = Labels(cost: map<Box, real>, prev: map<Box, Option<Box>>, entry: map<Box, Point>)

  /** The three maps are always updated together, so they share their keys. */
  predicate WellKeyed(l: Labels) {
    l.cost.Keys == l.prev.Keys && l.prev.Keys == l.entry.Keys
  }

  /** The labels a search starts from: only the origin box, at cost 0, entered at `p`. */
  function Start(origin: Box, p: Point): (l: Labels)
    ensures WellKeyed(l) && l.prev.Keys == {origin}
    ensures l.cost[origin] == 0.0 && l.prev[origin] == None && l.entry[origin] == p
  {
    Labels(map[origin := 0.0], map[origin := None], map[origin := p])
  }

  /** The cost a path entering `nb` from `cur`, standing at `pSrc`, would have. */
  function NewCost(l: Labels, cur: Box, pSrc: Point, nb: Box, dist: Metric): real
    requires cur in l.cost
  {
    l.cost[cur] + dist(pSrc, FindNextPoint(pSrc, cur, nb))
  }

  /**
   * Relaxation of the edge from `cur` (entered at `pSrc`) to its neighbour
   * `nb`: the neighbour's three labels are replaced exactly when it is
   * unreached or the new path is strictly cheaper. The flag says whether
   * they were, that is, whether the source pushes a frontier entry.
   */
  function Relax(l: Labels, cur: Box, pSrc: Point, nb: Box, dist: Metric): (r: (Labels, bool))
    requires WellKeyed(l) && cur in l.prev
    ensures WellKeyed(r.0)
    ensures r.1 <==> nb !in l.prev || NewCost(l, cur, pSrc, nb, dist) < l.cost[nb]
    ensures r.1 ==> && r.0.prev.Keys == l.prev.Keys + {nb}
                    && r.0.cost[nb] == NewCost(l, cur, pSrc, nb, dist)
                    && r.0.prev[nb] == Some(cur)
                    && r.0.entry[nb] == FindNextPoint(pSrc, cur, nb)
    ensures !r.1 ==> r.0 == l
    ensures forall b :: b in l.prev && b != nb ==>
              r.0.cost[b] == l.cost[b] && r.0.prev[b] == l.prev[b] && r.0.entry[b] == l.entry[b]
    ensures forall b :: b in l.cost ==> r.0.cost[b] <= l.cost[b]
  {
    var c := NewCost(l, cur, pSrc, nb, dist);
    if nb !in l.prev || c < l.cost[nb] then
      (Labels(l.cost[nb := c], l.prev[nb := Some(cur)], l.entry[nb := FindNextPoint(pSrc, cur, nb)]), true)
    else
      (l, false)
  }

  // ---------------------------------------------------------------------
  // Why the backpointers always lead back to the origin.
  //
  // `stamp` records, per box, the step at which its labels were last set.
  // Along every backpointer the pair (cost, stamp) strictly decreases in
  // lexicographic order, so a walk visits each box at most once.
  // ---------------------------------------------------------------------

  ghost predicate Below(l: Labels, stamp: map<Box, nat>, p: Box, b: Box)
    requires p in l.cost && b in l.cost && p in stamp && b in stamp
  {
    l.cost[p] < l.cost[b] || (l.cost[p] == l.cost[b] && stamp[p] < stamp[b])
  }

  /** The invariant one search direction keeps, rooted at `origin` entered at `p0`. */
  ghost predicate Valid(l: Labels, stamp: map<Box, nat>, origin: Box, p0: Point) {
    && WellKeyed(l)
    && stamp.Keys == l.prev.Keys
    && origin in l.prev
    && l.cost[origin] == 0.0
    && l.entry[origin] == p0
    && (forall b :: b in l.cost ==> l.cost[b] >= 0.0)
    && (forall b :: b in l.prev ==> (l.prev[b].None? <==> b == origin))
    && (forall b :: b in l.prev && l.prev[b].Some? ==>
          l.prev[b].value in l.prev && Below(l, stamp, l.prev[b].value, b))
  }

  lemma StartValid(origin: Box, p0: Point)
    ensures Valid(Start(origin, p0), map[origin := 0], origin, p0)
  {
  }

  /** Every stamp handed out so far is older than `clock`. */
  ghost predicate StampsBelow(stamp: map<Box, nat>, clock: nat) {
    forall b :: b in stamp ==> stamp[b] < clock
  }

  /** A relaxation keeps the invariant when the relaxed box gets a fresh stamp. */
  lemma RelaxValid(l: Labels, stamp: map<Box, nat>, origin: Box, p0: Point,
                   cur: Box, pSrc: Point, nb: Box, dist: Metric, clock: nat)
    requires Valid(l, stamp, origin, p0) && IsDistance(dist) && cur in l.prev
    requires StampsBelow(stamp, clock)
    ensures var r := Relax(l, cur, pSrc, nb, dist);
            Valid(r.0, if r.1 then stamp[nb := clock] else stamp, origin, p0)
  {
    var r := Relax(l, cur, pSrc, nb, dist);
    if r.1 {
      var l', st' := r.0, stamp[nb := clock];
      assert dist(pSrc, FindNextPoint(pSrc, cur, nb)) >= 0.0;
      assert nb != origin;
      assert nb != cur;
      forall b | b in l'.prev && l'.prev[b].Some?
        ensures l'.prev[b].value in l'.prev && Below(l', st', l'.prev[b].value, b)
      {
        if b == nb {
          assert l'.prev[b].value == cur && cur in l.prev;
          assert l'.cost[cur] == l.cost[cur] && st'[cur] == stamp[cur] < clock == st'[nb];
        } else {
          var q := l.prev[b].value;
          assert l'.prev[b] == l.prev[b] && q in l.prev && Below(l, stamp, q, b);
          assert l'.cost[b] == l.cost[b] && st'[b] == stamp[b];
          if q == nb {
            assert l'.cost[nb] < l.cost[nb];
          } else {
            assert l'.cost[q] == l.cost[q] && st'[q] == stamp[q];
          }
        }
      }
    }
  }

  /** How many reached boxes lie strictly below `b`. */
  ghost function Rank(l: Labels, stamp: map<Box, nat>, b: Box): nat
    requires WellKeyed(l) && stamp.Keys == l.prev.Keys && b in l.prev
  {
    |set c | c in l.prev && Below(l, stamp, c, b)|
  }

  lemma SubsetCard<T>(a: set<T>, b: set<T>)
    requires a <= b
    ensures |a| <= |b|
    ensures a < b ==> |a| < |b|
  {
    assert b == a + (b - a);
    assert a !! (b - a);
  }

  lemma RankBound(l: Labels, stamp: map<Box, nat>, b: Box)
    requires WellKeyed(l) && stamp.Keys == l.prev.Keys && b in l.prev
    ensures Rank(l, stamp, b) < |l.prev|
  {
    var below := set c | c in l.prev && Below(l, stamp, c, b);
    SubsetCard(below, l.prev.Keys - {b});
    assert |l.prev.Keys - {b}| == |l.prev.Keys| - 1;
  }

  /** Following a backpointer strictly lowers the rank. */
  lemma RankDecreases(l: Labels, stamp: map<Box, nat>, p: Box, b: Box)
    requires WellKeyed(l) && stamp.Keys == l.prev.Keys && p in l.prev && b in l.prev
    requires Below(l, stamp, p, b)
    ensures Rank(l, stamp, p) < Rank(l, stamp, b)
  {
    var below := set c | c in l.prev && Below(l, stamp, c, b);
    var belowP := set c | c in l.prev && Below(l, stamp, c, p);
    assert p in below && p !in belowP;
    SubsetCard(belowP, below);
  }

  // ---------------------------------------------------------------------
  // construct_path
  // ---------------------------------------------------------------------

  predicate NoAdjacentDup(s: seq<Point>) {
    forall i :: 0 < i < |s| ==> s[i - 1] != s[i]
  }

  function Reverse<T>(s: seq<T>): (r: seq<T>)
    ensures |r| == |s|
    ensures forall i :: 0 <= i < |s| ==> r[i] == s[|s| - 1 - i]
    ensures multiset(r) == multiset(s)
  {
    if |s| == 0 then [] else
      assert s == [s[0]] + s[1..];
      Reverse(s[1..]) + [s[0]]
  }
  lemma ReverseThree<T>(x: T, y: T, z: T)
    ensures Reverse([x, y, z]) == [z, y, x]
  {
    assert [x, y, z][1..] == [y, z] && [y, z][1..] == [z] && [z][1..] == [];
    assert Reverse([z]) == [z];
    assert Reverse([y, z]) == [z, y];
  }

  /**
   * Two reached boxes, `b` entered from `a`: the reconstruction from `b`
   * with a last point `q` is `a`'s entry, `b`'s entry, then `q`.
   */
  lemma TwoBoxReconstruct(a: Box, b: Box, pa: Point, pb: Point, q: Point)
    requires a != b && q != pb && pb != pa
    ensures ConstructPath(b, a, map[a := None, b := Some(a)], map[a := pa, b := pb], Some(q), true)
            == Ok([pa, pb, q])
  {
    TwoBoxWalk(a, b, pa, pb, q);
    var w := [q, pb];
    assert w + [pa] == [q, pb, pa];
    ReverseThree(q, pb, pa);
    assert Finish(w, a, map[a := pa, b := pb], true) == Ok([pa, pb, q]);
  }

  /** The walk back from `b` takes one step, to `a`, adding `b`'s entry point. */
  lemma TwoBoxWalk(a: Box, b: Box, pa: Point, pb: Point, q: Point)
    requires a != b && q != pb
    ensures var prev: map<Box, Option<Box>> := map[a := None, b := Some(a)];
            Walk([q], b, a, prev, map[a := pa, b := pb], |prev|) == Ok([q, pb])
  {
    var prev: map<Box, Option<Box>>, entry := map[a := None, b := Some(a)], map[a := pa, b := pb];
    var w := [q, pb];
    assert prev.Keys == {a, b};
    assert |prev| == 2;
    assert Walk(w, a, a, prev, entry, 1) == Ok(w);
    assert [q] + [pb] == w;
  }




  lemma ReverseNoAdjacentDup(s: seq<Point>)
    requires NoAdjacentDup(s)
    ensures NoAdjacentDup(Reverse(s))
  {
    var r := Reverse(s);
    forall i | 0 < i < |r| ensures r[i - 1] != r[i] {
      assert r[i - 1] == s[|s| - i] && r[i] == s[|s| - 1 - i];
    }
  }

  /**
   * The loop of `construct_path`: from `cur`, follow backpointers until
   * `target`, appending each box's entry point unless it repeats the last
   * point. A missing key ends it with a KeyError; `fuel` bounds its steps.
   */
  function Walk(path: seq<Point>, cur: Box, target: Box,
                prev: map<Box, Option<Box>>, entry: map<Box, Point>, fuel: nat): (r: Result<seq<Point>>)
    requires |path| > 0
    ensures r.Ok? ==> |r.value| >= |path| && r.value[..|path|] == path
    ensures r.Ok? && NoAdjacentDup(path) ==> NoAdjacentDup(r.value)
    ensures r.Ok? ==> forall i :: |path| <= i < |r.value| ==> r.value[i] in entry.Values
    decreases fuel
  {
    if cur == target then Ok(path)
    else if cur !in entry || cur !in prev || prev[cur].None? then Err(KeyMissing)
    else if fuel == 0 then Err(OutOfFuel)
    else
      var path' := if path[|path| - 1] != entry[cur] then path + [entry[cur]] else path;
      var r := Walk(path', prev[cur].value, target, prev, entry, fuel - 1);
      assert r.Ok? ==> r.value[..|path|] == r.value[..|path'|][..|path|];
      r
  }

  /** The walk from any reached box reaches the origin when fuel exceeds its rank. */
  lemma {:induction false} WalkReachesOrigin(l: Labels, stamp: map<Box, nat>, origin: Box, p0: Point,
                                             path: seq<Point>, cur: Box, fuel: nat)
    requires Valid(l, stamp, origin, p0) && cur in l.prev && |path| > 0
    requires fuel > Rank(l, stamp, cur)
    ensures Walk(path, cur, origin, l.prev, l.entry, fuel).Ok?
    decreases fuel
  {
    if cur != origin {
      assert l.prev[cur].Some?;
      var p := l.prev[cur].value;
      assert p in l.prev && Below(l, stamp, p, cur);
      RankDecreases(l, stamp, p, cur);
      var path' := if path[|path| - 1] != l.entry[cur] then path + [l.entry[cur]] else path;
      WalkReachesOrigin(l, stamp, origin, p0, path', p, fuel - 1);
      assert Walk(path, cur, origin, l.prev, l.entry, fuel) == Walk(path', p, origin, l.prev, l.entry, fuel - 1);
    }
  }

  /**
   * The end of `construct_path`: append the target's entry point unless it
   * repeats the last point, then reverse the list when asked.
   */
  function Finish(w: seq<Point>, target: Box, entry: map<Box, Point>, reverse: bool): (r: Result<seq<Point>>)
    requires |w| > 0 && NoAdjacentDup(w)
    ensures r.Ok? <==> target in entry
    ensures r.Ok? ==> |r.value| > 0 && NoAdjacentDup(r.value)
    ensures r.Ok? ==> (if reverse then r.value[0] else r.value[|r.value| - 1]) == entry[target]
    ensures r.Ok? ==> (if reverse then r.value[|r.value| - 1] else r.value[0]) == w[0]
    ensures r.Ok? ==> forall x :: x in r.value ==> x in w || x == entry[target]
  {
    if target !in entry then Err(KeyMissing)
    else
      var full := if w[|w| - 1] != entry[target] then w + [entry[target]] else w;
      assert full[0] == w[0];
      if reverse then ReverseNoAdjacentDup(full); Ok(Reverse(full)) else Ok(full)
  }

  /**
   * `construct_path(last_box, target_box, prev, points, last_point, reverse)`.
   * Without `last_point` it starts from `last_box`'s own entry point; the
   * target's entry point is appended unless it repeats the last point; the
   * list is reversed when `reverse` holds.
   */
  function ConstructPath(lastBox: Box, target: Box, prev: map<Box, Option<Box>>,
                         entry: map<Box, Point>, lastPoint: Option<Point>, reverse: bool): (r: Result<seq<Point>>)
    ensures r.Ok? ==> NoAdjacentDup(r.value)
    ensures lastPoint.None? && lastBox == target ==> r == Ok([])
    ensures r.Ok? && (lastPoint.Some? || lastBox != target) ==> |r.value| > 0
    ensures r.Ok? && |r.value| > 0 ==>
              target in entry && (if reverse then r.value[0] else r.value[|r.value| - 1]) == entry[target]
    ensures r.Ok? && lastPoint.Some? ==>
              (if reverse then r.value[|r.value| - 1] else r.value[0]) == lastPoint.value
    ensures r.Ok? && lastPoint.None? && lastBox != target ==>
              lastBox in entry && (if reverse then r.value[|r.value| - 1] else r.value[0]) == entry[lastBox]
    ensures r.Ok? ==> forall x :: x in r.value ==> x in entry.Values || Some(x) == lastPoint
  {
    if lastPoint.None? && lastBox == target then Ok([])
    else
      var start: Result<(seq<Point>, Box)> :=
        if lastPoint.Some? then Ok(([lastPoint.value], lastBox))
        else if lastBox !in entry || lastBox !in prev || prev[lastBox].None? then Err(KeyMissing)
        else Ok(([entry[lastBox]], prev[lastBox].value));
      if start.Err? then Err(start.error)
      else
        var (path, cur) := start.value;
        var walked := Walk(path, cur, target, prev, entry, |prev|);
        if walked.Err? then Err(walked.error)
        else
          var w := walked.value;
          assert w[0] == path[0];
          assert forall x :: x in w ==> x in entry.Values || x == w[0] by {
            forall x | x in w ensures x in entry.Values || x == w[0] {
              var i :| 0 <= i < |w| && w[i] == x;
            }
          }
          Finish(w, target, entry, reverse)
  }

  /** In a valid search state, walking back from any reached box to the origin succeeds. */
  lemma ConstructPathSucceeds(l: Labels, stamp: map<Box, nat>, origin: Box, p0: Point,
                              lastBox: Box, lastPoint: Option<Point>, reverse: bool)
    requires Valid(l, stamp, origin, p0) && lastBox in l.prev
    ensures ConstructPath(lastBox, origin, l.prev, l.entry, lastPoint, reverse).Ok?
  {
    RankBound(l, stamp, lastBox);
    if lastPoint.Some? {
      WalkReachesOrigin(l, stamp, origin, p0, [lastPoint.value], lastBox, |l.prev|);
    } else if lastBox != origin {
      var p := l.prev[lastBox].value;
      RankBound(l, stamp, p);
      WalkReachesOrigin(l, stamp, origin, p0, [l.entry[lastBox]], p, |l.prev|);
    }
  }
}

/**
 * The expansion of one popped box: relax the edge to every neighbour in
 * adjacency-list order, and report the frontier entries the source pushes,
 * with priority cost plus `hw` times the distance from the new entry point
 * to the goal.
 */
module Expansion {
  import opened Wrappers
  import opened Geometry
  import opened SearchState

  datatype Push = Push(priority: real, box: Box)

  lemma StampFresh(stamp: map<Box, nat>, clock: nat, nb: Box)
    requires StampsBelow(stamp, clock)
    ensures StampsBelow(stamp[nb := clock], clock + 1)
  {
  }

  ghost predicate PushedReached(pushed: seq<Push>, neighbors: seq<Box>, l: Labels) {
    forall p :: p in pushed ==> p.box in neighbors && p.box in l.prev
  }

  lemma PushedStep(pushed: seq<Push>, push: Push, neighbors: seq<Box>, l: Labels, l': Labels)
    requires PushedReached(pushed, neighbors, l) && l.prev.Keys <= l'.prev.Keys
    requires push.box in neighbors && push.box in l'.prev
    ensures PushedReached(pushed + [push], neighbors, l')
  {
    assert forall p :: p in pushed + [push] ==> p in pushed || p == push;
  }

  /** The part of the loop invariant that relates the current labels to the labels `l0` before the expansion. */
  ghost predicate FrameSince(l0: Labels, l: Labels, neighbors: seq<Box>)
    requires WellKeyed(l0) && WellKeyed(l)
  {
    && l0.prev.Keys <= l.prev.Keys
    && (forall b :: b in l.prev ==> b in l0.prev || b in neighbors)
    && (forall b :: b in l0.cost ==> l.cost[b] <= l0.cost[b])
    && (forall b :: b in l0.prev && b !in neighbors ==>
          l.cost[b] == l0.cost[b] && l.prev[b] == l0.prev[b] && l.entry[b] == l0.entry[b])
  }

  lemma RelaxFrame(l0: Labels, l: Labels, cur: Box, pSrc: Point, nb: Box, neighbors: seq<Box>, dist: Metric)
    requires WellKeyed(l0) && WellKeyed(l) && cur in l.prev && nb in neighbors
    requires FrameSince(l0, l, neighbors)
    ensures WellKeyed(Relax(l, cur, pSrc, nb, dist).0)
    ensures FrameSince(l0, Relax(l, cur, pSrc, nb, dist).0, neighbors)
  {
  }

  /** The weighted estimate `hw * dist(p, goal)` added to a cost to make a priority. */
  function Heuristic(p: Point, goal: Point, hw: real, dist: Metric): real {
    hw * dist(p, goal)
  }

  /** The frontier entry for a reached box `b`: its cost plus the weighted estimate from its entry point. */
  function EntryFor(l: Labels, b: Box, goal: Point, hw: real, dist: Metric): Push
    requires b in l.cost && b in l.entry
  {
    Push(l.cost[b] + Heuristic(l.entry[b], goal, hw, dist), b)
  }

  /** Relaxing `nb` from `cur`, standing at `pSrc`, improves on the labels `l`. */
  predicate Improves(l: Labels, cur: Box, pSrc: Point, nb: Box, dist: Metric)
    requires WellKeyed(l) && cur in l.prev
  {
    nb !in l.prev || NewCost(l, cur, pSrc, nb, dist) < l.cost[nb]
  }

  /** `b` carries the same labels in `l` and `l'`, or is unreached in both. */
  ghost predicate Same(l: Labels, l': Labels, b: Box)
    requires WellKeyed(l) && WellKeyed(l')
  {
    && (b in l.prev <==> b in l'.prev)
    && (b in l.prev ==> l'.cost[b] == l.cost[b] && l'.prev[b] == l.prev[b] && l'.entry[b] == l.entry[b])
  }

  /**
   * In `l'`, `nb` carries the labels its relaxation from `cur` gives when
   * that improves on `l`, and its labels from `l` otherwise.
   */
  ghost predicate Settled(l: Labels, l': Labels, cur: Box, pSrc: Point, nb: Box, dist: Metric)
    requires WellKeyed(l) && WellKeyed(l') && cur in l.prev
  {
    if Improves(l, cur, pSrc, nb, dist) then
      && nb in l'.prev
      && l'.cost[nb] == NewCost(l, cur, pSrc, nb, dist)
      && l'.prev[nb] == Some(cur)
      && l'.entry[nb] == FindNextPoint(pSrc, cur, nb)
    else Same(l, l', nb)
  }

  /**
   * The entries an expansion of `cur` over the neighbour list `ns` pushes,
   * in neighbour order: one for the first occurrence of each neighbour
   * whose relaxation improves on `l`, prioritised by its new cost plus
   * `hw` times the distance from its crossing point to `goal`.
   */
  function Pushes(l: Labels, cur: Box, pSrc: Point, ns: seq<Box>, goal: Point, hw: real, dist: Metric): seq<Push>
    requires WellKeyed(l) && cur in l.prev
    decreases |ns|
  {
    if ns == [] then []
    else
      var init := ns[..|ns| - 1];
      var nb := ns[|ns| - 1];
      Pushes(l, cur, pSrc, init, goal, hw, dist) + PushFor(l, cur, pSrc, init, nb, goal, hw, dist)
  }

  /** The entry pushed for `nb` after the neighbours `before`: none if it came up before or does not improve. */
  function PushFor(l: Labels, cur: Box, pSrc: Point, before: seq<Box>, nb: Box, goal: Point, hw: real, dist: Metric): seq<Push>
    requires WellKeyed(l) && cur in l.prev
  {
    if nb !in before && Improves(l, cur, pSrc, nb, dist)
    then [Push(NewCost(l, cur, pSrc, nb, dist) + Heuristic(FindNextPoint(pSrc, cur, nb), goal, hw, dist), nb)]
    else []
  }

  /** Every entry of `Pushes` is for an improving neighbour, at the priority its new labels give. */
  lemma {:induction false} PushesSound(l: Labels, cur: Box, pSrc: Point, ns: seq<Box>, goal: Point, hw: real, dist: Metric)
    requires WellKeyed(l) && cur in l.prev
    ensures forall p :: p in Pushes(l, cur, pSrc, ns, goal, hw, dist) ==>
              && p.box in ns && Improves(l, cur, pSrc, p.box, dist)
              && p.priority == NewCost(l, cur, pSrc, p.box, dist) + Heuristic(FindNextPoint(pSrc, cur, p.box), goal, hw, dist)
    decreases |ns|
  {
    if ns != [] {
      var init := ns[..|ns| - 1];
      PushesSound(l, cur, pSrc, init, goal, hw, dist);
      assert forall b :: b in init ==> b in ns;
    }
  }

  /** Every improving neighbour has an entry in `Pushes`. */
  lemma {:induction false} PushesComplete(l: Labels, cur: Box, pSrc: Point, ns: seq<Box>, goal: Point, hw: real, dist: Metric)
    requires WellKeyed(l) && cur in l.prev
    ensures forall nb :: nb in ns && Improves(l, cur, pSrc, nb, dist) ==>
              exists p :: p in Pushes(l, cur, pSrc, ns, goal, hw, dist) && p.box == nb
    decreases |ns|
  {
    if ns != [] {
      var init := ns[..|ns| - 1];
      var last := ns[|ns| - 1];
      PushesComplete(l, cur, pSrc, init, goal, hw, dist);
      assert ns == init + [last];
      var ps := Pushes(l, cur, pSrc, ns, goal, hw, dist);
      forall nb | nb in ns && Improves(l, cur, pSrc, nb, dist) ensures exists p :: p in ps && p.box == nb {
        if nb in init {
          var p :| p in Pushes(l, cur, pSrc, init, goal, hw, dist) && p.box == nb;
          assert p in ps;
        } else {
          assert PushFor(l, cur, pSrc, init, nb, goal, hw, dist)[0] in ps;
        }
      }
    }
  }

  /** No box has two entries in `ps`. */
  predicate DistinctBoxes(ps: seq<Push>) {
    forall j, k :: 0 <= j < k < |ps| ==> ps[j].box != ps[k].box
  }

  /** No box has two entries in `Pushes`. */
  lemma {:induction false} PushesDistinct(l: Labels, cur: Box, pSrc: Point, ns: seq<Box>, goal: Point, hw: real, dist: Metric)
    requires WellKeyed(l) && cur in l.prev
    ensures DistinctBoxes(Pushes(l, cur, pSrc, ns, goal, hw, dist))
    decreases |ns|
  {
    if ns != [] {
      var init := ns[..|ns| - 1];
      var last := ns[|ns| - 1];
      PushesDistinct(l, cur, pSrc, init, goal, hw, dist);
      PushesSound(l, cur, pSrc, init, goal, hw, dist);
      var ps0 := Pushes(l, cur, pSrc, init, goal, hw, dist);
      var ps := Pushes(l, cur, pSrc, ns, goal, hw, dist);
      assert ps == ps0 + PushFor(l, cur, pSrc, init, last, goal, hw, dist);
      forall j, k | 0 <= j < k < |ps| ensures ps[j].box != ps[k].box {
        if k >= |ps0| {
          var tail := PushFor(l, cur, pSrc, init, last, goal, hw, dist);
          assert |tail| <= 1 && k == |ps0| && j < |ps0|;
          assert ps[k] == tail[0] && tail[0].box == last && last !in init;
          assert ps[j] == ps0[j] && ps0[j] in ps0 && ps0[j].box in init;
        } else {
          assert ps[j] == ps0[j] && ps[k] == ps0[k];
        }
      }
    }
  }

  /** One more relaxation in the loop of `Expand` keeps its characterisation of the labels. */
  lemma ExpandStep(l: Labels, l': Labels, cur: Box, pSrc: Point, neighbors: seq<Box>, i: nat, dist: Metric)
    requires WellKeyed(l) && WellKeyed(l') && cur in l.prev && cur in l'.prev && IsDistance(dist)
    requires i < |neighbors| && ExpandLabels(l, l', cur, pSrc, neighbors[..i], neighbors, dist)
    ensures var nb := neighbors[i]; var r := Relax(l', cur, pSrc, nb, dist);
            && (r.1 <==> nb !in neighbors[..i] && Improves(l, cur, pSrc, nb, dist))
            && ExpandLabels(l, r.0, cur, pSrc, neighbors[..i + 1], neighbors, dist)
  {
    var nb := neighbors[i];
    var r := Relax(l', cur, pSrc, nb, dist);
    RelaxFrame(l, l', cur, pSrc, nb, neighbors, dist);
    assert neighbors[..i + 1] == neighbors[..i] + [nb];
    assert NewCost(l', cur, pSrc, nb, dist) == NewCost(l, cur, pSrc, nb, dist);
    assert dist(pSrc, FindNextPoint(pSrc, cur, cur)) >= 0.0;
    if nb in neighbors[..i] {
      assert Settled(l, l', cur, pSrc, nb, dist);
    } else {
      assert Same(l, l', nb);
    }
    forall x | x in neighbors[..i + 1] ensures Settled(l, r.0, cur, pSrc, x, dist) {
      if x != nb {
        assert x in neighbors[..i];
        assert Settled(l, l', cur, pSrc, x, dist);
      }
    }
    forall b | b !in neighbors[..i + 1] ensures Same(l, r.0, b) {
      assert b !in neighbors[..i] && b != nb;
      assert Same(l, l', b);
    }
  }

  /** `Pushes` over one more neighbour adds that neighbour's entry, if any. */
  lemma PushesSnoc(l: Labels, cur: Box, pSrc: Point, neighbors: seq<Box>, i: nat, goal: Point, hw: real, dist: Metric)
    requires WellKeyed(l) && cur in l.prev && i < |neighbors|
    ensures var nb := neighbors[i];
            Pushes(l, cur, pSrc, neighbors[..i + 1], goal, hw, dist) ==
              Pushes(l, cur, pSrc, neighbors[..i], goal, hw, dist) + PushFor(l, cur, pSrc, neighbors[..i], nb, goal, hw, dist)
  {
    var ns := neighbors[..i + 1];
    assert ns[..|ns| - 1] == neighbors[..i] && ns[|ns| - 1] == neighbors[i];
  }

  /** The entry the loop of `Expand` pushes for `nb` is the one `PushFor` names. */
  lemma RelaxPush(l: Labels, l': Labels, cur: Box, pSrc: Point, before: seq<Box>, nb: Box, goal: Point, hw: real, dist: Metric)
    requires WellKeyed(l) && WellKeyed(l') && cur in l.prev && cur in l'.prev && l'.cost[cur] == l.cost[cur]
    requires Relax(l', cur, pSrc, nb, dist).1 <==> nb !in before && Improves(l, cur, pSrc, nb, dist)
    ensures var r := Relax(l', cur, pSrc, nb, dist);
            PushFor(l, cur, pSrc, before, nb, goal, hw, dist) ==
              if r.1 then [EntryFor(r.0, nb, goal, hw, dist)] else []
  {
    assert NewCost(l', cur, pSrc, nb, dist) == NewCost(l, cur, pSrc, nb, dist);
  }

  /** How the loop of `Expand` extends its pushed entries to one more neighbour. */
  lemma PushesNext(l: Labels, l': Labels, cur: Box, pSrc: Point, neighbors: seq<Box>, i: nat,
                   goal: Point, hw: real, dist: Metric, r: (Labels, bool), pushed: seq<Push>, push: Push)
    requires WellKeyed(l) && WellKeyed(l') && cur in l.prev && cur in l'.prev && l'.cost[cur] == l.cost[cur]
    requires i < |neighbors| && pushed == Pushes(l, cur, pSrc, neighbors[..i], goal, hw, dist)
    requires r == Relax(l', cur, pSrc, neighbors[i], dist)
    requires r.1 <==> neighbors[i] !in neighbors[..i] && Improves(l, cur, pSrc, neighbors[i], dist)
    requires r.1 ==> push == EntryFor(r.0, neighbors[i], goal, hw, dist)
    ensures r.1 ==> Pushes(l, cur, pSrc, neighbors[..i + 1], goal, hw, dist) == pushed + [push]
    ensures !r.1 ==> Pushes(l, cur, pSrc, neighbors[..i + 1], goal, hw, dist) == pushed
  {
    PushesSnoc(l, cur, pSrc, neighbors, i, goal, hw, dist);
    RelaxPush(l, l', cur, pSrc, neighbors[..i], neighbors[i], goal, hw, dist);
    assert pushed + [] == pushed;
  }

  /** The loop invariant of `Expand` after the first `i` neighbours. */
  ghost predicate ExpandInv(l: Labels, l': Labels, stamp': map<Box, nat>, clock': nat, origin: Box, p0: Point,
                            cur: Box, pSrc: Point, neighbors: seq<Box>, i: nat, goal: Point, hw: real, dist: Metric,
                            pushed: seq<Push>)
  {
    && i <= |neighbors| && WellKeyed(l) && cur in l.prev
    && Valid(l', stamp', origin, p0) && StampsBelow(stamp', clock') && cur in l'.prev
    && ExpandLabels(l, l', cur, pSrc, neighbors[..i], neighbors, dist)
    && PushedReached(pushed, neighbors, l')
    && pushed == Pushes(l, cur, pSrc, neighbors[..i], goal, hw, dist)
  }

  /** How the labels `l'` relate to `l` once the neighbours `done` of the list `neighbors` are relaxed. */
  ghost predicate ExpandLabels(l: Labels, l': Labels, cur: Box, pSrc: Point, done: seq<Box>, neighbors: seq<Box>, dist: Metric)
    requires WellKeyed(l) && WellKeyed(l') && cur in l.prev && cur in l'.prev
  {
    && FrameSince(l, l', neighbors)
    && l'.cost[cur] == l.cost[cur]
    && (forall nb :: nb in done ==> Settled(l, l', cur, pSrc, nb, dist))
    && (forall b :: b !in done ==> Same(l, l', b))
  }

  /** Relaxing neighbour `i` keeps the invariant of `Expand`. */
  lemma ExpandInvStep(l: Labels, l': Labels, stamp': map<Box, nat>, clock': nat, origin: Box, p0: Point,
                      cur: Box, pSrc: Point, neighbors: seq<Box>, i: nat, goal: Point, hw: real, dist: Metric,
                      pushed: seq<Push>, relaxed: (Labels, bool), stamp2: map<Box, nat>, clock2: nat, pushed2: seq<Push>)
    requires ExpandInv(l, l', stamp', clock', origin, p0, cur, pSrc, neighbors, i, goal, hw, dist, pushed)
    requires i < |neighbors| && IsDistance(dist)
    requires relaxed == Relax(l', cur, pSrc, neighbors[i], dist)
    requires relaxed.1 ==> && stamp2 == stamp'[neighbors[i] := clock'] && clock2 == clock' + 1
                           && pushed2 == pushed + [EntryFor(relaxed.0, neighbors[i], goal, hw, dist)]
    requires !relaxed.1 ==> stamp2 == stamp' && clock2 == clock' && pushed2 == pushed
    ensures ExpandInv(l, relaxed.0, stamp2, clock2, origin, p0, cur, pSrc, neighbors, i + 1, goal, hw, dist, pushed2)
  {
    var nb := neighbors[i];
    RelaxValid(l', stamp', origin, p0, cur, pSrc, nb, dist, clock');
    ExpandStep(l, l', cur, pSrc, neighbors, i, dist);
    if relaxed.1 {
      var push := EntryFor(relaxed.0, nb, goal, hw, dist);
      PushesNext(l, l', cur, pSrc, neighbors, i, goal, hw, dist, relaxed, pushed, push);
      PushedStep(pushed, push, neighbors, l', relaxed.0);
      StampFresh(stamp', clock', nb);
    } else {
      PushesNext(l, l', cur, pSrc, neighbors, i, goal, hw, dist, relaxed, pushed, Push(0.0, nb));
    }
  }

  /** What the invariant of `Expand` says once every neighbour is relaxed. */
  lemma ExpandInvDone(l: Labels, l': Labels, stamp': map<Box, nat>, clock': nat, origin: Box, p0: Point,
                      cur: Box, neighbors: seq<Box>, goal: Point, hw: real, dist: Metric, pushed: seq<Push>)
    requires WellKeyed(l) && cur in l.prev
    requires ExpandInv(l, l', stamp', clock', origin, p0, cur, l.entry[cur], neighbors, |neighbors|, goal, hw, dist, pushed)
    ensures forall nb :: nb in neighbors ==> nb in l'.prev && l'.cost[nb] <= NewCost(l, cur, l.entry[cur], nb, dist)
    ensures forall nb :: nb in neighbors ==> Settled(l, l', cur, l.entry[cur], nb, dist)
    ensures forall b :: b !in neighbors ==> Same(l, l', b)
    ensures pushed == Pushes(l, cur, l.entry[cur], neighbors, goal, hw, dist)
    ensures forall p :: p in pushed ==>
              p.box in neighbors && Improves(l, cur, l.entry[cur], p.box, dist) && p == EntryFor(l', p.box, goal, hw, dist)
    ensures forall nb :: nb in neighbors && Improves(l, cur, l.entry[cur], nb, dist) ==> exists p :: p in pushed && p.box == nb
    ensures DistinctBoxes(pushed)
  {
    var pSrc := l.entry[cur];
    assert neighbors[..|neighbors|] == neighbors;
    PushesSound(l, cur, pSrc, neighbors, goal, hw, dist);
    PushesComplete(l, cur, pSrc, neighbors, goal, hw, dist);
    PushesDistinct(l, cur, pSrc, neighbors, goal, hw, dist);
    forall p | p in pushed ensures p == EntryFor(l', p.box, goal, hw, dist) {
      assert Settled(l, l', cur, pSrc, p.box, dist);
    }
  }

  /**
   * `for child in adj[cur]`: relaxes every neighbour in turn from `cur`'s
   * entry point. Afterwards every neighbour is reached at no more than the
   * cost through `cur`, carries exactly the labels its relaxation gives
   * when that improves on `l`, the other boxes keep their labels, and the
   * pushed entries are `Pushes`: one per improving neighbour, at the
   * priority its final labels give, and nothing else.
   */
  method Expand(l: Labels, ghost stamp: map<Box, nat>, ghost clock: nat,
                ghost origin: Box, ghost p0: Point,
                cur: Box, neighbors: seq<Box>, goal: Point, hw: real, dist: Metric)
    returns (l': Labels, ghost stamp': map<Box, nat>, ghost clock': nat, pushed: seq<Push>)
    requires Valid(l, stamp, origin, p0) && IsDistance(dist) && cur in l.prev
    requires StampsBelow(stamp, clock)
    ensures Valid(l', stamp', origin, p0) && StampsBelow(stamp', clock')
    ensures FrameSince(l, l', neighbors)
    ensures PushedReached(pushed, neighbors, l')
    ensures forall nb :: nb in neighbors ==> nb in l'.prev && l'.cost[nb] <= NewCost(l, cur, l.entry[cur], nb, dist)
    ensures forall nb :: nb in neighbors ==> Settled(l, l', cur, l.entry[cur], nb, dist)
    ensures forall b :: b !in neighbors ==> Same(l, l', b)
    ensures pushed == Pushes(l, cur, l.entry[cur], neighbors, goal, hw, dist)
    ensures forall p :: p in pushed ==>
              p.box in neighbors && Improves(l, cur, l.entry[cur], p.box, dist) && p == EntryFor(l', p.box, goal, hw, dist)
    ensures forall nb :: nb in neighbors && Improves(l, cur, l.entry[cur], nb, dist) ==> exists p :: p in pushed && p.box == nb
    ensures DistinctBoxes(pushed)
  {
    l', stamp', clock', pushed := RelaxAll(l, stamp, clock, origin, p0, cur, neighbors, goal, hw, dist);
    ExpandInvDone(l, l', stamp', clock', origin, p0, cur, neighbors, goal, hw, dist, pushed);
  }

  /** The loop of `Expand`, up to its invariant over all neighbours. */
  method RelaxAll(l: Labels, ghost stamp: map<Box, nat>, ghost clock: nat,
                  ghost origin: Box, ghost p0: Point,
                  cur: Box, neighbors: seq<Box>, goal: Point, hw: real, dist: Metric)
    returns (l': Labels, ghost stamp': map<Box, nat>, ghost clock': nat, pushed: seq<Push>)
    requires Valid(l, stamp, origin, p0) && IsDistance(dist) && cur in l.prev
    requires StampsBelow(stamp, clock)
    ensures ExpandInv(l, l', stamp', clock', origin, p0, cur, l.entry[cur], neighbors, |neighbors|, goal, hw, dist, pushed)
  {
    var pSrc := l.entry[cur];
    l', stamp', clock', pushed := l, stamp, clock, [];
    var i := 0;
    while i < |neighbors|
      invariant ExpandInv(l, l', stamp', clock', origin, p0, cur, pSrc, neighbors, i, goal, hw, dist, pushed)
      decreases |neighbors| - i
    {
      var nb := neighbors[i];
      var relaxed := Relax(l', cur, pSrc, nb, dist);
      var pushed2 := pushed;
      ghost var stamp2, clock2 := stamp', clock';
      if relaxed.1 {
        pushed2 := pushed + [EntryFor(relaxed.0, nb, goal, hw, dist)];
        stamp2, clock2 := stamp'[nb := clock'], clock' + 1;
      }
      ExpandInvStep(l, l', stamp', clock', origin, p0, cur, pSrc, neighbors, i, goal, hw, dist,
                    pushed, relaxed, stamp2, clock2, pushed2);
      l', stamp', clock', pushed := relaxed.0, stamp2, clock2, pushed2;
      i := i + 1;
    }
  }
}
