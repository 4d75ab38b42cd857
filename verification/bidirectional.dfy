/**
 * `find_path` (P1/src/nm_pathfinder.py): a bidirectional search. One
 * frontier holds entries of both directions, each tagged with the point it
 * heads for: entries heading for the destination belong to the forward
 * search from the source's box, the others to the backward search from the
 * destination's box. The search stops when an entry pops a box the other
 * direction has already reached; the two halves are then rebuilt with
 * `construct_path` and stitched together.
 */
module Bidirectional {
  import opened Wrappers
  import opened Geometry
  import opened SearchState
  import opened Frontier
  import opened Expansion
  import opened Astar
  import opened Coverage
  import opened PathShape

  /** A frontier entry `(priority, box, goal)`. */
  datatype Tagged = Tagged(priority: real, box: Box, goal: Point)

  /** How the loop ended: the meeting box (None when the frontier ran empty), both label sets, the boxes popped. */
  datatype Meeting = Meeting(meet: Option<Box>, fwd: Labels, bwd: Labels, explored: set<Box>)

  /** The two entries the frontier starts with. */
  function Initial(srcBox: Box, dstBox: Box, source: Point, destination: Point): seq<Tagged> {
    [Tagged(0.0, srcBox, destination), Tagged(0.0, dstBox, source)]
  }

  /** An entry counts as forward exactly when its goal is the destination. */
  ghost predicate FrontierReached(frontier: seq<Tagged>, fwdKeys: set<Box>, bwdKeys: set<Box>,
                                  source: Point, destination: Point) {
    forall e :: e in frontier ==>
      if e.goal == destination then e.box in fwdKeys else e.goal == source && e.box in bwdKeys
  }

  /** Entries `(priority, box, goal)` for the pushes of one expansion. */
  function Tag(pushed: seq<Push>, goal: Point): (r: seq<Tagged>)
    ensures |r| == |pushed|
    ensures forall i :: 0 <= i < |r| ==> r[i] == Tagged(pushed[i].priority, pushed[i].box, goal)
  {
    if pushed == [] then [] else [Tagged(pushed[0].priority, pushed[0].box, goal)] + Tag(pushed[1..], goal)
  }

  /** Every new entry is tagged with `goal` and names a box the labels of its direction reach. */
  ghost predicate TaggedReached(tagged: seq<Tagged>, goal: Point, keys: set<Box>) {
    forall t :: t in tagged ==> t.goal == goal && t.box in keys
  }

  /**
   * One direction's expansion of `pBox` (lines 108-124 of `find_path`):
   * relax every neighbour and tag the resulting pushes with that direction's goal.
   */
  method Advance(l: Labels, ghost st: map<Box, nat>, ghost c: nat, ghost origin: Box, ghost p0: Point,
                 pBox: Box, mesh: Mesh, goal: Point, dist: Metric)
    returns (l': Labels, ghost st': map<Box, nat>, ghost c': nat, tagged: seq<Tagged>)
    requires Valid(l, st, origin, p0) && StampsBelow(st, c) && IsDistance(dist)
    requires Closed(mesh) && pBox in l.prev && l.prev.Keys <= mesh.adj.Keys
    ensures Valid(l', st', origin, p0) && StampsBelow(st', c')
    ensures l.prev.Keys <= l'.prev.Keys <= mesh.adj.Keys
    ensures TaggedReached(tagged, goal, l'.prev.Keys)
    ensures forall nb :: nb in mesh.adj[pBox] ==>
              nb in l'.prev && l'.cost[nb] <= NewCost(l, pBox, l.entry[pBox], nb, dist)
    ensures forall nb :: nb in mesh.adj[pBox] ==> Settled(l, l', pBox, l.entry[pBox], nb, dist)
    ensures forall b :: b !in mesh.adj[pBox] ==> Same(l, l', b)
    ensures tagged == Tag(Pushes(l, pBox, l.entry[pBox], mesh.adj[pBox], goal, 1.0, dist), goal)
    ensures forall nb :: nb in mesh.adj[pBox] && Improves(l, pBox, l.entry[pBox], nb, dist) ==>
              exists t :: t in tagged && t.box == nb
  {
    var pushed;
    l', st', c', pushed := Expand(l, st, c, origin, p0, pBox, mesh.adj[pBox], goal, 1.0, dist);
    tagged := Tag(pushed, goal);
    TagReached(l, l', pushed, tagged, goal, pBox, mesh, dist);
    forall b | b in l'.prev.Keys ensures b in mesh.adj.Keys {
      if b !in l.prev {
        var j :| 0 <= j < |mesh.adj[pBox]| && mesh.adj[pBox][j] == b;
      }
    }
  }

  /** Tagging keeps each push's box, so the tagged entries name reached boxes and cover every improvement. */
  lemma TagReached(l: Labels, l': Labels, pushed: seq<Push>, tagged: seq<Tagged>, goal: Point, pBox: Box,
                   mesh: Mesh, dist: Metric)
    requires WellKeyed(l) && pBox in l.prev && pBox in mesh.adj && tagged == Tag(pushed, goal)
    requires PushedReached(pushed, mesh.adj[pBox], l')
    requires forall nb :: nb in mesh.adj[pBox] && Improves(l, pBox, l.entry[pBox], nb, dist) ==>
               exists p :: p in pushed && p.box == nb
    ensures TaggedReached(tagged, goal, l'.prev.Keys)
    ensures forall nb :: nb in mesh.adj[pBox] && Improves(l, pBox, l.entry[pBox], nb, dist) ==>
              exists t :: t in tagged && t.box == nb
  {
    forall t | t in tagged ensures t.goal == goal && t.box in l'.prev.Keys {
      var i :| 0 <= i < |tagged| && tagged[i] == t;
      assert pushed[i] in pushed;
    }
    forall nb | nb in mesh.adj[pBox] && Improves(l, pBox, l.entry[pBox], nb, dist)
      ensures exists t :: t in tagged && t.box == nb
    {
      var p :| p in pushed && p.box == nb;
      var i :| 0 <= i < |pushed| && pushed[i] == p;
      assert tagged[i] in tagged && tagged[i].box == nb;
    }
  }

  lemma FrontierGrow(rest: seq<Tagged>, tagged: seq<Tagged>, goal: Point,
                     f: set<Box>, b: set<Box>, f': set<Box>, b': set<Box>, source: Point, destination: Point)
    requires FrontierReached(rest, f, b, source, destination)
    requires f <= f' && b <= b'
    requires goal == destination ==> TaggedReached(tagged, goal, f')
    requires goal != destination ==> goal == source && TaggedReached(tagged, goal, b')
    ensures FrontierReached(rest + tagged, f', b', source, destination)
  {
    forall e | e in rest + tagged
      ensures if e.goal == destination then e.box in f' else e.goal == source && e.box in b'
    {
      if e !in rest {
        assert e in tagged;
      }
    }
  }

  /** The loop's mutable state: both label sets, the shared frontier, the boxes popped so far. */
  datatype Sweep = Sweep(fwd: Labels, bwd: Labels, frontier: seq<Tagged>, explored: set<Box>)

  /** The loop invariant of `find_path`'s search, apart from the same-box case. */
  ghost predicate SweepInv(w: Sweep, fs: map<Box, nat>, fc: nat, bs: map<Box, nat>, bc: nat,
                           srcBox: Box, dstBox: Box, source: Point, destination: Point, mesh: Mesh) {
    && Valid(w.fwd, fs, srcBox, source) && StampsBelow(fs, fc)
    && Valid(w.bwd, bs, dstBox, destination) && StampsBelow(bs, bc)
    && w.fwd.prev.Keys <= mesh.adj.Keys && w.bwd.prev.Keys <= mesh.adj.Keys
    && FrontierReached(w.frontier, w.fwd.prev.Keys, w.bwd.prev.Keys, source, destination)
    && srcBox in w.explored
  }

  /** The state before the first pop. */
  function Begin(srcBox: Box, dstBox: Box, source: Point, destination: Point): Sweep {
    Sweep(Start(srcBox, source), Start(dstBox, destination), Initial(srcBox, dstBox, source, destination), {srcBox})
  }

  /** The forward search's pending boxes: those of the entries heading for the destination. */
  ghost function FwdBoxes(frontier: seq<Tagged>, destination: Point): set<Box> {
    set t | t in frontier && t.goal == destination :: t.box
  }

  /**
   * The forward search's cover (every box it reached is pending or was
   * expanded forwards with all its neighbours reached); the destination's
   * box is never expanded forwards, since the backward search starts there.
   */
  ghost predicate SweepCover(w: Sweep, doneF: set<Box>, dstBox: Box, destination: Point, mesh: Mesh) {
    Covered(w.fwd, FwdBoxes(w.frontier, destination), doneF, mesh) && dstBox !in doneF
  }

  /** On a navigable mesh, each direction's entry points lie in their boxes when its endpoint lies in its box. */
  ghost predicate SweepGeo(w: Sweep, srcBox: Box, dstBox: Box, source: Point, destination: Point, mesh: Mesh) {
    && (Navigable(mesh) && CheckInBox(source, srcBox) ==> GeoLabels(w.fwd, mesh))
    && (Navigable(mesh) && CheckInBox(destination, dstBox) ==> GeoLabels(w.bwd, mesh))
  }

  lemma BeginInv(srcBox: Box, dstBox: Box, source: Point, destination: Point, mesh: Mesh)
    requires srcBox in mesh.adj && dstBox in mesh.adj
    requires source == destination ==> srcBox == dstBox
    ensures SweepInv(Begin(srcBox, dstBox, source, destination), map[srcBox := 0], 1, map[dstBox := 0], 1,
                     srcBox, dstBox, source, destination, mesh)
  {
    StartValid(srcBox, source);
    StartValid(dstBox, destination);
    var w := Begin(srcBox, dstBox, source, destination);
    forall e | e in w.frontier
      ensures if e.goal == destination then e.box in w.fwd.prev.Keys
              else e.goal == source && e.box in w.bwd.prev.Keys
    {
      assert e == w.frontier[0] || e == w.frontier[1];
    }
  }

  lemma BeginCover(srcBox: Box, dstBox: Box, source: Point, destination: Point, mesh: Mesh)
    ensures SweepCover(Begin(srcBox, dstBox, source, destination), {}, dstBox, destination, mesh)
  {
    var w := Begin(srcBox, dstBox, source, destination);
    assert w.frontier[0] in w.frontier;
    assert srcBox in FwdBoxes(w.frontier, destination);
  }

  lemma BeginGeo(srcBox: Box, dstBox: Box, source: Point, destination: Point, mesh: Mesh)
    requires srcBox in mesh.adj && dstBox in mesh.adj
    ensures SweepGeo(Begin(srcBox, dstBox, source, destination), srcBox, dstBox, source, destination, mesh)
  {
    if Navigable(mesh) && CheckInBox(source, srcBox) {
      StartGeo(srcBox, source, mesh);
    }
    if Navigable(mesh) && CheckInBox(destination, dstBox) {
      StartGeo(dstBox, destination, mesh);
    }
  }

  /**
   * A forward pop and expansion of `e.box` keeps the forward cover: the
   * box is done with its neighbours reached, and every box the forward
   * labels newly reach has a new forward entry.
   */
  lemma CoverForward(w: Sweep, w': Sweep, e: Tagged, rest: seq<Tagged>, tagged: seq<Tagged>, doneF: set<Box>,
                     dstBox: Box, destination: Point, mesh: Mesh, dist: Metric)
    requires SweepCover(w, doneF, dstBox, destination, mesh) && e.goal == destination && e.box != dstBox
    requires multiset(rest) + multiset{e} == multiset(w.frontier) && w'.frontier == rest + tagged
    requires WellKeyed(w.fwd) && WellKeyed(w'.fwd) && e.box in w.fwd.prev && e.box in mesh.adj
    requires w.fwd.prev.Keys <= w'.fwd.prev.Keys
    requires forall nb :: nb in mesh.adj[e.box] ==> nb in w'.fwd.prev
    requires forall b :: b !in mesh.adj[e.box] ==> Same(w.fwd, w'.fwd, b)
    requires forall nb :: nb in mesh.adj[e.box] && Improves(w.fwd, e.box, w.fwd.entry[e.box], nb, dist) ==>
               exists t :: t in tagged && t.box == nb
    requires TaggedReached(tagged, destination, w'.fwd.prev.Keys)
    ensures SweepCover(w', doneF + {e.box}, dstBox, destination, mesh)
  {
    var before, after := FwdBoxes(w.frontier, destination), FwdBoxes(w'.frontier, destination);
    forall t | t in w.frontier && t.goal == destination ensures t.box in FwdBoxes(rest, destination) + {e.box} {
      assert t in multiset(w.frontier);
    }
    forall x | x in w'.fwd.prev && x !in w.fwd.prev ensures x in FwdBoxes(tagged, destination) {
      if x in mesh.adj[e.box] {
        assert Improves(w.fwd, e.box, w.fwd.entry[e.box], x, dist);
        var t :| t in tagged && t.box == x;
      } else {
        assert false;
      }
    }
    assert FwdBoxes(w'.frontier, destination) == FwdBoxes(rest, destination) + FwdBoxes(tagged, destination) by {
      assert forall t :: t in rest + tagged <==> t in rest || t in tagged;
    }
    CoveredStep(w.fwd, w'.fwd, before, FwdBoxes(rest, destination), FwdBoxes(tagged, destination),
                doneF, mesh, e.box);
  }

  /** A backward pop and expansion leaves the forward labels and the forward entries alone. */
  lemma CoverBackward(w: Sweep, w': Sweep, e: Tagged, rest: seq<Tagged>, tagged: seq<Tagged>, doneF: set<Box>,
                      dstBox: Box, destination: Point, mesh: Mesh, keys: set<Box>)
    requires SweepCover(w, doneF, dstBox, destination, mesh) && e.goal != destination
    requires multiset(rest) + multiset{e} == multiset(w.frontier) && w'.frontier == rest + tagged
    requires w'.fwd == w.fwd && TaggedReached(tagged, e.goal, keys)
    ensures SweepCover(w', doneF, dstBox, destination, mesh)
  {
    forall t | t in w.frontier && t.goal == destination ensures t in rest {
      assert t in multiset(w.frontier);
    }
    assert FwdBoxes(w.frontier, destination) <= FwdBoxes(w'.frontier, destination);
  }

  /**
   * The expansion half of one iteration: `e` was popped and names a box
   * the other direction has not reached, so its own direction expands it.
   */
  method Turn(w: Sweep, ghost fs: map<Box, nat>, ghost fc: nat, ghost bs: map<Box, nat>, ghost bc: nat,
              ghost doneF: set<Box>, e: Tagged, rest: seq<Tagged>,
              srcBox: Box, dstBox: Box, source: Point, destination: Point, mesh: Mesh, dist: Metric)
    returns (w': Sweep, ghost fs': map<Box, nat>, ghost fc': nat, ghost bs': map<Box, nat>, ghost bc': nat,
             ghost doneF': set<Box>)
    requires Closed(mesh) && IsDistance(dist)
    requires SweepInv(w, fs, fc, bs, bc, srcBox, dstBox, source, destination, mesh)
    requires SweepCover(w, doneF, dstBox, destination, mesh)
    requires SweepGeo(w, srcBox, dstBox, source, destination, mesh)
    requires e in w.frontier && multiset(rest) + multiset{e} == multiset(w.frontier)
    requires forall x :: x in rest ==> x in w.frontier
    requires if e.goal == destination then e.box in w.fwd.prev && e.box !in w.bwd.prev
             else e.goal == source && e.box in w.bwd.prev && e.box !in w.fwd.prev
    ensures SweepInv(w', fs', fc', bs', bc', srcBox, dstBox, source, destination, mesh)
    ensures SweepCover(w', doneF', dstBox, destination, mesh)
    ensures SweepGeo(w', srcBox, dstBox, source, destination, mesh)
    ensures w'.explored == w.explored + {e.box}
    ensures e.goal == destination ==> w'.bwd == w.bwd && forall nb :: nb in mesh.adj[e.box] ==> nb in w'.fwd.prev
    ensures e.goal != destination ==> w'.fwd == w.fwd && forall nb :: nb in mesh.adj[e.box] ==> nb in w'.bwd.prev
  {
    var pBox := e.box;
    var explored := w.explored + {pBox};
    var fwd, bwd, tagged;
    fs', fc', bs', bc' := fs, fc, bs, bc;
    if e.goal == destination {
      fwd, fs', fc', tagged := Advance(w.fwd, fs, fc, srcBox, source, pBox, mesh, e.goal, dist);
      bwd := w.bwd;
      w' := Sweep(fwd, bwd, rest + tagged, explored);
      CoverForward(w, w', e, rest, tagged, doneF, dstBox, destination, mesh, dist);
      doneF' := doneF + {pBox};
      if Navigable(mesh) && CheckInBox(source, srcBox) {
        ExpandGeo(w.fwd, fwd, pBox, mesh, dist);
      }
    } else {
      bwd, bs', bc', tagged := Advance(w.bwd, bs, bc, dstBox, destination, pBox, mesh, e.goal, dist);
      fwd := w.fwd;
      w' := Sweep(fwd, bwd, rest + tagged, explored);
      CoverBackward(w, w', e, rest, tagged, doneF, dstBox, destination, mesh, bwd.prev.Keys);
      doneF' := doneF;
      if Navigable(mesh) && CheckInBox(destination, dstBox) {
        ExpandGeo(w.bwd, bwd, pBox, mesh, dist);
      }
    }
    FrontierGrow(rest, tagged, e.goal, w.fwd.prev.Keys, w.bwd.prev.Keys, fwd.prev.Keys, bwd.prev.Keys,
                 source, destination);
  }

  /**
   * One iteration of the loop (lines 71-124): pop a least-priority entry
   * `popped`, stop at its box exactly when the other direction has reached
   * it, else expand it in its own direction.
   */
  method Step(w: Sweep, ghost fs: map<Box, nat>, ghost fc: nat, ghost bs: map<Box, nat>, ghost bc: nat,
              ghost doneF: set<Box>,
              srcBox: Box, dstBox: Box, source: Point, destination: Point, mesh: Mesh, dist: Metric)
    returns (meet: Option<Box>, popped: Tagged, w': Sweep,
             ghost fs': map<Box, nat>, ghost fc': nat, ghost bs': map<Box, nat>, ghost bc': nat,
             ghost doneF': set<Box>)
    requires Closed(mesh) && IsDistance(dist) && w.frontier != []
    requires SweepInv(w, fs, fc, bs, bc, srcBox, dstBox, source, destination, mesh)
    requires SweepCover(w, doneF, dstBox, destination, mesh)
    requires SweepGeo(w, srcBox, dstBox, source, destination, mesh)
    requires source == destination ==> srcBox == dstBox
    requires srcBox == dstBox ==> w == Begin(srcBox, dstBox, source, destination)
    ensures SweepInv(w', fs', fc', bs', bc', srcBox, dstBox, source, destination, mesh)
    ensures SweepGeo(w', srcBox, dstBox, source, destination, mesh)
    ensures meet.None? ==> SweepCover(w', doneF', dstBox, destination, mesh)
    ensures popped in w.frontier && forall x :: x in w.frontier ==> popped.priority <= x.priority
    ensures w'.explored == w.explored + {popped.box} && popped.box in mesh.adj
    ensures meet.Some? <==> (popped.goal == destination && popped.box in w.bwd.prev) ||
                            (popped.goal == source && popped.box in w.fwd.prev)
    ensures meet.Some? ==> meet.value == popped.box && w'.fwd == w.fwd && w'.bwd == w.bwd
    ensures meet.Some? ==> meet.value in w'.fwd.prev && meet.value in w'.bwd.prev
    ensures meet.None? && popped.goal == destination ==>
              w'.bwd == w.bwd && forall nb :: nb in mesh.adj[popped.box] ==> nb in w'.fwd.prev
    ensures meet.None? && popped.goal != destination ==>
              w'.fwd == w.fwd && forall nb :: nb in mesh.adj[popped.box] ==> nb in w'.bwd.prev
    ensures srcBox == dstBox ==> meet == Some(srcBox) && w' == w.(frontier := w'.frontier)
  {
    var e, rest := Pop(w.frontier, (e: Tagged) => e.priority);
    popped := e;
    var pBox := e.box;
    assert if e.goal == destination then pBox in w.fwd.prev else e.goal == source && pBox in w.bwd.prev;
    assert pBox in mesh.adj;
    if (e.goal == destination && pBox in w.bwd.prev) || (e.goal == source && pBox in w.fwd.prev) {
      if srcBox == dstBox {
        assert pBox == srcBox && srcBox in w.explored;
        AddPresent(w.explored, pBox);
      }
      return Some(pBox), popped, w.(frontier := rest, explored := w.explored + {pBox}), fs, fc, bs, bc, doneF;
    }
    meet := None;
    w', fs', fc', bs', bc', doneF' := Turn(w, fs, fc, bs, bc, doneF, e, rest,
                                         srcBox, dstBox, source, destination, mesh, dist);
  }

  /**
   * The `while (frontier)` loop of `find_path`. The heuristic is the
   * distance to the entry's goal (weight 1). `fuel` bounds the number of pops.
   */
  method Search(srcBox: Box, dstBox: Box, source: Point, destination: Point,
                mesh: Mesh, dist: Metric, fuel: nat)
    returns (r: Result<Meeting>, ghost fs: map<Box, nat>, ghost bs: map<Box, nat>)
    requires Closed(mesh) && IsDistance(dist) && srcBox in mesh.adj && dstBox in mesh.adj
    requires source == destination ==> srcBox == dstBox
    ensures r.Ok? ==> Valid(r.value.fwd, fs, srcBox, source) && Valid(r.value.bwd, bs, dstBox, destination)
    ensures r.Ok? && r.value.meet.Some? ==>
              r.value.meet.value in r.value.fwd.prev && r.value.meet.value in r.value.bwd.prev
    ensures r.Ok? ==> srcBox in r.value.explored
    ensures r.Ok? && r.value.meet.None? ==> srcBox != dstBox && !Reachable(mesh, srcBox, dstBox)
    ensures r.Ok? && Navigable(mesh) && CheckInBox(source, srcBox) ==> GeoLabels(r.value.fwd, mesh)
    ensures r.Ok? && Navigable(mesh) && CheckInBox(destination, dstBox) ==> GeoLabels(r.value.bwd, mesh)
    ensures r.Err? ==> r.error == OutOfFuel
    ensures fuel == 0 ==> r == Err(OutOfFuel)
    ensures srcBox == dstBox && fuel > 0 ==>
              r == Ok(Meeting(Some(srcBox), Start(srcBox, source), Start(dstBox, destination), {srcBox}))
  {
    var w := Begin(srcBox, dstBox, source, destination);
    fs, bs := map[srcBox := 0], map[dstBox := 0];
    ghost var fc: nat, bc: nat := 1, 1;
    ghost var doneF: set<Box> := {};
    BeginInv(srcBox, dstBox, source, destination, mesh);
    BeginCover(srcBox, dstBox, source, destination, mesh);
    BeginGeo(srcBox, dstBox, source, destination, mesh);
    var steps := 0;
    while w.frontier != [] && steps < fuel
      invariant SweepInv(w, fs, fc, bs, bc, srcBox, dstBox, source, destination, mesh)
      invariant SweepCover(w, doneF, dstBox, destination, mesh)
      invariant SweepGeo(w, srcBox, dstBox, source, destination, mesh)
      invariant srcBox == dstBox ==> steps == 0 && w == Begin(srcBox, dstBox, source, destination)
      invariant steps <= fuel && (steps == 0 ==> w.frontier != [])
      decreases fuel - steps
    {
      var meet, popped;
      meet, popped, w, fs, fc, bs, bc, doneF := Step(w, fs, fc, bs, bc, doneF, srcBox, dstBox, source, destination, mesh, dist);
      steps := steps + 1;
      if meet.Some? {
        return Ok(Meeting(meet, w.fwd, w.bwd, w.explored)), fs, bs;
      }
    }
    if w.frontier != [] {
      return Err(OutOfFuel), fs, bs;
    }
    SweepDrained(w, fs, fc, bs, bc, doneF, srcBox, dstBox, source, destination, mesh);
    return Ok(Meeting(None, w.fwd, w.bwd, w.explored)), fs, bs;
  }

  /** With the frontier exhausted, the forward labels are closed under adjacency and miss the destination's box. */
  lemma SweepDrained(w: Sweep, fs: map<Box, nat>, fc: nat, bs: map<Box, nat>, bc: nat, doneF: set<Box>,
                     srcBox: Box, dstBox: Box, source: Point, destination: Point, mesh: Mesh)
    requires w.frontier == []
    requires SweepInv(w, fs, fc, bs, bc, srcBox, dstBox, source, destination, mesh)
    requires SweepCover(w, doneF, dstBox, destination, mesh)
    ensures !Reachable(mesh, srcBox, dstBox) && srcBox != dstBox
  {
    assert FwdBoxes([], destination) == {};
    assert Valid(w.fwd, fs, srcBox, source);
    Drained(w.fwd, doneF, mesh, srcBox, dstBox);
    ReachableSelf(mesh, srcBox);
  }

  // ---------------------------------------------------------------------
  // Stitching the two halves
  // ---------------------------------------------------------------------

  /** `f_path + b_path`, dropping `f_path`'s last point when it repeats `b_path`'s first. */
  function Stitch(f: seq<Point>, b: seq<Point>): (r: seq<Point>)
    ensures |f| > 0 ==> |r| > 0 && r[0] == f[0]
    ensures |b| > 0 ==> |r| > 0 && r[|r| - 1] == b[|b| - 1]
    ensures |f| == 0 ==> r == b
    ensures |b| == 0 ==> r == f
    ensures NoAdjacentDup(f) && NoAdjacentDup(b) ==> NoAdjacentDup(r)
    ensures forall x :: x in r ==> x in f || x in b
  {
    if |f| > 0 && |b| > 0 && f[|f| - 1] == b[0] then
      assert |f| > 1 ==> f[|f| - 2] != b[0] || !NoAdjacentDup(f);
      f[..|f| - 1] + b
    else f + b
  }

  /**
   * Lines 143-160 as written: rebuild both halves through the meeting box
   * `m`, stitch them, then check the three asserts. An empty path fails on
   * `path[0]` with an IndexError.
   */
  function AssembleAsWritten(m: Box, srcBox: Box, dstBox: Box, fwd: Labels, bwd: Labels,
                             source: Point, destination: Point): (r: Result<seq<Point>>)
    ensures r.Ok? ==> |r.value| > 0 && r.value[0] == source && r.value[|r.value| - 1] == destination
    ensures r.Ok? ==> AllDistinct(r.value)
  {
    var f := ConstructPath(m, srcBox, fwd.prev, fwd.entry, None, true);
    var b := ConstructPath(m, dstBox, bwd.prev, bwd.entry, None, false);
    if f.Err? then Err(f.error)
    else if b.Err? then Err(b.error)
    else
      CheckedAsWritten(Stitch(f.value, b.value), source, destination)
  }

  /** The failures of the stitched path's checks: `path[0]` on an empty path, or the asserts at lines 152, 153 and 160. */
  predicate StitchError(e: Failure) {
    e == IndexOutOfRange || e == AssertionFailed(152) || e == AssertionFailed(153) || e == AssertionFailed(160)
  }

  /** The asserts at lines 152, 153 and 160, in that order, on the stitched path. */
  function CheckedAsWritten(path: seq<Point>, source: Point, destination: Point): (r: Result<seq<Point>>)
    ensures r.Ok? <==> |path| > 0 && path[0] == source && path[|path| - 1] == destination && AllDistinct(path)
    ensures r.Ok? ==> r.value == path
    ensures r.Err? ==> StitchError(r.error)
    ensures |path| == 0 ==> r == Err(IndexOutOfRange)
  {
    if |path| == 0 then Err(IndexOutOfRange)
    else if path[0] != source then Err(AssertionFailed(152))
    else if path[|path| - 1] != destination then Err(AssertionFailed(153))
    else if !AllDistinct(path) then Err(AssertionFailed(160))
    else Ok(path)
  }

  /**
   * One half of the stitching as evidently intended: when the meeting box
   * `m` is the half's own start box, the half is that endpoint itself
   * rather than the empty list `construct_path` returns for it.
   */
  function CorrectedHalf(m: Box, origin: Box, l: Labels, p: Point, reverse: bool): Result<seq<Point>> {
    if m == origin then Ok([p]) else ConstructPath(m, origin, l.prev, l.entry, None, reverse)
  }

  /** A corrected half of a valid search is a non-empty path that ends at its endpoint. */
  lemma CorrectedHalfSound(m: Box, origin: Box, l: Labels, stamp: map<Box, nat>, p: Point, reverse: bool)
    requires Valid(l, stamp, origin, p) && m in l.prev
    ensures var h := CorrectedHalf(m, origin, l, p, reverse);
            && h.Ok? && |h.value| > 0 && NoAdjacentDup(h.value)
            && (if reverse then h.value[0] else h.value[|h.value| - 1]) == p
  {
    if m != origin {
      ConstructPathSucceeds(l, stamp, origin, p, m, None, reverse);
    }
  }

  /** The stitching as evidently intended, built from the two corrected halves. */
  function AssembleCorrected(m: Box, srcBox: Box, dstBox: Box, fwd: Labels, bwd: Labels,
                             source: Point, destination: Point): (r: Result<seq<Point>>)
    ensures r.Ok? ==> AllDistinct(r.value)
  {
    var f := CorrectedHalf(m, srcBox, fwd, source, true);
    var b := CorrectedHalf(m, dstBox, bwd, destination, false);
    if f.Err? then Err(f.error)
    else if b.Err? then Err(b.error)
    else
      var path := Stitch(f.value, b.value);
      if !AllDistinct(path) then Err(AssertionFailed(160)) else Ok(path)
  }

  /** Two paths whose facing ends lie in one box of the mesh stitch into a path whose every leg lies in one box. */
  lemma StitchSegments(f: seq<Point>, b: seq<Point>, m: Box, mesh: Mesh)
    requires |f| > 0 && |b| > 0 && Segments(f, mesh) && Segments(b, mesh)
    requires m in mesh.adj && CheckInBox(f[|f| - 1], m) && CheckInBox(b[0], m)
    ensures Segments(Stitch(f, b), mesh)
  {
    var r := Stitch(f, b);
    var k := if f[|f| - 1] == b[0] then |f| - 1 else |f|;
    assert r == f[..k] + b;
    forall i | 0 < i < |r| ensures InOneBox(r[i - 1], r[i], mesh) {
      if i < k {
        assert r[i - 1] == f[i - 1] && r[i] == f[i];
      } else if i == k && k < |f| {
        assert r[i - 1] == f[i - 1] && r[i] == f[i];
      } else if i == k {
        assert r[i - 1] == f[|f| - 1] && r[i] == b[0];
      } else {
        assert r[i - 1] == b[i - 1 - k] && r[i] == b[i - k];
      }
    }
  }

  /**
   * On labels whose entry points lie in their boxes, a corrected half runs
   * leg by leg through the mesh, and its end at the meeting box `m` lies in
   * `m`.
   */
  lemma CorrectedHalfSegments(m: Box, origin: Box, l: Labels, stamp: map<Box, nat>, p: Point, reverse: bool,
                              mesh: Mesh)
    requires Valid(l, stamp, origin, p) && m in l.prev && GeoLabels(l, mesh) && CheckInBox(p, origin)
    ensures var h := CorrectedHalf(m, origin, l, p, reverse);
            && h.Ok? && |h.value| > 0 && Segments(h.value, mesh)
            && CheckInBox(if reverse then h.value[|h.value| - 1] else h.value[0], m)
  {
    if m != origin {
      ConstructPathSucceeds(l, stamp, origin, p, m, None, reverse);
      ConstructPathSegments(l, mesh, m, origin, None, reverse);
    }
  }

  /** With both searches' entry points in their boxes, the corrected stitching runs leg by leg through the mesh. */
  lemma AssembleCorrectedSegments(m: Box, srcBox: Box, dstBox: Box, fwd: Labels, bwd: Labels,
                                  fs: map<Box, nat>, bs: map<Box, nat>, source: Point, destination: Point,
                                  mesh: Mesh)
    requires Valid(fwd, fs, srcBox, source) && Valid(bwd, bs, dstBox, destination)
    requires m in fwd.prev && m in bwd.prev && GeoLabels(fwd, mesh) && GeoLabels(bwd, mesh)
    requires CheckInBox(source, srcBox) && CheckInBox(destination, dstBox)
    ensures var r := AssembleCorrected(m, srcBox, dstBox, fwd, bwd, source, destination);
            r.Ok? ==> Segments(r.value, mesh)
  {
    CorrectedHalfSegments(m, srcBox, fwd, fs, source, true, mesh);
    CorrectedHalfSegments(m, dstBox, bwd, bs, destination, false, mesh);
    var f := CorrectedHalf(m, srcBox, fwd, source, true).value;
    var b := CorrectedHalf(m, dstBox, bwd, destination, false).value;
    StitchSegments(f, b, m, mesh);
  }

  /** As written, a search that meets in one box shared by both endpoints stitches two empty halves. */
  lemma AsWrittenSameBoxFails(b: Box, fwd: Labels, bwd: Labels, source: Point, destination: Point)
    ensures AssembleAsWritten(b, b, b, fwd, bwd, source, destination) == Err(IndexOutOfRange)
  {
  }

  /** In a valid search state, the as-written stitching fails only on its own asserts. */
  lemma AsWrittenFailures(m: Box, srcBox: Box, dstBox: Box, fwd: Labels, bwd: Labels,
                          fs: map<Box, nat>, bs: map<Box, nat>, source: Point, destination: Point)
    requires Valid(fwd, fs, srcBox, source) && Valid(bwd, bs, dstBox, destination)
    requires m in fwd.prev && m in bwd.prev
    ensures var r := AssembleAsWritten(m, srcBox, dstBox, fwd, bwd, source, destination);
            r.Err? ==> StitchError(r.error)
  {
    ConstructPathSucceeds(fwd, fs, srcBox, source, m, None, true);
    ConstructPathSucceeds(bwd, bs, dstBox, destination, m, None, false);
    var f := ConstructPath(m, srcBox, fwd.prev, fwd.entry, None, true).value;
    var b := ConstructPath(m, dstBox, bwd.prev, bwd.entry, None, false).value;
    assert AssembleAsWritten(m, srcBox, dstBox, fwd, bwd, source, destination) ==
           CheckedAsWritten(Stitch(f, b), source, destination);
  }

  /**
   * As written, meeting in the source's own box makes the path start at
   * the backward half's entry point into that box; meeting in the
   * destination's box makes it end at the forward half's entry point.
   */
  lemma AsWrittenEndBoxes(m: Box, srcBox: Box, dstBox: Box, fwd: Labels, bwd: Labels,
                          source: Point, destination: Point)
    requires srcBox != dstBox && (m == srcBox || m == dstBox)
    requires AssembleAsWritten(m, srcBox, dstBox, fwd, bwd, source, destination).Ok?
    ensures m == srcBox ==> m in bwd.entry && bwd.entry[m] == source
    ensures m == dstBox ==> m in fwd.entry && fwd.entry[m] == destination
  {
  }

  /** The corrected stitching always yields a path from source to destination. */
  lemma AssembleCorrectedSound(m: Box, srcBox: Box, dstBox: Box, fwd: Labels, bwd: Labels,
                              fs: map<Box, nat>, bs: map<Box, nat>,
                              source: Point, destination: Point)
    requires Valid(fwd, fs, srcBox, source) && Valid(bwd, bs, dstBox, destination)
    requires m in fwd.prev && m in bwd.prev
    ensures var r := AssembleCorrected(m, srcBox, dstBox, fwd, bwd, source, destination);
            && (r.Ok? || r == Err(AssertionFailed(160)))
            && (r.Ok? ==> |r.value| > 0 && r.value[0] == source && r.value[|r.value| - 1] == destination)
            && (r.Ok? ==> NoAdjacentDup(r.value))
  {
    CorrectedHalfSound(m, srcBox, fwd, fs, source, true);
    CorrectedHalfSound(m, dstBox, bwd, bs, destination, false);
    var f := CorrectedHalf(m, srcBox, fwd, source, true).value;
    var b := CorrectedHalf(m, dstBox, bwd, destination, false).value;
    var path := Stitch(f, b);
    assert path[0] == source && path[|path| - 1] == destination && NoAdjacentDup(path);
    assert AssembleCorrected(m, srcBox, dstBox, fwd, bwd, source, destination) ==
           if AllDistinct(path) then Ok(path) else Err(AssertionFailed(160));
  }

  /** With the correction, a search that meets in the one box both endpoints share yields the endpoints. */
  lemma AssembleCorrectedSameBox(b: Box, fwd: Labels, bwd: Labels, source: Point, destination: Point)
    ensures AssembleCorrected(b, b, b, fwd, bwd, source, destination) == Ok(SameBoxPath(source, destination))
  {
    assert Stitch([source], [destination]) == SameBoxPath(source, destination);
  }

  // Two boxes side by side, source (2, 2) in the left one, destination
  // (18, 2) in the right one. If the forward entry is popped first it
  // reaches the right box, entering it at (10, 2); the backward entry is
  // popped next and meets it there, in the destination's own box.

  const LeftBox := Box(0, 10, 0, 10)
  const RightBox := Box(10, 20, 0, 10)
  const TwoBoxSource := Point(2, 2)
  const TwoBoxDestination := Point(18, 2)

  /** The crossing from the source into the right box is (10, 2). */
  lemma TwoBoxCrossing()
    ensures FindNextPoint(TwoBoxSource, LeftBox, RightBox) == Point(10, 2)
  {
  }

  /**
   * The forward labels at the meeting: the right box reached from the left
   * one, entered at the crossing (its cost is immaterial).
   */
  function TwoBoxForward(): Labels {
    Labels(map[LeftBox := 0.0, RightBox := 8.0], map[LeftBox := None, RightBox := Some(LeftBox)],
           map[LeftBox := TwoBoxSource, RightBox := Point(10, 2)])
  }

  /** The forward half runs from the source to the crossing point. */
  lemma TwoBoxForwardHalf()
    ensures ConstructPath(RightBox, LeftBox, TwoBoxForward().prev, TwoBoxForward().entry, None, true)
            == Ok([TwoBoxSource, Point(10, 2)])
  {
    TwoBoxLabels();
    TwoBoxFinish();
  }

  lemma TwoBoxLabels()
    ensures var fwd := TwoBoxForward();
            && RightBox != LeftBox && RightBox in fwd.entry && RightBox in fwd.prev
            && fwd.entry[RightBox] == Point(10, 2) && fwd.prev[RightBox] == Some(LeftBox)
            && Walk([Point(10, 2)], LeftBox, LeftBox, fwd.prev, fwd.entry, |fwd.prev|) == Ok([Point(10, 2)])
  {
  }

  lemma TwoBoxFinish()
    ensures Finish([Point(10, 2)], LeftBox, TwoBoxForward().entry, true) == Ok([TwoBoxSource, Point(10, 2)])
  {
    assert Reverse([Point(10, 2), TwoBoxSource]) == [TwoBoxSource, Point(10, 2)];
  }

  /** As written the backward half is empty, so the path ends at (10, 2) and the assert at line 153 fails. */
  lemma TwoBoxAsWritten()
    ensures AssembleAsWritten(RightBox, LeftBox, RightBox, TwoBoxForward(), Start(RightBox, TwoBoxDestination),
                              TwoBoxSource, TwoBoxDestination) == Err(AssertionFailed(153))
  {
    TwoBoxForwardHalf();
    var bwd := Start(RightBox, TwoBoxDestination);
    assert ConstructPath(RightBox, RightBox, bwd.prev, bwd.entry, None, false) == Ok([]);
    assert Stitch([TwoBoxSource, Point(10, 2)], []) == [TwoBoxSource, Point(10, 2)];
  }

  /** The corrected stitching gives source, crossing point, destination. */
  lemma TwoBoxCorrected()
    ensures AssembleCorrected(RightBox, LeftBox, RightBox, TwoBoxForward(), Start(RightBox, TwoBoxDestination),
                              TwoBoxSource, TwoBoxDestination)
            == Ok([TwoBoxSource, Point(10, 2), TwoBoxDestination])
  {
    TwoBoxForwardHalf();
    TwoBoxStitch();
  }

  lemma TwoBoxStitch()
    ensures var path := [TwoBoxSource, Point(10, 2), TwoBoxDestination];
            Stitch([TwoBoxSource, Point(10, 2)], [TwoBoxDestination]) == path && AllDistinct(path)
  {
  }

  // ---------------------------------------------------------------------
  // find_path from line 42 on
  // ---------------------------------------------------------------------

  /** `find_path` as written from line 42 on, once both endpoints have been located. */
  method BoxesAsWritten(srcBox: Box, dstBox: Box, source: Point, destination: Point,
                        mesh: Mesh, dist: Metric, fuel: nat)
    returns (r: Result<Found>)
    requires Closed(mesh) && IsDistance(dist) && srcBox in mesh.adj && dstBox in mesh.adj
    requires source == destination ==> srcBox == dstBox
    ensures fuel > 0 && srcBox == dstBox ==> r == Err(IndexOutOfRange)
    ensures r.Ok? ==> |r.value.path| > 0 && r.value.path[0] == source
                      && r.value.path[|r.value.path| - 1] == destination
                      && AllDistinct(r.value.path) && srcBox in r.value.explored
    ensures r.Err? ==> StitchError(r.error) || r.error == AssertionFailed(366) || r.error == OutOfFuel
    ensures r.Ok? && Reachable(mesh, srcBox, dstBox) && Navigable(mesh) &&
            CheckInBox(source, srcBox) && CheckInBox(destination, dstBox) ==>
              Segments(r.value.path, mesh)
  {
    var res, fs, bs := Search(srcBox, dstBox, source, destination, mesh, dist, fuel);
    match res
    case Err(e) =>
      r := Err(e);
    case Ok(meeting) =>
      if meeting.meet.None? {
        r := Ok(Found([source, destination], meeting.explored));
      } else {
        r := MeetAsWritten(meeting, fs, bs, srcBox, dstBox, source, destination, mesh, dist, fuel);
      }
  }

  /**
   * Lines 143-177 as written, once the searches have met: stitch the two
   * halves, check the asserts, then replace the path by the one
   * `astar_find_path` finds; the explored boxes stay the bidirectional
   * search's.
   */
  method MeetAsWritten(meeting: Meeting, ghost fs: map<Box, nat>, ghost bs: map<Box, nat>,
                       srcBox: Box, dstBox: Box, source: Point, destination: Point,
                       mesh: Mesh, dist: Metric, fuel: nat)
    returns (r: Result<Found>)
    requires Closed(mesh) && IsDistance(dist) && srcBox in mesh.adj
    requires Valid(meeting.fwd, fs, srcBox, source) && Valid(meeting.bwd, bs, dstBox, destination)
    requires meeting.meet.Some? && meeting.meet.value in meeting.fwd.prev && meeting.meet.value in meeting.bwd.prev
    requires srcBox == dstBox ==> meeting.meet == Some(srcBox)
    ensures srcBox == dstBox ==> r == Err(IndexOutOfRange)
    ensures r.Ok? ==> |r.value.path| > 0 && r.value.path[0] == source
                      && r.value.path[|r.value.path| - 1] == destination
                      && AllDistinct(r.value.path) && r.value.explored == meeting.explored
    ensures r.Err? ==> StitchError(r.error) || r.error == AssertionFailed(366) || r.error == OutOfFuel
    ensures r.Ok? && Reachable(mesh, srcBox, dstBox) && Navigable(mesh) &&
            CheckInBox(source, srcBox) && CheckInBox(destination, dstBox) ==>
              Segments(r.value.path, mesh)
  {
    var m := meeting.meet.value;
    var path := AssembleAsWritten(m, srcBox, dstBox, meeting.fwd, meeting.bwd, source, destination);
    if path.Err? {
      AsWrittenFailures(m, srcBox, dstBox, meeting.fwd, meeting.bwd, fs, bs, source, destination);
      if srcBox == dstBox {
        AsWrittenSameBoxFails(m, meeting.fwd, meeting.bwd, source, destination);
      }
      return Err(path.error);
    } else if srcBox == dstBox {
      AsWrittenSameBoxFails(m, meeting.fwd, meeting.bwd, source, destination);
      assert false;
    }
    // Lines 162-177: the stitched path that passed its asserts is replaced
    // by the path `astar_find_path` finds.
    var check := AstarBoxes(srcBox, dstBox, source, destination, mesh, dist, fuel);
    if check.Err? {
      return Err(check.error);
    }
    return Ok(Found(check.value.path, meeting.explored));
  }

  /** `find_path` from line 42 on with the corrected stitching. */
  method BoxesCorrected(srcBox: Box, dstBox: Box, source: Point, destination: Point,
                        mesh: Mesh, dist: Metric, fuel: nat)
    returns (r: Result<Found>)
    requires Closed(mesh) && IsDistance(dist) && srcBox in mesh.adj && dstBox in mesh.adj
    requires source == destination ==> srcBox == dstBox
    ensures r.Ok? ==>
              && |r.value.path| > 0
              && r.value.path[0] == source
              && r.value.path[|r.value.path| - 1] == destination
              && NoAdjacentDup(r.value.path)
              && AllDistinct(r.value.path)
              && srcBox in r.value.explored
    ensures r.Err? ==> r.error == AssertionFailed(160) || r.error == OutOfFuel
    ensures fuel > 0 && srcBox == dstBox ==> r == Ok(Found(SameBoxPath(source, destination), {srcBox}))
    ensures r.Ok? && Reachable(mesh, srcBox, dstBox) && Navigable(mesh) &&
            CheckInBox(source, srcBox) && CheckInBox(destination, dstBox) ==>
              Segments(r.value.path, mesh)
  {
    var res, fs, bs := Search(srcBox, dstBox, source, destination, mesh, dist, fuel);
    if res.Err? {
      return Err(res.error);
    }
    if res.value.meet.None? {
      return Ok(Found([source, destination], res.value.explored));
    }
    r := MeetCorrected(res.value, fs, bs, srcBox, dstBox, source, destination, mesh);
  }

  /** Lines 143-160 with the corrected stitching, once the searches have met. */
  method MeetCorrected(meeting: Meeting, ghost fs: map<Box, nat>, ghost bs: map<Box, nat>,
                       srcBox: Box, dstBox: Box, source: Point, destination: Point, mesh: Mesh)
    returns (r: Result<Found>)
    requires Valid(meeting.fwd, fs, srcBox, source) && Valid(meeting.bwd, bs, dstBox, destination)
    requires meeting.meet.Some? && meeting.meet.value in meeting.fwd.prev && meeting.meet.value in meeting.bwd.prev
    requires srcBox == dstBox ==> meeting.meet == Some(srcBox)
    requires Navigable(mesh) && CheckInBox(source, srcBox) ==> GeoLabels(meeting.fwd, mesh)
    requires Navigable(mesh) && CheckInBox(destination, dstBox) ==> GeoLabels(meeting.bwd, mesh)
    ensures r.Ok? ==>
              && |r.value.path| > 0
              && r.value.path[0] == source
              && r.value.path[|r.value.path| - 1] == destination
              && NoAdjacentDup(r.value.path)
              && AllDistinct(r.value.path)
              && r.value.explored == meeting.explored
    ensures r.Err? ==> r.error == AssertionFailed(160)
    ensures srcBox == dstBox ==> r == Ok(Found(SameBoxPath(source, destination), meeting.explored))
    ensures r.Ok? && Navigable(mesh) && CheckInBox(source, srcBox) && CheckInBox(destination, dstBox) ==>
              Segments(r.value.path, mesh)
  {
    var m := meeting.meet.value;
    var fwd, bwd := meeting.fwd, meeting.bwd;
    AssembleCorrectedSound(m, srcBox, dstBox, fwd, bwd, fs, bs, source, destination);
    if srcBox == dstBox {
      AssembleCorrectedSameBox(m, fwd, bwd, source, destination);
    }
    if Navigable(mesh) && CheckInBox(source, srcBox) && CheckInBox(destination, dstBox) {
      AssembleCorrectedSegments(m, srcBox, dstBox, fwd, bwd, fs, bs, source, destination, mesh);
    }
    var path := AssembleCorrected(m, srcBox, dstBox, fwd, bwd, source, destination);
    if path.Err? {
      return Err(path.error);
    }
    return Ok(Found(path.value, meeting.explored));
  }
}
