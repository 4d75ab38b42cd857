/**
 * Why an exhausted frontier means the goal box is unreachable. Every box a
 * search has reached is either still waiting in the frontier or has been
 * popped with all its listed neighbours reached; once the frontier is
 * empty the reached boxes are closed under adjacency, so no route leaves
 * them, and a box the search never popped cannot be reached.
 */
module Coverage {
  import opened Geometry
  import opened SearchState
  import opened Expansion

  /** The boxes a frontier holds entries for. */
  ghost function BoxesOf(s: seq<Push>): (r: set<Box>)
    ensures forall p :: p in s ==> p.box in r
    ensures forall b :: b in r ==> exists p :: p in s && p.box == b
  {
    set p | p in s :: p.box
  }

  lemma BoxesOfConcat(a: seq<Push>, b: seq<Push>)
    ensures BoxesOf(a + b) == BoxesOf(a) + BoxesOf(b)
  {
    assert forall p :: p in a + b <==> p in a || p in b;
  }

  lemma BoxesOfOne(p: Push)
    ensures BoxesOf([p]) == {p.box}
  {
    assert forall q :: q in [p] <==> q == p;
  }

  /** Taking one entry out of a frontier loses at most that entry's box. */
  lemma PopBoxes(s: seq<Push>, e: Push, rest: seq<Push>)
    requires multiset(rest) + multiset{e} == multiset(s)
    ensures BoxesOf(s) <= BoxesOf(rest) + {e.box}
  {
    forall p | p in s ensures p in rest || p == e {
      assert p in multiset(s);
    }
  }

  /** All listed neighbours of `b` are reached. */
  ghost predicate Expanded(l: Labels, mesh: Mesh, b: Box) {
    b in mesh.adj && forall n :: n in mesh.adj[b] ==> n in l.prev
  }

  /**
   * Every reached box is pending (has a frontier entry) or is done (was
   * popped) with all its listed neighbours reached.
   */
  ghost predicate Covered(l: Labels, pending: set<Box>, done: set<Box>, mesh: Mesh) {
    forall b :: b in l.prev ==> b in pending || (b in done && Expanded(l, mesh, b))
  }

  /** Every reached box can be reached from `origin` along the adjacency lists. */
  ghost predicate ReachedFrom(l: Labels, mesh: Mesh, origin: Box) {
    forall b :: b in l.prev ==> Reachable(mesh, origin, b)
  }

  lemma StartCovered(origin: Box, p: Point, mesh: Mesh)
    ensures Covered(Start(origin, p), {origin}, {}, mesh)
    ensures ReachedFrom(Start(origin, p), mesh, origin)
  {
    ReachableSelf(mesh, origin);
  }

  /**
   * Popping `b` and reaching all its neighbours keeps the cover, provided
   * every newly reached box was pushed (is in `added`).
   */
  lemma CoveredStep(l: Labels, l': Labels, pending: set<Box>, rest: set<Box>, added: set<Box>,
                    done: set<Box>, mesh: Mesh, b: Box)
    requires Covered(l, pending, done, mesh) && pending <= rest + {b}
    requires l.prev.Keys <= l'.prev.Keys && Expanded(l', mesh, b)
    requires forall x :: x in l'.prev && x !in l.prev ==> x in added
    ensures Covered(l', rest + added, done + {b}, mesh)
  {
    forall x | x in l'.prev ensures x in rest + added || (x in done + {b} && Expanded(l', mesh, x)) {
      if x in l.prev && x != b && x !in pending {
        assert Expanded(l, mesh, x);
      }
    }
  }

  /** Popping `b` without expanding it keeps the cover when `b` has another entry or is already done. */
  lemma CoveredWiden(l: Labels, pending: set<Box>, pending': set<Box>, done: set<Box>, done': set<Box>, mesh: Mesh)
    requires Covered(l, pending, done, mesh) && pending <= pending' && done <= done'
    ensures Covered(l, pending', done', mesh)
  {
  }

  /**
   * An expansion of `cur` reaches only listed neighbours of `cur`, so the
   * labels stay reachable from the origin.
   */
  lemma ExpandReach(l: Labels, l': Labels, cur: Box, mesh: Mesh, origin: Box)
    requires WellKeyed(l) && WellKeyed(l') && cur in l.prev && cur in mesh.adj
    requires ReachedFrom(l, mesh, origin)
    requires forall b :: b !in mesh.adj[cur] ==> Same(l, l', b)
    ensures ReachedFrom(l', mesh, origin)
  {
    forall x | x in l'.prev ensures Reachable(mesh, origin, x) {
      if x in mesh.adj[cur] {
        ReachableStep(mesh, origin, cur, x);
      } else {
        assert Same(l, l', x);
      }
    }
  }

  /** The boxes an expansion newly reaches are exactly among those it pushed. */
  lemma NewlyReachedPushed(l: Labels, l': Labels, cur: Box, neighbors: seq<Box>, pushed: seq<Push>, dist: Metric)
    requires WellKeyed(l) && WellKeyed(l') && cur in l.prev
    requires forall b :: b !in neighbors ==> Same(l, l', b)
    requires forall nb :: nb in neighbors && Improves(l, cur, l.entry[cur], nb, dist) ==>
               exists p :: p in pushed && p.box == nb
    ensures forall x :: x in l'.prev && x !in l.prev ==> x in BoxesOf(pushed)
  {
    forall x | x in l'.prev && x !in l.prev ensures x in BoxesOf(pushed) {
      if x in neighbors {
        assert Improves(l, cur, l.entry[cur], x, dist);
        var p :| p in pushed && p.box == x;
      } else {
        assert false;
      }
    }
  }

  /**
   * With nothing pending, the reached boxes are closed under adjacency, so
   * a box that was never popped cannot be reached from the origin.
   */
  lemma Drained(l: Labels, done: set<Box>, mesh: Mesh, origin: Box, avoid: Box)
    requires Covered(l, {}, done, mesh) && origin in l.prev && avoid !in done
    ensures !Reachable(mesh, origin, avoid)
  {
    var s := l.prev.Keys;
    forall b | b in s ensures b in done && b in mesh.adj && forall n :: n in mesh.adj[b] ==> n in s {
      assert b in done && Expanded(l, mesh, b);
    }
    assert ClosedUnderAdj(mesh, s);
    if Reachable(mesh, origin, avoid) {
      ReachableInsideClosed(mesh, s, origin, avoid);
    }
  }

  /**
   * One pop-and-expand step of a search keeps the cover and the
   * reachability of the labels: the popped entry `e` leaves the frontier,
   * its box `cur` becomes done with every neighbour reached, and every
   * newly reached box has an entry among `pushed`.
   */
  lemma ExpandCovered(l: Labels, l': Labels, before: seq<Push>, e: Push, rest: seq<Push>, pushed: seq<Push>,
                      done: set<Box>, mesh: Mesh, origin: Box, dist: Metric)
    requires WellKeyed(l) && WellKeyed(l') && e.box in l.prev && e.box in mesh.adj
    requires Covered(l, BoxesOf(before), done, mesh) && ReachedFrom(l, mesh, origin)
    requires multiset(rest) + multiset{e} == multiset(before)
    requires l.prev.Keys <= l'.prev.Keys
    requires forall nb :: nb in mesh.adj[e.box] ==> nb in l'.prev
    requires forall b :: b !in mesh.adj[e.box] ==> Same(l, l', b)
    requires forall nb :: nb in mesh.adj[e.box] && Improves(l, e.box, l.entry[e.box], nb, dist) ==>
               exists p :: p in pushed && p.box == nb
    ensures Covered(l', BoxesOf(rest + pushed), done + {e.box}, mesh)
    ensures ReachedFrom(l', mesh, origin)
  {
    PopBoxes(before, e, rest);
    NewlyReachedPushed(l, l', e.box, mesh.adj[e.box], pushed, dist);
    BoxesOfConcat(rest, pushed);
    CoveredStep(l, l', BoxesOf(before), BoxesOf(rest), BoxesOf(pushed), done, mesh, e.box);
    ExpandReach(l, l', e.box, mesh, origin);
  }
}
