# Navigation-mesh pathfinding, design-element levels and MCTS bookkeeping

A Dafny model of three pieces of a games-AI course repository:

- **Navigation-mesh pathfinder** (`P1/src/nm_pathfinder.py`). A mesh is a list
  of axis-aligned boxes `(x1, x2, y1, y2)` with an adjacency map. `find_box`
  locates the box holding a point. `find_next_point` computes where a path
  crosses from one box into a neighbour: the current point clamped onto the
  shared edge. `construct_path` walks backpointers from a box to the search's
  origin, collecting entry points. The module has two searches:
  - `astar_find_path`, a single-direction search whose heuristic weight is 0;
  - `find_path`, a bidirectional search that stops when a direction pops a box
    the other direction has reached, then stitches the two half-paths together.

  `path_len` sums the polyline length.
- **Design-element levels** (`P5/src/ga.py`). `clip` is a clamp.
  `Individual_Grid.empty_individual` is the fixed 16 x 200 template.
  `Individual_DE.to_level` sorts the genome by (type, x, tuple), paints each
  element onto the template and caches the result.
- **Monte Carlo tree search bookkeeping** (`P2/src/mcts_modified.py`).
  - `outcome` gives a player's score lead.
  - `backpropagate` adds a result to every node from a leaf to the root.
  - `find_best_win_rate` returns the first child with the highest win rate.
  - `expand_leaf` moves one untried action into a new child node.

The modules follow this structure:

| module | file | models |
|---|---|---|
| `Wrappers` | `wrappers.dfy` | `Option`, and `Result` with the Python exceptions and failing asserts as `Failure` values |
| `Geometry` | `geometry.dfy` | points, boxes, `find_box`, `check_in_box`, `find_next_point` |
| `Frontier` | `frontier.dfy` | `heappop` as "remove some entry of least priority" |
| `SearchState` | `search_state.dfy` | the per-direction cost, backpointer and entry-point maps, relaxation, `construct_path` |
| `Expansion` | `search_state.dfy` | the neighbour loop shared by both searches |
| `Astar` | `astar.dfy` | `astar_find_path` |
| `Coverage` | `coverage.dfy` | why a search whose frontier runs empty has popped every box reachable from its origin |
| `PathShape` | `path_shape.dfy` | why every leg of a reconstructed path runs inside one mesh box |
| `Bidirectional` | `bidirectional.dfy` | the loop of `find_path`, the stitching as written and corrected |
| `Pathfinder` | `pathfinder.dfy` | `find_path` from `find_box` on, as written, with its pinned endpoints, and corrected |
| `PathLength` | `path_len.dfy` | `path_len` as written and corrected |
| `Level` | `level.dfy` | the level grid, `clip`, `empty_individual`, indexed writes |
| `DesignElements` | `design_elements.dfy` | `Individual_DE.to_level` |
| `Mcts` | `mcts.dfy` | `outcome`, `backpropagate`, `find_best_win_rate`, `expand_leaf` |

Modelling choices:

- **Exceptions and failures.** Python exceptions become `Err` values: `KeyError`, `IndexError`, `random.choice` on an empty list, division by zero. So does a failing `assert` at line `n`, as `AssertionFailed(n)`. The one exception not modelled is the `KeyError` from `mesh["adj"][p_box]` (lines 111 and 341). The searches assume a closed mesh, where every box of the box list and every listed neighbour has an adjacency entry (`Geometry.Closed`); see "Left out".
- **Distance and search loops.**
  - The Euclidean distance becomes a parameter `dist` that is non-negative, symmetric and zero exactly on equal points.
  - A priority is `cost + hw * dist(p, goal)`. `hw` is 0 for `astar_find_path` (line 352 multiplies the heuristic by 0) and 1 for `find_path`.
  - Each search loop takes a `fuel` bound on the number of pops. Running out of it gives `Err(OutOfFuel)`.
- **Why backpointer walks end.** A ghost stamp records when each box's labels were last set. Along every backpointer, the pair (cost, stamp) strictly decreases, so a backpointer walk never revisits a box and always reaches the origin. `SearchState.WalkReachesOrigin` proves this.
- **Routes and valid paths.** A box `b` is reachable from `a` when a route of boxes leads from `a` to `b`, each step going to a box on the previous box's adjacency list. A path is valid when each pair of consecutive points lies in one box of the mesh (`Geometry.Segments`). This is proved for meshes whose adjacency lists only pair boxes that touch along an edge (`Geometry.Navigable`), as the mesh builder produces.
- **Why an empty frontier means "no route".** Every reached box is either waiting in the frontier or has been popped with all its neighbours reached (`Coverage.Covered`). Once the frontier is empty the reached boxes are closed under adjacency, so a box never popped cannot be reached (`Coverage.Drained`).
- **The level.** The level is a `seq<seq<char>>` with 16 rows of 200 columns. Python's negative indices are modelled: an index in `[-n, n)` means `i % n`, and anything outside that range is an `IndexError`.
- **The search tree.** It is a map from node ids to nodes. Every parent has a smaller id than its children. Each node's children list maps actions to child ids.

Where the repository's description of these functions and their code
disagree, the model follows the code:

- **Same box.** When source and destination share a box, nothing short-circuits.
  - `astar_find_path` pops the box at once. It returns `[source, destination]`, or `[source]` when the two points are equal (`Astar.SameBoxPath`).
  - `find_path` as written fails with an `IndexError` at line 152.
- **Unreachable destination in `astar_find_path`.** `pathFound` starts out true (line 332), so when the frontier runs empty the path is still reconstructed from the last box popped, with the destination appended (see Findings).
- **Points outside every box.** When either point lies outside all boxes, the explored-box set returned is empty, not the boxes that were found.
- **Two-box example.** Take boxes `[0,10]x[0,10]` and `[10,20]x[0,10]` and source `(2,2)`. The crossing point is `(10,2)`: `find_next_point` clamps the current point, which is the source, not the destination.

## Model

| member | source | states |
|---|---|---|
| Geometry.FindBox | P1/src/nm_pathfinder.py:235-243 | None exactly when no box of the mesh contains the point (all four bounds inclusive); otherwise the first box, in mesh order, that contains it |
| Geometry.FindNextPoint | P1/src/nm_pathfinder.py:253-275 | when the two boxes share no edge, the current point is returned unchanged |
| Geometry.ClampIsNearest | P1/src/nm_pathfinder.py:262-264 | the clamp lands inside the interval and no point of the interval is closer to the clamped coordinate |
| Geometry.CrossingIsNearestPortalPoint | P1/src/nm_pathfinder.py:253-275 | for well-formed boxes touching along an edge, the crossing point lies on the shared edge and no point of that edge is nearer (squared distance) to the current point |
| Geometry.TouchCrossing | P1/src/nm_pathfinder.py:253-275 | for boxes that touch along an edge, the crossing point lies inside both boxes |
| Geometry.FoundBoxInMesh | P1/src/nm_pathfinder.py:235-243 | on a closed mesh, a box `find_box` returns holds the point and has an adjacency list |
| Frontier.Pop | P1/src/nm_pathfinder.py:71 | the popped entry has the least priority in the frontier, and the rest is the frontier minus exactly that one entry (as a multiset) |
| SearchState.Start | P1/src/nm_pathfinder.py:54-67 | a fresh direction has reached only its origin, at cost 0, with no backpointer, entered at the start point |
| SearchState.Relax | P1/src/nm_pathfinder.py:111-121 | a neighbour is updated exactly when it is unreached or the new cost is strictly lower; then its cost, backpointer (the current box) and entry point (the crossing) are set; otherwise nothing changes; other boxes never change and no cost increases |
| SearchState.RelaxValid | P1/src/nm_pathfinder.py:116-121 | relaxing keeps the search invariant: the origin alone has no backpointer, costs are non-negative, and every backpointer goes to a reached box strictly below in (cost, stamp) |
| SearchState.Walk | P1/src/nm_pathfinder.py:220-223 | a successful walk extends the given path, never puts the same point twice in a row, and appends only entry points of boxes |
| SearchState.WalkReachesOrigin | P1/src/nm_pathfinder.py:220-223 | in a valid search state the walk from any reached box arrives at the origin without a KeyError within rank-many steps (so it cannot loop) |
| SearchState.Finish | P1/src/nm_pathfinder.py:225-229 | succeeds exactly when the target has an entry point; the result ends (or, reversed, starts) at the target's entry point, keeps the walk's first point at the other end and has no adjacent duplicates |
| SearchState.ConstructPath | P1/src/nm_pathfinder.py:195-231 | with no last point and the last box equal to the target the path is empty; otherwise a successful path is non-empty, runs from the target's entry point to the last point (or the last box's entry point) in the requested direction, has no adjacent duplicates and holds only entry points and the last point |
| SearchState.ConstructPathSucceeds | P1/src/nm_pathfinder.py:195-231 | for every box a valid search has reached, `construct_path` back to the origin succeeds |
| SearchState.TwoBoxReconstruct | P1/src/nm_pathfinder.py:195-231 | with one backpointer from `b` to `a`, reconstructing from `b` with a last point gives the three points in order: `a`'s entry, `b`'s entry, the last point |
| Expansion.PushesSound | P1/src/nm_pathfinder.py:111-124 | every pushed entry names a listed neighbour whose relaxation improves it, at priority new cost plus the weighted estimate from the crossing point |
| Expansion.PushesComplete | P1/src/nm_pathfinder.py:111-124 | every listed neighbour whose relaxation improves it gets a pushed entry |
| Expansion.PushesDistinct | P1/src/nm_pathfinder.py:111-124 | no box is pushed twice by one expansion, even when the adjacency list repeats it |
| Expansion.Expand | P1/src/nm_pathfinder.py:111-124 | after expanding a box every listed neighbour is reached at a cost no higher than through this box, each neighbour is settled (updated exactly when the old labels were improvable), boxes off the list keep their labels, the search invariant holds, and the pushed entries are exactly one per improved neighbour, in list order |
| Coverage.ExpandCovered | P1/src/nm_pathfinder.py:71-124 | popping an entry and expanding its box keeps every reached box either pending in the frontier or popped with all neighbours reached, and keeps every reached box reachable from the origin |
| Coverage.Drained | P1/src/nm_pathfinder.py:70 | with nothing pending, a box that was never popped cannot be reached from the origin |
| PathShape.ExpandGeo | P1/src/nm_pathfinder.py:111-121 | on a navigable mesh an expansion keeps every entry point inside its own box and inside the box its backpointer names |
| PathShape.WalkSegments | P1/src/nm_pathfinder.py:220-223 | walking backpointers only adds legs that lie in one mesh box, and the walk ends inside the target box |
| PathShape.ConstructPathSegments | P1/src/nm_pathfinder.py:195-231 | when entry points lie in their boxes and the last point lies in the last box, every leg of the reconstructed path lies in one mesh box |
| Astar.SearchStep | P1/src/nm_pathfinder.py:334-353 | one pop of a box other than the destination's and its expansion keep the loop invariant: valid labels, frontier of reached boxes, the cover, reachability from the source box and entry points in their boxes |
| Astar.SearchHit | P1/src/nm_pathfinder.py:337-339 | a frontier entry for the destination's box means that box is reachable from the source's box |
| Astar.SearchDrained | P1/src/nm_pathfinder.py:334 | when the frontier runs empty before the destination's box is popped, that box is unreachable and was not the last box popped |
| Astar.Search | P1/src/nm_pathfinder.py:333-358 | the loop ends in a valid state whose last popped box is reached and explored; it stops at the destination's box exactly when that box is reachable from the source's box; on a navigable mesh entry points lie in their boxes; a shared box stops at once with only that box |
| Astar.SameBoxConstruct | P1/src/nm_pathfinder.py:363 | reconstructing from the source's own box with the destination as last point gives `[source, destination]`, or `[source]` when they coincide |
| Astar.Reconstruct | P1/src/nm_pathfinder.py:362-365 | from the stop of a valid search the reconstruction succeeds, starts at the source, ends at the destination, has no adjacent duplicates, and, when the destination's box is reachable on a navigable mesh, runs leg by leg through mesh boxes |
| Astar.Rebuild | P1/src/nm_pathfinder.py:361-373 | a returned path runs from source to destination with no repeated point; the only failure is the assert at line 366; the same-box stop gives `SameBoxPath`; with a reachable destination box on a navigable mesh the path is valid |
| Astar.AstarBoxes | P1/src/nm_pathfinder.py:310-366 | a returned path starts at the source, ends at the destination, has no repeated point and the source box was explored; with a reachable destination box that box was explored and, on a navigable mesh, every leg lies in one box; the only failures are the assert at line 366 and exhausted fuel; a shared box yields `SameBoxPath` |
| Astar.AstarFindPath | P1/src/nm_pathfinder.py:279-373 | a point outside every box gives `[source, destination]` with no explored boxes; otherwise the properties of `AstarBoxes` |
| Astar.DisconnectedAsWritten | P1/src/nm_pathfinder.py:332-366 | on a navigable three-box mesh where the destination's box cannot be reached, the labels the search ends with reconstruct to `[(2,2), (10,2), (35,5)]`, whose last leg lies in no box |
| Astar.AstarBoxesCorrected | P1/src/nm_pathfinder.py:310-373 | as `AstarBoxes`, except that an unreachable destination box gives the straight `[source, destination]` of lines 368-371 |
| Astar.AstarFindPathCorrected | P1/src/nm_pathfinder.py:279-373 | a point outside every box, or an unreachable destination box, gives `[source, destination]`; a reachable one on a navigable mesh gives a valid path with no repeated point |
| Bidirectional.Advance | P1/src/nm_pathfinder.py:108-124 | expanding in one direction reaches every listed neighbour at a cost no higher than through the popped box, settles each neighbour, leaves other boxes alone, keeps that direction's invariant, and tags exactly the improved neighbours' entries with the direction's goal |
| Bidirectional.TagReached | P1/src/nm_pathfinder.py:123-124 | every tagged push names a reached box, and every improved neighbour has a tagged entry |
| Bidirectional.FrontierGrow | P1/src/nm_pathfinder.py:108-124 | every frontier entry whose goal is the destination names a box the forward direction reached, and every other entry a box the backward direction reached |
| Bidirectional.CoverForward | P1/src/nm_pathfinder.py:71-124 | popping a forward entry and expanding it keeps every forward-reached box either pending in a forward entry or popped with all its neighbours reached |
| Bidirectional.Step | P1/src/nm_pathfinder.py:71-124 | one pop takes an entry of least priority and marks its box explored; it meets exactly when the popped box was reached by the other direction than its goal's, and then changes neither direction; otherwise that box's neighbours are all reached by the entry's direction, the other direction is unchanged, and both invariants, the forward cover and the entry points' boxes are kept |
| Bidirectional.Search | P1/src/nm_pathfinder.py:42-124 | both directions end valid, a meeting box is reached by both, the source box is explored, the loop runs dry only when the destination's box cannot be reached from the source's box, on a navigable mesh entry points lie in their boxes, and a shared box meets at once |
| Bidirectional.SweepDrained | P1/src/nm_pathfinder.py:70 | an empty frontier with no meeting means the destination's box is unreachable from the source's box |
| Bidirectional.Stitch | P1/src/nm_pathfinder.py:145-149 | the stitched path starts where the forward half starts, ends where the backward half ends, keeps either half when the other is empty, adds no adjacent duplicate and contains only points of the halves |
| Bidirectional.StitchSegments | P1/src/nm_pathfinder.py:145-149 | stitching two valid halves whose inner ends lie in the meeting box gives a valid path |
| Bidirectional.CheckedAsWritten | P1/src/nm_pathfinder.py:152-160 | the path passes exactly when it is non-empty, starts at the source, ends at the destination and repeats no point; an empty path is an IndexError |
| Bidirectional.AssembleAsWritten | P1/src/nm_pathfinder.py:143-160 | an accepted stitched path starts at the source, ends at the destination and repeats no point |
| Bidirectional.AsWrittenFailures | P1/src/nm_pathfinder.py:143-160 | from valid searches, stitching as written can only fail with the IndexError at line 152 or the asserts at lines 152, 153 and 160 |
| Bidirectional.AsWrittenSameBoxFails | P1/src/nm_pathfinder.py:143-152 | when source and destination share a box, both halves are empty and the stitching fails with an IndexError |
| Bidirectional.AsWrittenEndBoxes | P1/src/nm_pathfinder.py:143-153 | meeting in the source's (destination's) box succeeds only if the backward (forward) entry point there is the source (destination) itself |
| Bidirectional.TwoBoxCrossing | P1/src/nm_pathfinder.py:253-275 | from `(2,2)` in `[0,10]x[0,10]` the crossing into `[10,20]x[0,10]` is `(10,2)` |
| Bidirectional.TwoBoxForwardHalf | P1/src/nm_pathfinder.py:143 | in the two-box mesh the forward half is `[(2,2), (10,2)]` |
| Bidirectional.TwoBoxAsWritten | P1/src/nm_pathfinder.py:143-153 | in the two-box mesh, meeting in the destination's box, the stitched path misses the destination and fails the assert at line 153 |
| Bidirectional.CorrectedHalfSound | P1/src/nm_pathfinder.py:143-144 | a corrected half is a non-empty path without adjacent duplicates that ends at its search's endpoint |
| Bidirectional.CorrectedHalfSegments | P1/src/nm_pathfinder.py:143-144 | with entry points in their boxes, a corrected half is a valid path whose inner end lies in the meeting box |
| Bidirectional.AssembleCorrected | P1/src/nm_pathfinder.py:143-160 | an accepted corrected path repeats no point |
| Bidirectional.AssembleCorrectedSound | P1/src/nm_pathfinder.py:143-160 | from valid searches and a box both reached, the corrected stitching fails only on a repeated point (line 160) and otherwise runs from source to destination without adjacent duplicates |
| Bidirectional.AssembleCorrectedSegments | P1/src/nm_pathfinder.py:143-160 | with entry points in their boxes and each endpoint in its box, an accepted corrected path is valid leg by leg |
| Bidirectional.AssembleCorrectedSameBox | P1/src/nm_pathfinder.py:143-160 | with a shared box the corrected stitching gives `[source, destination]`, or `[source]` when they coincide |
| Bidirectional.TwoBoxCorrected | P1/src/nm_pathfinder.py:143-160 | in the two-box mesh the corrected stitching gives `[(2,2), (10,2), (18,2)]` |
| Bidirectional.MeetAsWritten | P1/src/nm_pathfinder.py:137-177 | after a meeting, a shared box fails with an IndexError; a returned path is the A* path from source to destination with no repeated point (valid when the destination's box is reachable on a navigable mesh); the failures are the stitching's, the assert at 366 and exhausted fuel |
| Bidirectional.BoxesAsWritten | P1/src/nm_pathfinder.py:42-185 | with both boxes found, a shared box always fails; a returned path runs from source to destination with no repeated point, the source box explored, and is valid when the destination's box is reachable on a navigable mesh; the failures are the IndexError, the asserts at 152, 153, 160 and 366, and exhausted fuel |
| Bidirectional.MeetCorrected | P1/src/nm_pathfinder.py:137-160 | after a meeting, the corrected stitching returns a path from source to destination with no repeated point, valid on a navigable mesh with each endpoint in its box; it fails only at line 160; a shared box gives `SameBoxPath` |
| Bidirectional.BoxesCorrected | P1/src/nm_pathfinder.py:42-185 | with both boxes found, a returned path runs from source to destination with no repeated point and the source box explored, and is valid when the destination's box is reachable on a navigable mesh; it fails only on a repeated point or exhausted fuel; a shared box gives `SameBoxPath` |
| Pathfinder.FindPathAsWritten | P1/src/nm_pathfinder.py:26-185 | a point outside every box gives `[source, destination]`; a shared box fails with an IndexError; otherwise a returned path runs from source to destination with no repeated point and the source's box explored, and on a navigable mesh with a reachable destination box it is valid leg by leg, as for `BoxesAsWritten` |
| Pathfinder.FindPathPinned | P1/src/nm_pathfinder.py:24-40 | whatever the arguments, a returned path runs from `(310,337)` to `(69,434)` |
| Pathfinder.FindPath | P1/src/nm_pathfinder.py:26-185 | a point outside every box gives `[source, destination]`; otherwise the properties of `BoxesCorrected` |
| PathLength.PathLen | P1/src/nm_pathfinder.py:187-193 | the result is the polyline length for paths of more than two points and 0 for shorter ones |
| PathLength.PathLenCorrected | P1/src/nm_pathfinder.py:187-193 | the result is the polyline length of every path |
| PathLength.PolylineNonNegative | P1/src/nm_pathfinder.py:191-192 | a path's length is never negative |
| PathLength.PolylineZero | P1/src/nm_pathfinder.py:191-192 | a path has length 0 exactly when all its points are equal |
| PathLength.PolylineAppend | P1/src/nm_pathfinder.py:149 | the length of a concatenation is the two lengths plus the gap between them |
| PathLength.PathLenTwoPoints | P1/src/nm_pathfinder.py:190 | a two-point path between distinct points is not measured although its length is positive |
| Level.Clip | P5/src/ga.py:343-348 | for `lo <= hi` the result lies in `[lo, hi]`, and a value already there is returned unchanged |
| Level.ClipNearest | P5/src/ga.py:343-348 | no value in `[lo, hi]` is closer to `val` than the clipped value |
| Level.ClipIdempotent | P5/src/ga.py:343-348 | clipping twice is clipping once |
| Level.Floor | P5/src/ga.py:213-214 | a 16 x 200 grid whose bottom row is `X` and every other cell `-` |
| Level.EmptyTemplate | P5/src/ga.py:212-222 | every cell is the template tile: floor `X`, `m` at (14, 0), `v` at (7, 199), `f` on rows 8-13 and `X` on rows 14-15 of the last column, `-` elsewhere |
| Level.SetCell | P5/src/ga.py:508-511 | a write succeeds exactly for Python-valid (possibly negative) indices, changes only the addressed cell and otherwise raises an IndexError |
| Level.RowRunCells | P5/src/ga.py:523-526 | the cells a clipped `for x2 in range(w)` run touches are exactly the columns between the clipped first and last column, never a border column |
| DesignElements.KeyInjective | P5/src/ga.py:503 | two elements with the same sort key are equal |
| DesignElements.LexTotal | P5/src/ga.py:503 | any two sort keys are comparable |
| DesignElements.LexAntisymmetric | P5/src/ga.py:503 | keys ordered both ways are equal |
| DesignElements.LexTransitive | P5/src/ga.py:503 | the key order is transitive |
| DesignElements.SortElements | P5/src/ga.py:503 | the result is sorted by key and is a permutation of the genome |
| DesignElements.SortedUnique | P5/src/ga.py:503 | two sorted permutations of the same elements are equal |
| DesignElements.Paint | P5/src/ga.py:505-542 | painting an element succeeds exactly when its indices are Python-valid and keeps the grid's shape; otherwise it is an IndexError |
| DesignElements.CellPaint | P5/src/ga.py:508-518 | a block, question block, coin or enemy writes its tile at its (Python-indexed) cell and nothing else |
| DesignElements.PipeShaft | P5/src/ga.py:520-522 | the shaft loop succeeds for in-range rows and column and writes the shaft tile exactly into the column's rows from `y` down to `stop` |
| DesignElements.PipePaint | P5/src/ga.py:519-522 | a pipe of height `h` puts `T` at row `15 - h` and shaft tiles below it in its column, and touches nothing else |
| DesignElements.HolePaint | P5/src/ga.py:523-526 | a hole clears the floor between the clipped first and last columns, never the border columns, and touches nothing else |
| DesignElements.StairsPaint | P5/src/ga.py:527-533 | stairs only ever write `X`, and only inside columns 1-198 |
| DesignElements.StairsPaintShape | P5/src/ga.py:527-533 | for stairs that fit the grid, column `x + k` (1 <= k <= h) is filled with `X` from the floor up to k blocks (or h - k going down), and nothing else changes |
| DesignElements.PlatformPaint | P5/src/ga.py:534-540 | a platform writes its material on the clipped row between the clipped first and last columns and touches nothing else |
| DesignElements.PaintAll | P5/src/ga.py:503-542 | painting a sequence succeeds exactly when every element fits, keeping the grid's shape; otherwise it is an IndexError |
| DesignElements.Render | P5/src/ga.py:502-542 | rendering a genome succeeds exactly when all its elements fit |
| DesignElements.ToLevel | P5/src/ga.py:500-544 | the returned individual caches the returned level; an uncached individual renders exactly when its elements fit |
| DesignElements.ToLevelCached | P5/src/ga.py:501 | a second call returns the cached level unchanged |
| DesignElements.ToLevelEmpty | P5/src/ga.py:502 | an empty genome renders the template itself |
| DesignElements.RenderOrderFree | P5/src/ga.py:503 | the level depends only on the genome's elements, not their order |
| Mcts.Outcome | P2/src/mcts_modified.py:104-112 | with game points, nine times the mover's points minus the opponent's (red is player 1); without them, the number of boxes the mover owns minus the number the opponent owns, counted position by position; hence the sign says who leads and the lead is bounded by the number of boxes |
| Mcts.OwnedIndices | P2/src/mcts_modified.py:109-110 | counting an owner's values equals counting the positions that hold that owner |
| Mcts.OwnedBound | P2/src/mcts_modified.py:109-110 | red's and blue's box counts together never exceed the number of boxes |
| Mcts.OutcomeZeroSum | P2/src/mcts_modified.py:112 | player 1's outcome is the negation of player 2's |
| Mcts.Backpropagate | P2/src/mcts_modified.py:200-215 | exactly the nodes on the path from the leaf to the root gain the result and one visit; the tree keeps its shape |
| Mcts.AncestorsBelow | P2/src/mcts_modified.py:214-215 | every node on the path to the root has an id no larger than the start |
| Mcts.FindBestWinRate | P2/src/mcts_modified.py:243-253 | a child with zero visits raises a ZeroDivisionError; no children give None; otherwise the first child with the highest win rate |
| Mcts.RemoveFirst | P2/src/mcts_modified.py:77 | removes exactly one occurrence, the first: everything before it is kept in place and everything after it moves up one, in order |
| Mcts.SetChild | P2/src/mcts_modified.py:82 | the action is listed with the new child; every other entry is kept; an absent action is appended at the end and a present one keeps the list's length |
| Mcts.SetChildInPlace | P2/src/mcts_modified.py:82 | on a dictionary that lists the action, exactly that entry is replaced where it stands and every other entry is kept in place |
| Mcts.SetChildKeepsDictionary | P2/src/mcts_modified.py:82 | no action is listed twice afterwards, and the action maps only to the new child |
| Mcts.AddChild | P2/src/mcts_modified.py:77-82 | the node keeps its parent, action and counters, loses the first occurrence of the action from its untried list, gains the new child under the action and keeps every other child |
| Mcts.ExpandLeaf | P2/src/mcts_modified.py:64-84 | fails exactly when there is no untried action; otherwise the chosen action leaves the untried list (first occurrence, order kept), a fresh unvisited child with that action and the given legal actions is linked under the node, the node's other children, parent, action and counters are kept, and every other node is unchanged |
| Mcts.ExpandThenBackpropagate | P2/src/mcts_modified.py:64-84 | after expanding and backpropagating from the new child, it and exactly the ancestors of the expanded node gain one visit |

## Left out

- `find_path`'s prints (lines 22, 37, 138, 154-157, 164-165, 173, 183) and `astar_find_path`'s debug counter and prints (lines 331, 355-358) have no effect on results and are not modelled.
- Lines 24-25 of `find_path` replace the caller's points with fixed ones. `Pathfinder.FindPathPinned` models that. `Pathfinder.FindPathAsWritten` and `Pathfinder.FindPath` take the points as given, so the rest of the search can be stated for any input.
- Floating point: costs and priorities are exact reals. `euclidean` (lines 246-248) is the abstract metric `dist`, so `sqrt` rounding is not modelled.
- `heappop` tie-breaking: `Frontier.Pop` may remove any entry of least priority. Python would break ties by comparing boxes and points.
- `Astar.Search`, `Bidirectional.Search`: the number of pops is bounded by `fuel`. The source loops until the frontier is empty, so `Err(OutOfFuel)` stands for a run longer than the bound, not for a behaviour of the source.
- `SearchState.ConstructPath`: the walk is bounded by the number of reached boxes. For a valid search state it always succeeds within that bound (`ConstructPathSucceeds`). On arbitrary maps with a backpointer cycle the source would loop forever, where the model returns `OutOfFuel`.
- `Individual_Grid.to_level` (ga.py:207-208) returns its genome unchanged; a grid genome is itself a level here, so it has no member of its own.
- The rest of `ga.py` is not modelled: fitness, mutation, crossover, random individuals, selection and the generation loop are randomised or call external tools.
- In `mcts_modified.py`, `ucb`, `find_best_child`, `traverse_nodes`, `rollout_policy`, `rollout` and `think` are not modelled, and neither is `mcts_vanilla.py`. They are randomised playouts against an external board.
- `mcts_node.py` is not part of this model. Its `MCTSNode` is the `Mcts.Node` record: parent, parent action, wins, visits, untried actions, children.
- `Mcts.ExpandLeaf`: `random.choice` is the parameter `pick`. `board.next_state` and `board.legal_actions` are the parameter `childActions`.
- `Mcts.FindBestWinRate`: win rates are compared as exact rationals. Float rounding could make two different rates compare equal.
- `Geometry.FindNextPoint`: its own contract covers only boxes that share no edge. The crossing for boxes that do share one is stated by `CrossingIsNearestPortalPoint`, for well-formed boxes.
- `DesignElements.StairsPaint`: for arbitrary stairs it states only that cells are left alone or set to `X` inside columns 1-198. The exact staircase is stated by `StairsPaintShape`, for stairs that fit inside the grid.
- `DesignElements.Paint`: its own contract states only success and shape. The cells each kind writes are stated by `CellPaint`, `PipePaint`, `HolePaint`, `PlatformPaint` and `StairsPaintShape`.
- `DesignElements.PipeShaft`: the exact cells are stated for non-negative start rows and columns. A negative row or column also succeeds in Python; the contract only says that such a write keeps the grid's shape.
- `Pathfinder.FindPath`, `Pathfinder.FindPathAsWritten`, `Pathfinder.FindPathPinned`, `Astar.Search`, `Astar.AstarBoxes`, `Astar.AstarFindPath`, `Bidirectional.Search`, `Bidirectional.BoxesAsWritten` and `Bidirectional.BoxesCorrected` require a closed mesh (`Geometry.Closed`): every box in the box list and every listed neighbour has an adjacency entry. On other meshes the source raises a `KeyError` at line 111 or 341 when it pops a box with no entry, and returns normally when it never pops one. That `KeyError` is not modelled. The repository's description of the mesh gives every box an adjacency entry and treats a dangling entry as a caller error.
- `Astar.AstarBoxes`: the assert at line 366 is kept as a possible failure. No lemma shows whether a valid A* state can reach it.
- `Bidirectional.Search`: a meeting is not shown to imply that the destination's box is reachable from the source's box. The backward direction follows adjacency lists away from the destination, which gives a route only when the lists are symmetric, and the model does not assume that. The converse, that running dry means no route, is stated.
- `Bidirectional.BoxesCorrected`, `Bidirectional.BoxesAsWritten`, `Astar.AstarBoxes` and the `Pathfinder` methods state leg-by-leg validity only for navigable meshes with a reachable destination box. On other meshes the crossing point need not lie in both boxes.
- `Bidirectional.Step`: the cover invariant (every reached box pending or expanded) is kept for the forward direction only, which is all the completeness argument needs.
- The optimality of the returned paths (shortest under `dist`) is not stated. Box costs are measured between the entry points a search fixed when it reached each box, not over every point of the shared edges.
- P3 (behaviour trees) and P6 (facial-expression game) are outside the modelled core.

## Findings

| source | as written | input that shows it | evidently intended | confidence | as-written member | corrected member |
|---|---|---|---|---|---|---|
| P1/src/nm_pathfinder.py:143-153 | when the meeting box is the source's or the destination's box, `construct_path` (last box == target, no last point) returns `[]` for that half, so the stitched path lacks an endpoint | both points in one box: path `[]`, IndexError at line 152; boxes `[0,10]x[0,10]`, `[10,20]x[0,10]`, source `(2,2)`, destination `(18,2)`: both start entries have priority 0 and Python's tuple comparison pops the smaller box `[0,10]x[0,10]` (the forward entry) first, so the searches meet in the destination's box; path `[(2,2), (10,2)]`, assert at line 153 fails | use `[source]` / `[destination]` as the empty half, giving `[(2,2), (10,2), (18,2)]` | not executed | Bidirectional.AsWrittenSameBoxFails, Bidirectional.TwoBoxAsWritten | Bidirectional.AssembleCorrectedSound, Bidirectional.TwoBoxCorrected |
| P1/src/nm_pathfinder.py:190 | `path_len` only measures paths with more than two points | `[(0,0), (3,4)]` has length 5 but `path_len` returns 0 | `pathlen >= 2` (or no guard) | not executed | PathLength.PathLenTwoPoints | PathLength.PathLenCorrected |
| P1/src/nm_pathfinder.py:24-25 | `find_path` overwrites its arguments with `(310, 337)` and `(69, 434)` | source `(2,2)`, destination `(18,2)` in any mesh: every returned path starts at `(310,337)` | search between the caller's points | not executed | Pathfinder.FindPathPinned | Pathfinder.FindPath |
| P1/src/nm_pathfinder.py:332-363 | `pathFound` starts out true, so when the frontier runs empty `astar_find_path` still reconstructs from the last box popped and appends the destination | boxes A = `[0,10]x[0,10]`, B = `[10,20]x[0,10]` (adjacent), C = `[30,40]x[0,10]` (isolated), source `(2,2)`, destination `(35,5)`: returns `[(2,2), (10,2), (35,5)]`, whose last leg crosses outside the mesh | `pathFound = False` before the loop, so lines 368-371 return `[source, destination]` | not executed | Astar.DisconnectedAsWritten | Astar.AstarBoxesCorrected, Astar.AstarFindPathCorrected |
