# Verified model of the rover's two grid path planners

This project models the two grid path planners of the rover navigation code in Dafny and proves
properties of them:

- **`DStarNavigator`** (`code/d_star.py`): an incremental D\* Lite replanner.
  - It keeps a lazily filled table of `g`/`rhs` values and a list of `(key1, key2, point)` queue entries.
  - It keeps the key modifier `k_m`, the start, the goal and the last goal.
  - It runs `compute_shortest_path` (stale, overconsistent and underconsistent pops), `update_costs`
    (only the changed cells within distance 4 of the start), `extract_path` (a greedy descent) and
    `find_path`.
- **`astar`** (`code/pathfinding.py`): a one-shot 4-connected best-first search.
  - It uses an `open` dictionary, kept in insertion order, and a `closed` dictionary.
  - It relaxes a neighbour with `g + distance + cost` and records parent links.
  - On success it reconstructs the path by walking parents back from the goal.
  - On failure it returns the sentinel `"Oh no"`.

## Modules

| file | module | contents |
|---|---|---|
| `ext_real.dfy` | `ExtReal` | the extended reals `Fin(v) \| Inf`, standing in for floats with `math.inf`: addition, `<`, `<=`, `min` |
| `grid.dfy` | `GridModel` | points, grids, bounds and row-major cell order; the distance laws |
| `dstar_queue.dfy` | `DStarQueue` | D\* queue entries, their tuple order, the minimum entry, `top_key` |
| `dstar_search.dfy` | `DStarSearch` | the `NodeDict` table, 8-neighbours, the rhs lookahead and its invariant, the greedy step of `extract_path` |
| `dstar.dfy` | `DStar` | the `Navigator` class: the fields of `DStarNavigator` and its methods |
| `astar.dfy` | `AStar` | 4-neighbours, the open dictionary, relaxation, the loop invariant, path reconstruction, `astar` |

## Modelling choices

- **Distance and infinity.**
  - `distance` is a parameter `dist: (Point, Point) -> real`. `DistanceLaws` says it is non-negative
    and symmetric.
  - `heuristic(node, p)` is `dist(node.point, p)`.
  - Costs, `g`, `rhs` and keys are extended reals. `inf + x = inf`, and `inf < inf` is false, as for
    IEEE floats.
  - Cells are exactly those of the grid; a cell whose cost is infinite is an obstacle.
- **The D\* Lite queue.**
  - The queue is a sequence of entries compared as the source's tuples: key1, then key2, then the
    point.
  - `heappush` appends; `heappop` after `top_key`'s sort removes the least entry.
  - The order of the list itself is not modelled, since only its minimum is ever observed.
- **The `NodeDict` table.**
  - The table is a map read through `Lookup`, which gives `(inf, inf)` for a missing point.
  - Writes insert, as `NodeDict.__missing__` does (`GetOrInsert`).
  - Reads that insert a fresh node in the source are modelled as reads: the inserted node is the
    default and nothing can tell the two apart.
- **`Navigator` invariant.** `Valid()` says all of the following:
  - the distance laws hold and the grid is rectangular;
  - `k_m >= 0` and every queue key is finite;
  - the last goal is the goal, and the goal's `rhs` is 0;
  - each point is queued at most once;
  - a point is queued exactly when it is inconsistent (`g != rhs`).
- **The rhs invariant.** `RhsIsLookahead(pending)` is the D\* Lite invariant that every in-bounds non-goal
  cell's `rhs` is the minimum of `g(n) + travel_cost(p, n)` over its neighbours. Cells in `pending` are exempt.
- **Termination of the two D\* loops.** The loops of `compute_shortest_path` and `extract_path` take a
  `fuel` bound. Running out of fuel is reported and not hidden.
- **A\* `open` and `closed`.**
  - `open` is an insertion-ordered map (`Open`) and `closed` is a map.
  - `sorted(...)[0]` is stable, so its result is the first minimum in insertion order (`FirstMin`).
  - Node objects are values: a relaxed node is written back under its point.
- **A\* start node and ranks.**
  - The start's cost lookup follows Python's negative indexing (`PyIndex`, `PyCell`).
  - An out-of-range start is the `IndexError` outcome.
  - A ghost map `rank` orders closed cells by closing time. It proves that the parent walk terminates.
- **What the A\* outcome means.** `Route` is a walk from the start to the goal through 4-adjacent in-grid
  cells, each one before the last passable: the start, or a cell of finite cost. (A cell of infinite
  cost can be entered, but every g reached through it is infinite, so it is never left.)
  - `Search` returns a `Route` when it succeeds.
  - It returns `NoPath` ("Oh no") exactly when no `Route` exists.
  - The loop runs at most rows × cols + 1 times.

## Notes on the code

- The path `astar` returns **includes the start** as its first point: `path` begins with the goal, and
  the parent walk appends every parent, the start included, before the reversal. The model does the
  same. The path `extract_path` returns, by contrast, leaves its start out.
- `update_costs` calls `update_vertex` on the **changed cells themselves**. D\* Lite updates the cells
  whose outgoing edges changed. Here `travel_cost(p, n)` reads `costs[n]`, so those are the neighbours
  of a changed cell.
  - So `update_costs` does not restore the rhs invariant in general.
  - `UpdateCosts` proves what the code does: the cells it updates get their lookahead `rhs`, and
    nothing else changes.

## Model

| member | source | states |
|---|---|---|
| ExtReal.Add | code/d_star.py:51 | infinite exactly when an operand is; otherwise the real sum |
| ExtReal.Min | code/d_star.py:80 | Python `min`: at most both operands, equal to one of them, infinite only when both are |
| ExtReal.LtTransitive | code/d_star.py:96 | `<` on extended reals is transitive |
| ExtReal.LtTrichotomy | code/d_star.py:96 | any two extended reals are ordered or equal |
| ExtReal.LeTransitive | code/pathfinding.py:47 | `<=` is transitive, so a least priority exists |
| GridModel.KeepInBounds | code/d_star.py:73 | keeps exactly those listed points that lie inside the grid, and no more of them |
| GridModel.KeepInBoundsDistinct | code/d_star.py:73 | filtering a duplicate-free list leaves it duplicate-free |
| GridModel.RowCells | code/d_star.py:111 | one row of cells: exactly the row's in-range columns |
| GridModel.RowMajor | code/d_star.py:111 | the cells `nonzero()` ranges over: exactly the cells of the grid |
| DStarQueue.EntryLeTotal | code/d_star.py:54 | tuple order on entries is total |
| DStarQueue.EntryLeTransitive | code/d_star.py:54 | tuple order on entries is transitive |
| DStarQueue.MinEntry | code/d_star.py:94-95 | the popped entry is in the queue and at most every entry |
| DStarQueue.Entries | code/d_star.py:83 | `id_in_queue` is no longer than the queue |
| DStarQueue.EntriesMembers | code/d_star.py:83 | `id_in_queue` holds exactly the entries of the point |
| DStarQueue.RemoveFirst | code/d_star.py:87 | `list.remove` drops one entry and adds none |
| DStarQueue.RemoveFirstMultiset | code/d_star.py:87 | `list.remove` removes exactly one copy of the entry |
| DStarQueue.EntriesAppend | code/d_star.py:83 | the entries of a point in a concatenation are those of each part |
| DStarQueue.EntriesPush | code/d_star.py:89 | a push adds an entry only for its own point |
| DStarQueue.EntriesRemoveFirst | code/d_star.py:87 | removing an entry changes only its own point's entries |
| DStarQueue.TopKey | code/d_star.py:53-58 | `(inf, inf)` for an empty queue, else a key in the queue below none; with finite keys, `(inf, inf)` exactly when empty |
| DStarSearch.Lookup | code/d_star.py:13-17 | reading `nodes[p]`: the stored vertex, or `g = rhs = inf` for a missing point |
| DStarSearch.TravelCostLaws | code/d_star.py:60-61 | `travel_cost(p, n)`, modelled by `DStarSearch.TravelCost`, is infinite exactly when n's cell is (off the grid or an obstacle); otherwise the cell cost plus the distance, so at least the cell cost |
| DStarSearch.LookupUpdate | code/d_star.py:13-17 | writing a vertex changes the lookup of that point only |
| DStarSearch.GetOrInsert | code/d_star.py:13-17 | `nodes[p]` inserts a fresh `(inf, inf)` node for a missing point and changes no lookup |
| DStarSearch.Neighbors | code/d_star.py:63-73 | at most 8 points, in bounds, at Chebyshev distance 1, never the point itself |
| DStarSearch.NeighborsDistinct | code/d_star.py:65-72 | no neighbour is listed twice |
| DStarSearch.NeighborsComplete | code/d_star.py:63-73 | every in-bounds cell at Chebyshev distance 1 is listed |
| DStarSearch.NeighborsSymmetric | code/d_star.py:63-73 | neighbourhood of in-bounds cells is symmetric |
| DStarSearch.MinStep | code/d_star.py:78-80 | the running minimum is at most every `g(n) + travel_cost`, attained by some n, inf for none |
| DStarSearch.MinStepSameG | code/d_star.py:80 | the minimum depends only on the neighbours' g |
| DStarSearch.LookaheadSameG | code/d_star.py:78-81 | equal g everywhere gives equal lookahead everywhere |
| DStarSearch.LookaheadLocal | code/d_star.py:101-103 | changing one g changes only its neighbours' lookahead |
| DStarSearch.LookaheadAllInf | code/d_star.py:31-47 | with every g infinite, every lookahead is infinite |
| DStarSearch.RhsAfterUpdate | code/d_star.py:75-81 | recomputing p's rhs removes p from the pending set of the rhs invariant |
| DStarSearch.RhsAfterUpdateAt | code/d_star.py:102-103 | one step of the neighbour loop keeps the rhs invariant on the rest |
| DStarSearch.RhsAfterNewG | code/d_star.py:99-108 | a new g at u leaves only u's neighbours pending |
| DStarSearch.Choose | code/d_star.py:121-127 | the chosen neighbour is listed and finitely reachable; no choice means every step is infinite |
| DStarSearch.ChooseIsFirstMinimum | code/d_star.py:121-127 | the strict `<` scan picks the first neighbour of least finite step cost, and none exactly when all are infinite |
| DStarSearch.Next | code/d_star.py:121-128 | the next point is an 8-neighbour with a finite step cost |
| DStarSearch.NextStepSound | code/d_star.py:128-130 | every greedy step is to a neighbour at finite cost |
| DStarSearch.GreedyWalkExtend | code/d_star.py:129-130 | appending the greedy choice extends the greedy walk |
| DStarSearch.GreedyWalkIsWalk | code/d_star.py:120-130 | a greedy walk moves between 8-neighbours at finite costs |
| DStar.KeepChanged | code/d_star.py:111 | keeps exactly the listed cells whose cost differs (inf counts as changed) |
| DStar.ChangedCells | code/d_star.py:111 | exactly the in-grid cells whose cost changed |
| DStar.TracksAfterPop | code/d_star.py:94-95 | the popped point had only that entry, was inconsistent, and the rest stays tracked |
| DStar.TracksExcept | code/d_star.py:75-89 | tracking all points implies tracking all but one |
| DStar.TracksRewrite | code/d_star.py:99-108 | rewriting the exempt point keeps the others tracked |
| DStar.TracksSettled | code/d_star.py:99-101 | a consistent, unqueued exempt point restores full tracking |
| DStar.TracksPush | code/d_star.py:98 | pushing the inconsistent exempt point restores full tracking |
| DStar.TracksRequeued | code/d_star.py:83-89 | requeuing p exactly when inconsistent restores full tracking |
| DStar.NearbyStep | code/d_star.py:113-115 | one loop step adds the cell when it is within the radius and not the goal |
| DStar.Navigator.constructor | code/d_star.py:21-29 | empty queue and table, `k_m = 0`, no last goal |
| DStar.Navigator.Heuristic | code/d_star.py:151-152 | `heuristic(node, start)` is the distance of the node's point from start: non-negative, and the same measured either way |
| DStar.Navigator.Guard | code/d_star.py:92-93 | the while condition; once false, `top_key >= calculate_key(start)` and `rhs(start) <= g(start)` |
| DStar.Navigator.CalculateKey | code/d_star.py:49-51 | `key2 = min(g, rhs)`, `key1 = key2 + h + k_m`, and `key2 <= key1` when `k_m >= 0` |
| DStar.Navigator.Initialize | code/d_star.py:31-47 | table holds only the goal with `rhs = 0`, `g = inf`; queue is one entry `(h(goal, start), 0, goal)`; `k_m = 0`; invariants hold |
| DStar.Navigator.NeighborMin | code/d_star.py:78-80 | the loop computes the lookahead |
| DStar.Navigator.Requeue | code/d_star.py:83-89 | fails iff p was queued more than once; afterwards p is queued once iff inconsistent with its fresh key; others untouched |
| DStar.Navigator.UpdateVertex | code/d_star.py:75-89 | goal rhs unchanged, other rhs := lookahead; g and other vertices unchanged; the queue part as Requeue; restores Valid |
| DStar.Navigator.UpdateNeighbors | code/d_star.py:102-103 | Valid kept; only neighbours change; their rhs is their lookahead, and each is queued once under its `calculate_key` exactly when inconsistent |
| DStar.Navigator.PopMin | code/d_star.py:94-95 | removes the least entry, whose key is top_key; its point was inconsistent |
| DStar.Navigator.Settle | code/d_star.py:99-103 | overconsistent pop: `g := rhs`, other g unchanged, no cell but u and its neighbours changes vertex or queue entry, and these are queued once under their `calculate_key` exactly when inconsistent; Valid and the rhs invariant kept |
| DStar.Navigator.Raise | code/d_star.py:104-108 | underconsistent pop: `g := inf`, rhs recomputed, no cell but u and its neighbours changes vertex or queue entry, and these are queued once under their `calculate_key` exactly when inconsistent; Valid and the rhs invariant kept |
| DStar.Navigator.ProcessTop | code/d_star.py:94-108 | stale pop re-pushes with the fresh key and changes no vertex; otherwise the overconsistent or underconsistent update, after which u and its neighbours are queued once under their `calculate_key` exactly when inconsistent; no cell but u and its neighbours changes vertex or queue entry |
| DStar.Navigator.GuardedQueueNonEmpty | code/d_star.py:92-95 | while the loop condition holds, the queue is not empty |
| DStar.Navigator.ComputeShortestPath | code/d_star.py:91-108 | on completion `top_key >= calculate_key(start)` and `rhs(start) <= g(start)`; Valid and the rhs invariant kept |
| DStar.Navigator.UpdateCosts | code/d_star.py:110-115 | costs replaced; only changed cells within the radius, not the goal, are updated, to their lookahead, and each is queued once under its `calculate_key` exactly when inconsistent; Valid kept |
| DStar.Navigator.BestNeighbor | code/d_star.py:121-127 | the loop picks the greedy choice |
| DStar.Navigator.ExtractPath | code/d_star.py:117-134 | a path is the greedy walk from the start ending at the goal only at its end, via 8-neighbours at finite cost; a failure is a greedy walk stuck short of the goal |
| DStar.Navigator.FindPath | code/d_star.py:136-148 | new goal: reinitialise, `k_m = 0`; same goal: `k_m += h(old start, start)` (non-decreasing); unless the budget ran out, the path is extracted after the search has converged: the loop guard is false, `top_key >= calculate_key(start)` and `rhs(start) <= g(start)`; outcome as ExtractPath |
| AStar.Around4Exact | code/pathfinding.py:24-27 | the four candidates are exactly the points at Manhattan distance 1 |
| AStar.Neighbors4 | code/pathfinding.py:20-28 | exactly the in-bounds 4-neighbours, at most 4 |
| AStar.Neighbors4Distinct | code/pathfinding.py:24-28 | no neighbour is listed twice |
| AStar.Neighbors4Symmetric | code/pathfinding.py:20-28 | 4-neighbourhood of in-bounds cells is symmetric |
| AStar.PyIndex | code/pathfinding.py:43 | Python indexing succeeds iff `-n <= i < n`, giving the index congruent to i |
| AStar.PyCell | code/pathfinding.py:43 | `grid[x][y]` succeeds iff both indices are in Python range; in bounds it is the cell |
| AStar.StartNode | code/pathfinding.py:43-45 | exists iff the start cell can be read; `g = 0`, no parent, `h = dist(start, goal)`, `cost = min(cell, 10)`, finite |
| AStar.OpenEmpty | code/pathfinding.py:46 | the dictionary is empty exactly when its key order is |
| AStar.Values | code/pathfinding.py:47 | `open.values()` lists the nodes in key insertion order |
| AStar.Priority | code/pathfinding.py:47 | the sort key `g + h + cost`: infinite exactly when g or cost is, otherwise the real sum |
| AStar.FirstMin | code/pathfinding.py:47 | the chosen node has least `g + h + cost`, and every earlier one is strictly greater (stable sort) |
| AStar.Without | code/pathfinding.py:48 | the key order without p holds exactly the other keys |
| AStar.WithoutDistinct | code/pathfinding.py:48 | removing a key keeps the order duplicate-free |
| AStar.Remove | code/pathfinding.py:48 | `open.pop` removes exactly that key and keeps the dictionary well formed |
| AStar.Put | code/pathfinding.py:72 | `open[k] = n` keeps the position of an existing key, appends a new one |
| AStar.RelaxOne | code/pathfinding.py:60-72 | closed neighbours skipped; new g is the min of old g and `current.g + dist + current.cost`; a strict decrease sets the parent to current; otherwise open is unchanged |
| AStar.RelaxAll | code/pathfinding.py:59-72 | the inner loop as a fold over the neighbours: keeps the dictionary well formed and drops no open key |
| AStar.RelaxAllFacts | code/pathfinding.py:59-72 | after the loop the open keys are the old ones plus the non-closed neighbours (when current's cost is finite); each node is old or reached through current |
| AStar.RelaxOneFacts | code/pathfinding.py:60-72 | one pass adds q exactly when it is not closed and current's cost is finite |
| AStar.RelaxAllLowers | code/pathfinding.py:69-72 | relaxation never raises any g |
| AStar.RelaxNeighbors | code/pathfinding.py:59-72 | the for loop computes the relaxation fold over `get_neighbors` |
| AStar.InvInit | code/pathfinding.py:41-45 | the initial dictionaries satisfy the loop invariant |
| AStar.ParentOkGrow | code/pathfinding.py:58 | closing a node keeps every parent link valid |
| AStar.CloseNode | code/pathfinding.py:58 | closing a node keeps closed nodes well linked, ranks parents before children and grows closed by one |
| AStar.ExpandedKeys | code/pathfinding.py:48-72 | after an iteration open and closed stay disjoint (a closed cell never reopens) and the start stays closed or open |
| AStar.ExpandedNodes | code/pathfinding.py:58-72 | after an iteration every open node has finite g, its cell cost and a closed, adjacent, passable parent |
| AStar.RelaxedNodeOk | code/pathfinding.py:69-72 | a relaxed node has finite g, its cell cost and a valid parent |
| AStar.ExpandedFrontier | code/pathfinding.py:58-72 | every cell next to a passable closed cell is closed or open |
| AStar.InvStep | code/pathfinding.py:46-72 | one non-goal iteration keeps the whole invariant and moves one cell from open to closed |
| AStar.ClosedCount | code/pathfinding.py:46-58 | closed cells, all in the grid or the start, are at most rows × cols + 1 |
| AStar.RouteInside | code/pathfinding.py:46-74 | a set closed under passable steps that holds the start holds every reachable cell |
| AStar.Reverse | code/pathfinding.py:55 | `path.reverse()` reverses index by index |
| AStar.Reconstruct | code/pathfinding.py:51-56 | walking parents from the goal terminates and yields a route from the start to the goal |
| AStar.PickOpen | code/pathfinding.py:47-48 | the selected node is the open node under its own point |
| AStar.FoundExit | code/pathfinding.py:50-56 | at the goal the parent walk's preconditions hold and the loop bound is kept |
| AStar.NoPathExit | code/pathfinding.py:46-74 | when open empties the goal is unreachable |
| AStar.Search | code/pathfinding.py:31-74 | IndexError iff the start cell cannot be read; a found path is a route start→goal of 4-adjacent steps; "Oh no" iff the goal is unreachable; at most rows × cols + 1 iterations |

## Left out

- Floating point: `math.sqrt` and float rounding are not modelled. Distances are an abstract real
  function and sums are exact.
- `print` and the `__main__` demos (`code/d_star.py:138`, `code/d_star.py:159-168`,
  `code/pathfinding.py:77-85`) are I/O.
- The order inside the D\* queue list, as `heapq` and `list.sort` arrange it, is not modelled. Only the
  minimum entry is ever observed.
- The unused `old_costs` field (`code/d_star.py:25`, `code/d_star.py:38`) is written and never read.
- The exception at `code/d_star.py:86`: concatenating a string and a tuple would itself raise
  `TypeError`. The model reports the failure as `ok = false` without naming the exception.
- The grid for `update_costs` is a numpy array. `UpdateCosts` requires the old grid's shape. Shapes
  numpy would broadcast against it are not modelled, and other shapes make numpy raise.
- DStar.Navigator.ComputeShortestPath: termination is not proved (the source has no decreasing
  measure); a fuel bound stops the loop, and running out is reported as `done = false`.
- DStar.Navigator.ExtractPath: termination of the greedy walk is not proved; a fuel bound stops it
  and running out is reported as `Exhausted`.
- DStar.Navigator.UpdateCosts: it does not promise the full D\* Lite rhs invariant afterwards, because
  the code updates the changed cells and not their neighbours (see above).
- AStar.Search: optimality of the returned path is not claimed. The choice of the least
  `g + h + cost` is proved (`FirstMin`), but not that the first path found is the cheapest.
- DStar.Navigator.Initialize requires a rectangular grid. For a ragged list of lists the source's
  `travel_cost` (`code/d_star.py:61`) could raise `IndexError` on a short row, while the model reads
  such a cell as an obstacle; ragged grids are not modelled.
- DStar.Navigator.FindPath requires a rectangular grid on every call, also on a new goal where no
  subtraction happens, for the same reason as `Initialize`.
- DStar.Navigator.UpdateCosts: the source keeps a reference to the caller's grid (`self.costs = costs`,
  `code/d_star.py:37`, `code/d_star.py:112`), not a copy. A caller that edits that array in place and
  passes it again makes `(self.costs - costs).nonzero()` empty, so no cell is updated. The model
  holds grids as values and compares against the previous contents, that is, it takes every call to
  pass a grid the navigator does not share.
- AStar.Search requires a rectangular grid (the docstring says a numpy matrix). A ragged list of lists
  is not modelled.
- The docstring of `astar` calls `None` an obstacle, but the code cannot handle one. A `None` start cell
  makes `min(None, 10)` raise `TypeError` (`code/pathfinding.py:43`). A `None` neighbour cell is read
  (`code/pathfinding.py:64-65`) and stored in `open` (`code/pathfinding.py:72`), and the sort key
  `node.g + node.h + node.cost` (`code/pathfinding.py:47`) then raises `TypeError` on the next
  iteration. Obstacles are therefore modelled as infinite costs.
- Node objects in `astar` are values. Aliasing between a node in `open` and the variable `neighbor` is
  written back explicitly.
- `Node.__eq__` (`code/pathfinding.py:12-13`) is never called by the search, which compares points.
- `code/perception.py` and `code/decision.py` are not part of this model: image processing
  and simulator control.
