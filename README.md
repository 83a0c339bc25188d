# CityGrid in Dafny

A model of the core of `CityGrid` (`test_assignment/city_grid.py`): a city of
`n x m` blocks, each Empty, Blocked, Signal or Tower; the placement of a
tower with its square coverage window; the greedy optimiser that chooses
tower locations among the Blocked blocks; and the search for the most
reliable (fewest-hop) route between two towers.

The source is imperative, and so is the model:

- `City.CityGrid` is a class with `n`, `m` and the grid as an `array2<Cell>`.
  `PlaceTower` updates the array in place with the same nested loops as
  `place_tower`.
- `optimize_towers` keeps its scratch `covered` matrix as an `array2<bool>`.
  Its inner helpers `update_coverage` and `get_coverage_count` are methods
  with loops; `can_place_tower` is the predicate `CanPlaceTower`. The
  `while True` loop with its row-major scan is `SelectTowers`,
  `FindBestLocation` and `ScanRow`, and the closing pass is `PlaceTowers`.
- `find_most_reliable_path` builds the range graph as a `map` filled by two
  loops. It runs the breadth-first search over a queue (a `seq`), with the
  `visited` and `parents` dictionaries as maps. It then rebuilds the path by
  following parent links.

Each method is proved against specification functions in two modules:

- `Coverage` holds:
  - `InWindow` and `Window`, the clipped window;
  - `PlaceCell` and `PlaceAll`, the effect of `place_tower` and of the
    placement pass;
  - `Gain`, the count `get_coverage_count` computes;
  - `IsFirstBest`, `Exhausted`, `GreedySteps` and `IsGreedyRun`, the choice
    the scan makes and the complete greedy selection.
- `RangeGraph` holds:
  - `InRange`, `Neighbours` and `Adjacent`, the range graph;
  - `IsWalk` and `IsWalkBetween`, walks in that graph;
  - the invariants of the search: `ParentTree`, `Marks`, `Expanded`,
    `Layered`, `SearchState` and `Discovering`.

Two ghost values describe the search and are not part of the computed
state:

- `dist` maps every reached tower to its number of hops from start along
  the parent chain. Its keys are the reached towers.
- `done` is the set of towers already dequeued and expanded.

The main results:

- `OptimizeTowers` returns the unique greedy run over the blocks that were
  Blocked on entry. The towers are distinct Blocked blocks, at most `n * m`
  of them, and none exactly when `R < 0` or nothing is Blocked. The grid
  afterwards is the entry grid with `place_tower` applied for each tower in
  turn.
- `FindMostReliablePath` returns a walk from start to end that is no longer
  than any other walk between them. It returns `[]` exactly when no walk
  exists, and `[start]` when start is end.

Behaviour of the code worth knowing before reading the model:

- `place_tower` spares only Blocked blocks (`city_grid.py:61`). A tower
  placed earlier that lies inside the window of a later tower is
  overwritten with Signal. `Coverage.EarlierTowerOverwritten` exhibits the
  overwrite.
- Nothing checks for a negative radius. With `R < 0` every window is empty
  (`city_grid.py:57-58` and `79-80`), so `optimize_towers` returns `[]` and
  leaves the grid as it was (`City.CityGrid.OptimizeTowers`,
  `Coverage.GreedyRunEmpty`).
- A start or end that is not a tower raises `KeyError` from a dictionary
  lookup: `graph[current]` at `city_grid.py:144` when start is expanded,
  `parents[end]` at `city_grid.py:154` otherwise. The model makes
  membership a precondition.

## Model

| member | source | states |
|---|---|---|
| City.CityGrid.constructor | test_assignment/city_grid.py:18-20 | a new city has the given size and every block Empty |
| City.CityGrid.PopulateStep | test_assignment/city_grid.py:33-38 | one draw of the blocking loop: the drawn block becomes Blocked and counts exactly when it was Empty; no other block changes; the set of Blocked blocks grows by that block and its size by one |
| City.CityGrid.PlaceTower | test_assignment/city_grid.py:57-62 | every block ends up as `PlaceCell` says: the centre Tower, the other non-Blocked blocks of the clipped window Signal, everything else unchanged |
| Coverage.PlaceTowerEffect | test_assignment/city_grid.py:57-62 | for an in-grid block and by Chebyshev distance: an in-grid centre with R >= 0 becomes Tower; other non-Blocked blocks within distance R become Signal; Blocked blocks other than the centre stay Blocked; blocks farther than R keep their state |
| Coverage.PlaceCell | test_assignment/city_grid.py:59-62 | the new state of one block after place_tower: it never becomes Blocked unless it was; it changes only inside the window, and then to Tower or Signal; it becomes Tower only if it is the centre or already was one |
| Coverage.PlaceCellIdempotent | test_assignment/city_grid.py:57-62 | placing the same tower twice leaves every block as placing it once |
| Coverage.WindowIsClippedSquare | test_assignment/city_grid.py:57-58 | the loop bounds `max(0, x - R) .. min(n, x + R + 1)` select exactly the in-grid blocks within Chebyshev distance R of the centre; the window is empty for R < 0 |
| Coverage.WindowInGrid | test_assignment/city_grid.py:57-58 | the window lies inside the grid |
| Coverage.EarlierTowerOverwritten | test_assignment/city_grid.py:59-62 | on a 1 x 2 grid with radius 1, the tower placed first at (0, 0) becomes Signal once the tower at (0, 1) is placed, and (0, 1) is Tower |
| City.CityGrid.UpdateCoverage | test_assignment/city_grid.py:77-81 | afterwards a block is covered exactly when it was covered before or lies in the clipped window |
| City.CityGrid.CanPlaceTower | test_assignment/city_grid.py:73-75 | a tower may go on (x, y) exactly when that block is one of the Blocked blocks |
| City.CityGrid.GetCoverageCount | test_assignment/city_grid.py:83-90 | the count is the gain of (x, y): the number of blocks of its clipped window that are not covered, Blocked ones included |
| City.CityGrid.CountUncoveredInRow | test_assignment/city_grid.py:87-89 | the number of uncovered blocks of one row of the window, as `CountRow` defines it |
| Coverage.CountRowUncovered | test_assignment/city_grid.py:87-89 | the row count equals the size of the uncovered part of that row segment |
| Coverage.CountRectUncovered | test_assignment/city_grid.py:86-89 | the nested count equals the size of the uncovered part of the rectangle |
| Coverage.GainCountsUncovered | test_assignment/city_grid.py:83-90 | the gain is the number of uncovered blocks of the window |
| Coverage.GainZeroIffCovered | test_assignment/city_grid.py:83-90 | the gain is 0 exactly when the whole window is covered |
| Coverage.CoveredByWindows | test_assignment/city_grid.py:77-81 | after update_coverage for each selected tower, each of their windows is covered and nothing outside the grid is |
| City.CityGrid.ScanRow | test_assignment/city_grid.py:97-102 | scanning row x keeps the choice the first Blocked block with the largest positive gain seen so far, and no Blocked block before the end of the row has a larger gain |
| Coverage.ScanStart | test_assignment/city_grid.py:93-94 | before the scan, no choice and a maximum of 0 describe the blocks scanned |
| Coverage.ScanSkip | test_assignment/city_grid.py:98-100 | a block that is not Blocked, or whose gain is not strictly larger, leaves the choice alone |
| Coverage.ScanTake | test_assignment/city_grid.py:98-102 | a Blocked block with a strictly larger gain becomes the choice and its gain the maximum |
| Coverage.ScanNextRow | test_assignment/city_grid.py:96-97 | the end of row x is the start of row x + 1 in row-major order |
| Coverage.ScanDone | test_assignment/city_grid.py:96-105 | after the last row, a choice is the first best location and no choice means no Blocked block has positive gain |
| City.CityGrid.FindBestLocation | test_assignment/city_grid.py:93-105 | the scan returns the first Blocked block in row-major order whose gain is positive and maximal; None exactly when every Blocked block has gain 0 |
| Coverage.FirstBestUnique | test_assignment/city_grid.py:96-102 | there is at most one first best location for a given coverage |
| City.CityGrid.SelectTowers | test_assignment/city_grid.py:70-108 | the selection loop returns a complete greedy run over the Blocked blocks: each tower is the scan's choice after its predecessors are covered, and afterwards no Blocked block has positive gain |
| Coverage.GreedyStepsExtend | test_assignment/city_grid.py:107-108 | appending the scan's choice keeps the run greedy and adds exactly its window to what is covered |
| Coverage.PositiveGainShrinksUncovered | test_assignment/city_grid.py:100-108 | a choice of positive gain strictly shrinks the uncovered part of the grid, so the loop terminates |
| Coverage.GreedyStepAt | test_assignment/city_grid.py:92-108 | every prefix of a greedy run is greedy, and its k-th tower is the first best location after the first k are covered |
| Coverage.GreedyStepsDistinct | test_assignment/city_grid.py:92-108 | a greedy run has no duplicate towers |
| Coverage.GreedyStepsBounded | test_assignment/city_grid.py:92-108 | a greedy run has at most as many towers as covered blocks, and at most n * m |
| Coverage.GreedyStepsAgree | test_assignment/city_grid.py:92-108 | two greedy runs agree on their common prefix |
| Coverage.GreedyRunUnique | test_assignment/city_grid.py:92-108 | two complete greedy runs over the same Blocked blocks are equal |
| Coverage.GreedyRunEmpty | test_assignment/city_grid.py:92-105 | a complete run is empty exactly when R < 0 or no block is Blocked |
| City.CityGrid.PlaceTowers | test_assignment/city_grid.py:110-111 | every block ends up as `PlaceAll` says: `place_tower` applied for each tower in order |
| Coverage.PlaceAllNeverBlocks | test_assignment/city_grid.py:61-62 | the placement pass never makes a block Blocked |
| Coverage.PlaceAllCovers | test_assignment/city_grid.py:110-111 | a block inside some placed tower's window is not Empty afterwards, and if it was not Blocked it is Signal or Tower |
| Coverage.PlaceAllKeepsBlocked | test_assignment/city_grid.py:110-111 | a Blocked block that is not a placed tower stays Blocked |
| Coverage.PlaceAllOutside | test_assignment/city_grid.py:110-111 | a block outside every placed tower's window keeps its state |
| Coverage.PlaceAllTowersArePlaced | test_assignment/city_grid.py:110-111 | a block that ends up Tower was Tower before or is a placed tower |
| Coverage.PlaceAllLastIsTower | test_assignment/city_grid.py:110-111 | the last tower placed, in the grid and with R >= 0, ends up Tower |
| City.CityGrid.OptimizeTowers | test_assignment/city_grid.py:64-113 | the towers are the greedy run over the blocks Blocked on entry; they were Blocked, are distinct, at most n * m, empty exactly when R < 0 or nothing is Blocked (then the grid is unchanged); the grid is the entry grid with the placement pass applied |
| RangeGraph.InRangeSymmetric | test_assignment/city_grid.py:125-126 | in_range does not depend on the order of the two towers |
| RangeGraph.InRangeExample | test_assignment/city_grid.py:125-126 | (0, 0) and (3, 3) are in range for R = 1 and not for R = 0 |
| RangeGraph.InRange | test_assignment/city_grid.py:125-126 | the bounding-box test: false for every pair when R < 0, and a tower is in range of itself exactly when R >= 0 |
| City.CityGrid.BuildRangeGraph | test_assignment/city_grid.py:129-133 | the graph has a key for exactly the towers, and each maps to its neighbour list in tower order |
| City.CityGrid.ListNeighbours | test_assignment/city_grid.py:131-133 | the inner loop lists the neighbours of one tower in tower order |
| RangeGraph.NeighboursTake | test_assignment/city_grid.py:131-133 | scanning one more tower appends it to the list exactly when it is another tower in range |
| RangeGraph.NeighboursAreInRange | test_assignment/city_grid.py:129-133 | a tower is listed under t exactly when it is a tower other than t and in range of t |
| RangeGraph.GraphSymmetric | test_assignment/city_grid.py:129-133 | the range graph has no self-edges and is symmetric |
| RangeGraph.NoWalkBetweenFarTowers | test_assignment/city_grid.py:125-133 | with two towers out of range of each other, every walk from the first stays at the first |
| City.CityGrid.StartSearch | test_assignment/city_grid.py:135-138 | the queue holds start alone, only start is visited, no tower has a parent, and the search state holds |
| RangeGraph.SearchStart | test_assignment/city_grid.py:135-138 | the initial queue, marks and parents satisfy the search state with start at hop 0 |
| RangeGraph.SearchFront | test_assignment/city_grid.py:140-141 | the front of the queue is reached, the rest of the queue lies within one hop of it, and no reached tower is more than one hop farther |
| City.CityGrid.Discover | test_assignment/city_grid.py:145-148 | a neighbour not yet visited is marked, gets the current tower as parent, is one hop farther and joins the queue; a visited one changes nothing; both keep the inner-loop invariant |
| RangeGraph.DiscoverStart | test_assignment/city_grid.py:144 | before the first neighbour the inner-loop invariant holds |
| RangeGraph.DiscoverNew | test_assignment/city_grid.py:145-148 | discovering a new neighbour keeps the parent tree, the marks, the layering of the queue and the record of what was reached |
| RangeGraph.ParentTreeAdd | test_assignment/city_grid.py:146-147 | giving an unreached neighbour the current tower as parent, one hop farther, keeps the parent tree |
| RangeGraph.MarksAdd | test_assignment/city_grid.py:146 | marking the new tower visited keeps visited equal to reached |
| City.CityGrid.ExpandTower | test_assignment/city_grid.py:144-148 | after the inner loop every neighbour of the current tower is reached, and the inner-loop invariant holds |
| RangeGraph.SearchStep | test_assignment/city_grid.py:140-148 | dequeuing a front that is not end and expanding it keeps the search state, with the front now done |
| RangeGraph.StillQueued | test_assignment/city_grid.py:141-148 | after a round every reached tower is done, the dequeued front, or still queued |
| City.CityGrid.ExpandFront | test_assignment/city_grid.py:140-148 | one round dequeues the front, which joins the done towers, and keeps the rest of the queue as a prefix of the new one; the search state holds; the number of unreached towers never grows, and it shrinks unless the queue got shorter |
| RangeGraph.FrontierBound | test_assignment/city_grid.py:140-148 | while the search runs, a walk from start is no shorter than the hop count of a reached tower it ends at, and longer than the current layer if it ends at an unreached tower |
| RangeGraph.SearchFound | test_assignment/city_grid.py:142-143 | when end is dequeued, its hop count is at most the length of every walk from start to end |
| RangeGraph.SearchExhausted | test_assignment/city_grid.py:140 | when the queue runs dry, end was not reached and no walk joins start to end |
| RangeGraph.ClosedReach | test_assignment/city_grid.py:140-148 | when the reached towers are closed under the graph's edges, every walk from start ends at a reached tower |
| RangeGraph.SearchConcludes | test_assignment/city_grid.py:140-143 | when the loop stops, the parents form a shortest-hop tree, and end is reached at its least walk length or not reachable at all |
| City.CityGrid.BreadthFirstSearch | test_assignment/city_grid.py:135-148 | the parent links form a tree of hop counts from start; a reached end has a hop count no larger than any walk to it; an unreached end has no walk |
| City.CityGrid.ReconstructPath | test_assignment/city_grid.py:151-157 | when end was reached, the path is a walk from start to end with its hop count plus one towers; otherwise it is `[]` |
| City.CityGrid.FindMostReliablePath | test_assignment/city_grid.py:115-157 | a non-empty result is a walk from start to end no longer than any other; `[]` only when no walk exists; `[start]` when start is end |
| City.CityGrid.FindMostReliablePathExample | test_assignment/city_grid.py:115-157 | towers (0, 0) and (3, 3) are joined directly for R = 1 and not at all for R = 0 |

## Left out

- `populate_blocked_areas` (lines 23-38) draws random blocks until a count computed with floating point is reached. The model has one draw, with the coordinates as parameters, as `PopulateStep`. The count and the retry loop are not modelled, and the optimiser takes any grid as input.
- `display_grid` and `visualize_city` only print or plot. `test_assignment/main.py` is glue that calls them. None of them is part of this model.
- The constants module that gives the block states their values is not part of this model; the states are an enumeration.
- City.CityGrid.FindMostReliablePath: requires start and end to be towers, where the code raises `KeyError` from a dictionary lookup. The same holds for `BreadthFirstSearch` and `ReconstructPath`.
- City.CityGrid.FindMostReliablePath: requires a duplicate-free tower list, where the code lets duplicate coordinates collapse into one dictionary key. The same holds for `BuildRangeGraph`.
- City.CityGrid.FindMostReliablePath: the contract says the result is a shortest walk but not which one when several are equally short. The code returns the one given by each tower's first discoverer, in tower order, and the model computes that same path, but no contract states the choice.
- The deque is a sequence and `popleft` takes its head. The path is built by prepending instead of appending and reversing, which gives the same list.
- `visited` and `parents` are maps over the towers. The hop counts and the set of expanded towers exist only as ghost values in the proofs.
