# A* grid pathfinder — a Dafny model

This project models the search core of a small interactive A* pathfinder, `astar/astar.py`. The user paints a square grid of cells. Barriers are black, the start cell is orange and the end cell is turquoise. The program then looks for a shortest 4-connected path between start and end. While it runs it colours cells:

- red for cells it has checked (expanded);
- purple for cells that are available (queued);
- green for the path it finds.

The model has three modules, one per file:

- `grid.dfy` (module `Grid`) is the grid graph.
  - `Heuristic` is the Manhattan distance.
  - The class `Node` is a cell. It has immutable `row`, `col` and `totalRows`, and the two fields the program updates in place: `color` and `neighbors`. Each role setter has a role predicate paired with it. `UpdateNeighbors` rebuilds the neighbour list in the order down, up, right, left.
  - `MakeGrid` builds the grid.
  - `GetClickedPos` maps a pixel to a cell.
  - `UpdateAllNeighbors` is the neighbour refresh that runs before a search.
- `openset.dfy` (module `OpenSet`) is the priority queue of `(f, count, node)` entries. It is a class over a sequence. `Get` removes an entry with the lexicographically smallest `(f, count)`.
- `search.dfy` (module `Search`) is `algo` and `reconstruct_path`.
  - The `g_score`, `f_score` and `came_from` dictionaries are the datatype `Scores`, maps keyed by cells. `float("inf")` is the constructor `Inf` of `Cost`.
  - Relaxing one edge is the function `Relax`; relaxing a whole neighbour list is `RelaxAll`.
  - The imperative loop is a chain of methods, each proved against those functions:
    - `Algo` calls `Init`, then `Run`.
    - `Run`'s `while` loop calls `Iterate` once per pass.
    - `Iterate` calls `Pop`, then either `Finish` (which calls `ReconstructPath`) or `Round`.
    - `Round` calls `Expand` (a `for` loop over `Visit`), then `Close`.

`Run` keeps one loop invariant, `Searching`. It says:

- Every `came_from` link goes to a neighbour of strictly lower cost.
- `g[start]` stays 0 and start never gets a `came_from` entry.
- The queued-cell set `open_set_hash` is exactly the set of cells with a queue entry.
- Queue counts are distinct and increase along the queue.
- Every queued cell has a finite cost.
- Every neighbour of an expanded cell has a finite cost.
- Every cell with a finite cost is expanded or queued.
- Every expanded cell has a finite cost.

Termination is measured by the number of unreached cells, then the sum of finite costs, then the queue length.

The results of `Algo` are stated in the grid's own terms:

- On success, `path` is a walk through neighbour lists from start to end in unit steps, and no cell past start is a barrier. The inner path cells are green and end is turquoise. Start is orange, unless start is end, in which case that one cell ends turquoise. Every other cell is purple, red or untouched according to whether it is queued, expanded or neither.
- On failure, every walk from start through neighbour lists ends at an expanded cell, so none reaches end. The expanded cells other than start are red, and every other cell keeps its colour.
- Either way, every expanded or queued cell is the last cell of a walk from start through neighbour lists, and none of them other than start was a barrier. So on failure the expanded cells are exactly the cells reachable from start, and only those turn red.

Where the prose description of the program and the code disagree, the model follows the code:

- The start cell is queued with priority 0, not with its f score (`astar/astar.py:123`), so `Init` queues `Entry(0, 0, start)`.
- There is no staleness check when an entry is popped. A cell whose queued entry is out of date, or a cell popped a second time, is expanded again.
- There is no cancellation outcome. The search returns only found or not found.

## Model

| member | source | states |
|---|---|---|
| Grid.Heuristic | astar/astar.py:105-111 | the distance is 0 exactly when the two positions are equal, and at least each coordinate difference |
| Grid.HeuristicSymmetric | astar/astar.py:105-111 | the Manhattan distance is symmetric |
| Grid.HeuristicTriangle | astar/astar.py:105-111 | the Manhattan distance satisfies the triangle inequality |
| Grid.HeuristicConsistent | astar/astar.py:105-111 | across one unit step the estimate to any goal changes by at most one (the heuristic is consistent) |
| Grid.Node.constructor | astar/astar.py:24-35 | a new cell has the given row, col and row count, colour white and no neighbours |
| Grid.Node.GetPos | astar/astar.py:37-38 | a cell's position is its (row, col); both are constants, so the position never changes while the cell is recoloured or relinked |
| Grid.Node.Checked | astar/astar.py:41-42 | holds exactly when the cell is red; SetChecked makes it hold and every other setter makes it fail |
| Grid.Node.Available | astar/astar.py:44-45 | holds exactly when the cell is purple; SetAvailable makes it hold and every other setter makes it fail |
| Grid.Node.Barrier | astar/astar.py:47-48 | holds exactly when the cell is black; SetBarrier makes it hold and every other setter makes it fail |
| Grid.Node.IsStart | astar/astar.py:50-51 | holds exactly when the cell is orange; SetStart makes it hold and every other setter makes it fail |
| Grid.Node.IsEnd | astar/astar.py:53-54 | holds exactly when the cell is turquoise; SetEnd makes it hold and every other setter makes it fail |
| Grid.Node.SetChecked | astar/astar.py:59-60 | the cell becomes red; checked holds and the other four role predicates fail |
| Grid.Node.SetAvailable | astar/astar.py:62-63 | the cell becomes purple; available holds and the other four role predicates fail |
| Grid.Node.SetBarrier | astar/astar.py:65-66 | the cell becomes black; barrier holds and the other four role predicates fail |
| Grid.Node.SetStart | astar/astar.py:68-69 | the cell becomes orange; start holds and the other four role predicates fail |
| Grid.Node.SetEnd | astar/astar.py:71-72 | the cell becomes turquoise; end holds and the other four role predicates fail |
| Grid.Node.SetPath | astar/astar.py:74-75 | the cell becomes green and none of the five role predicates holds |
| Grid.Node.Reset | astar/astar.py:77-78 | the cell becomes white and none of the five role predicates holds |
| Grid.Node.UpdateNeighbors | astar/astar.py:85-97 | the cell's neighbour list becomes OpenNeighbors of its position |
| Grid.OpenNeighbors | astar/astar.py:85-97 | the neighbour list computed for a position, from the current colours; what it holds and in which order is stated by OpenNeighborsMember and OpenNeighborsSpec |
| Grid.OpenNeighborsMember | astar/astar.py:85-97 | a cell is in the neighbour list exactly when it is in the grid, not a barrier, and at Manhattan distance 1 |
| Grid.OpenNeighborsSpec | astar/astar.py:85-97 | the neighbour list has at most 4 cells, holds exactly the in-grid non-barrier cells at distance 1, and lists them strictly in the order down, up, right, left |
| Grid.FreshCellSound | astar/astar.py:85-97 | every cell in a freshly computed neighbour list is in the grid, not a barrier, and one unit step away |
| Grid.UpdateRow | astar/astar.py:251-253 | every cell of row i gets its fresh neighbour list; no other row's lists change |
| Grid.UpdateAllNeighbors | astar/astar.py:251-253 | after the nested loop, every cell of the grid holds its fresh neighbour list |
| Grid.FreshIsSound | astar/astar.py:251-253 | once every list is fresh, every listed neighbour is an in-grid non-barrier cell at distance 1 |
| Grid.MakeGrid | astar/astar.py:173-184 | builds a rows x rows grid in which grid[i][j] is a fresh white cell at (i, j) with row count rows and no neighbours |
| Grid.GetClickedPos | astar/astar.py:202-209 | the pixel lies inside the returned cell's square of side winWidth / rows |
| Grid.ClickInGrid | astar/astar.py:202-209 | a pixel inside the area the cells cover maps to a cell inside the grid |
| OpenSet.KeyLe | astar/astar.py:141 | the queue's order on entries: lexicographic on (f, count), as tuple comparison orders the entries |
| OpenSet.KeyOrder | astar/astar.py:141 | KeyLe is reflexive, total and transitive, and two entries are equivalent under it exactly when f and count both agree |
| OpenSet.MinAt | astar/astar.py:141 | returns a position in the queue whose (f, count) key is at most every entry's key |
| OpenSet.MinUnique | astar/astar.py:120 | with distinct counts, an entry whose key is at most every other key is the one MinAt picks |
| OpenSet.PriorityQueue.constructor | astar/astar.py:122 | a new queue is empty |
| OpenSet.PriorityQueue.Empty | astar/astar.py:136 | holds exactly when the queue has no entries; the search loop runs while it fails, and Get's requires is its negation |
| OpenSet.PriorityQueue.Put | astar/astar.py:123 | the entry is added to the queue's contents |
| OpenSet.PriorityQueue.Get | astar/astar.py:141 | removes and returns an entry whose (f, count) key is at most every key; the other entries stay, in order |
| Search.Relax | astar/astar.py:151-156 | changes maps only on a strict improvement; then nb gets current as came_from, cost g[current] + 1 and f = g + h; no other entry changes and no cost goes up |
| Search.RelaxKeepsEstimates | astar/astar.py:151-156 | relaxing an edge keeps f = g + heuristic for every cell |
| Search.RelaxKeepsTree | astar/astar.py:151-156 | relaxing a neighbour edge keeps the search tree: g[start] = 0, start has no came_from, every link goes to a cheaper neighbour, and every reached cell other than start has a link |
| Search.RelaxAll | astar/astar.py:150-156 | relaxing the whole list keeps the key sets and g[current]; no cost goes up; cells outside the list keep their cost; every listed neighbour ends with a finite cost |
| Search.RelaxAllKeepsTree | astar/astar.py:150-156 | relaxing every listed neighbour edge keeps the search tree invariant |
| Search.RelaxAllKeepsEstimates | astar/astar.py:150-156 | relaxing every listed edge keeps f = g + heuristic |
| Search.PathTo | astar/astar.py:113-115 | the cells visited by following came_from back from a reached cell, listed from the first to that cell; PathToSpec and PathToLinks state what it holds |
| Search.PathToSpec | astar/astar.py:113-115 | following came_from back from a reached cell ends at start through reached cells of strictly lower cost; each cell is its successor's came_from and each step is a neighbour edge |
| Search.PathToLinks | astar/astar.py:113-115 | the came_from walk ends at the given cell, starts at a cell with no came_from, and links each cell to its predecessor |
| Search.ReconstructPath | astar/astar.py:113-117 | exactly the strict came_from ancestors of current become green; every other cell keeps its colour |
| Search.LowerOne | astar/astar.py:151-155 | lowering one cost never raises the (unreached count, cost sum) measure, and lowers it when the cell is listed |
| Search.GetKeepsQueue | astar/astar.py:141-142 | taking an entry out of the queue and its cell out of open_set_hash keeps queue and set in agreement |
| Search.PutKeepsQueue | astar/astar.py:158-161 | pushing a cell that is not pending, with the incremented count, keeps queue and set in agreement with distinct increasing counts |
| Search.QueueAgreesLower | astar/astar.py:151-156 | lowering costs keeps every queued cell reached |
| Search.AfterVisit | astar/astar.py:151-162 | one neighbour pass relaxes the edge as Relax does |
| Search.AfterExpand | astar/astar.py:150-162 | the neighbour loop relaxes the edges as RelaxAll does |
| Search.AfterVisitAdvances | astar/astar.py:151-162 | one neighbour pass keeps the queue invariant and never re-queues current; every newly queued cell got strictly cheaper and every newly reached cell is queued; beyond that, the state is unchanged or the termination measure decreased |
| Search.VisitQueuedAdvances | astar/astar.py:151-157 | the same, for a pass that lowers the cost of a cell already queued |
| Search.VisitPushAdvances | astar/astar.py:151-162 | the same, for a pass that queues the improved cell with the next count |
| Search.AdvancesTrans | astar/astar.py:150-162 | two successive advancing passes advance |
| Search.AfterExpandAdvances | astar/astar.py:150-162 | the whole neighbour loop advances the frontier in the same sense |
| Search.Visit | astar/astar.py:151-162 | the imperative pass computes AfterVisit on the maps, the queue, open_set_hash and count, and paints a newly queued cell purple |
| Search.Expand | astar/astar.py:150-162 | the neighbour for-loop computes AfterExpand and keeps the colour invariant |
| Search.PathToFound | astar/astar.py:113-117 | the came_from walk from a reached end runs from start to end along neighbour edges, through non-barrier cells; its inner cells are strict ancestors other than start and end |
| Search.Finish | astar/astar.py:144-148 | on reaching end, the path found is painted green, then start becomes orange and end turquoise; every other cell keeps its search colour |
| Search.Close | astar/astar.py:166-167 | current becomes red unless it is start |
| Search.Popped | astar/astar.py:141-142 | taking an entry out shortens the queue by one and leaves the maps alone |
| Search.StepReady | astar/astar.py:141-150 | a popped cell is no longer queued, has a finite cost, and has only grid cells as neighbours |
| Search.StepKeeps | astar/astar.py:141-167 | a pass that does not stop keeps the loop invariant, with current added to the expanded cells and not queued |
| Search.StepKeepsTree | astar/astar.py:150-156 | expanding the popped cell keeps the search tree invariant |
| Search.StepLowers | astar/astar.py:136-162 | a pass that does not stop lowers the termination measure or leaves everything but the shorter queue as it was |
| Search.ExpandCloses | astar/astar.py:150-156 | after expansion, every neighbour of an expanded cell or of current has a finite cost |
| Search.ExpandCovers | astar/astar.py:150-161 | after expansion, every reached cell is expanded, current, or queued |
| Search.PaintedPop | astar/astar.py:141-142 | taking current out of open_set_hash keeps the colour invariant |
| Search.Pop | astar/astar.py:141-142 | removes a minimal-(f, count) entry from the queue and its cell from open_set_hash |
| Search.Round | astar/astar.py:150-167 | expanding and closing current keeps the loop and colour invariants, and lowers the measure or only shortens the queue |
| Search.Iterate | astar/astar.py:141-167 | the popped cell is the node of an entry at position k of the queue whose (f, count) key is at most every entry's key; the pass reports found exactly when that cell is end, and then the path and final colours hold, the search tree is intact and every expanded or queued cell has a finite cost; otherwise the loop invariant holds with the popped cell expanded and the termination measure decreases |
| Search.SearchExhausted | astar/astar.py:169 | when the queue is empty, open_set_hash is empty, start is expanded and end is not, expanded cells are closed under neighbours, the final colours hold, and every expanded cell is reachable from start along neighbour edges and is start or was not a barrier |
| Search.Run | astar/astar.py:136-169 | the while loop returns true with a path found from start to end and the final colours, or false with the expanded cells closed under neighbours and not holding end; either way every expanded or queued cell is reachable from start along neighbour edges and is start or was not a barrier; the neighbour lists are untouched |
| Search.SearchSetup | astar/astar.py:251-257 | sound neighbour lists give the facts the search relies on: neighbours are in the grid, not barriers, and one unit step away |
| Search.InitialSearching | astar/astar.py:120-134 | the initial maps, the queue holding (0, 0, start), and {start} satisfy the loop invariant with nothing expanded |
| Search.WalkAgrees | astar/astar.py:150 | while the neighbour lists are unchanged, walks through neighbour lists are exactly the walks along the recorded adjacency |
| Search.FoundWalk | astar/astar.py:144-148 | a path found is a walk along neighbour edges in unit steps |
| Search.AdjWalkStays | astar/astar.py:150-162 | a walk starting inside a set closed under the neighbour edges stays inside it |
| Search.ExpandReached | astar/astar.py:150-156 | relaxing current's edges keeps every expanded cell reached, and current is reached too |
| Search.PendingReached | astar/astar.py:158-161 | while the queue and open_set_hash agree, every cell of open_set_hash has a finite cost |
| Search.ReachedWalks | astar/astar.py:150-156 | every cell with a finite cost is a grid cell at the end of a walk along neighbour edges from start, and is start or was not a barrier when the search began |
| Search.ClosedWalks | astar/astar.py:169 | when the expanded cells are closed, every walk from start ends at an expanded cell other than end |
| Search.Init | astar/astar.py:120-134 | queue holds (0, 0, start) and count is 0; open_set_hash is {start}; every g and f is Inf except g[start] = 0 and f[start] = h(start, end); came_from is empty |
| Search.Algo | astar/astar.py:119-169 | true: a unit-step walk from start to end through neighbour lists and non-barrier cells, path colours, start and end restored, others purple/red/untouched. false: no walk from start reaches end, expanded cells red, others untouched. Both: every expanded or queued cell is the end of a walk from start and, unless it is start, was not a barrier, so on failure the expanded cells are exactly those reachable from start |

## Left out

- Rendering and windowing are not modelled: the colour constants' RGB values (`astar/astar.py:6-21`), `Nodes.draw`, `draw_grid_lines`, `draw`, and the pixel fields `x`, `y` and `win_width`. The `draw` callback that `algo` and `reconstruct_path` receive is a no-op here.
- `main` and its mouse and keyboard loop (`astar/astar.py:212-264`) are interactive I/O. Its one piece of search logic is refreshing every neighbour list, then calling `algo`. That is `UpdateAllNeighbors`, whose result `FreshIsSound` turns into the `NeighborsSound` precondition of `Algo`.
- The `pygame.event.get()` / `pygame.quit()` poll inside the search loop (`astar/astar.py:137-139`) is event I/O. A quit event calls `pygame.quit()`; the next `draw()` call (`astar/astar.py:164`, or `117` inside `reconstruct_path`) then raises, so the search ends with an exception. The model has no such outcome: its `draw` is a no-op and the search always runs to found or not found.
- `Nodes.__lt__` and the library `PriorityQueue` are replaced by the modelled queue. Counts are distinct (the `Searching` invariant, through `QueueAgrees`, which `PutKeepsQueue` preserves), so the comparison of two entries is decided by `(f, count)` and never reaches the nodes. `MinUnique` then picks out the one minimal entry.
- `float("inf")` is the `Inf` constructor of `Cost`. Costs are natural numbers, so floating point plays no part.
- Colours are a datatype with one constructor per role, so `BLUE == GREEN` at `astar/astar.py:14` is dropped. `BLUE` is never used.
- Grid.MakeGrid: requires `rows > 0`, because the source divides by `rows` (ZeroDivisionError at 0). Its `win_width` parameter only feeds the pixel fields, so it is left out.
- Grid.GetClickedPos: requires a cell width `winWidth / rows` above 0, because the source divides by it.
- Grid.Node.UpdateNeighbors: builds the list locally and stores it once, while the source appends to `self.neighbors` in place. Nothing runs in between, so the result is the same.
- OpenSet.PriorityQueue.Get: requires a non-empty queue, whereas the library call would block. The source only calls it after checking `empty()`.
- Search.Algo: requires `NeighborsSound(grid)`, which `main` establishes by refreshing every list first. It also requires start and end to be grid cells.
- Search.Run: the loop invariant does not carry f = g + heuristic. That is proved per relaxation (`RelaxKeepsEstimates`, `RelaxAllKeepsEstimates`). Queue priorities are also not tied to the f scores at push time.
- Search.Algo: optimality is not proved. The contract does not say the path found is a shortest one.
- Search.Algo: the search's reasoning works on a ghost snapshot of the neighbour lists. `algo` never changes them, and `Run` ensures they are unchanged.
