# PyMaze in Dafny

This project models the two step-at-a-time engines of PyMaze (`app.py`):

- `MazeBuilder`: a randomised depth-first carver. It knocks down one wall pair or backtracks one cell per `doStep`.
- `MazeSolver`: an incremental A*-style search. It closes one cell per `doStep` and relaxes that cell's open neighbours.

Both work on the shared wall map `Maze.grid`. It maps a cell `(col, row)` to four wall flags, indexed 0 = up, 1 = right, 2 = down, 3 = left.

Modules:

- `Grid` (`grid.dfy`): coordinates, directions, the wall map, the paired wall clearing of the `go_*` methods, and the `Maze` class.
- `Seqs` (`seqs.dfy`): the Python list operations the code relies on (`remove`, `reverse`) and facts about lists without repeats.
- `Builder` (`builder.dfy`):
  - the class `MazeBuilder`, whose fields are those of the source;
  - the pure state `BuildState` with `Step`, the specification of one `doStep`;
  - the builder invariant `Inv` and the lemmas that it is preserved.
- `Solver` (`solver.dfy`):
  - the datatype `Node` with `F()`;
  - the class `MazeSolver`, whose fields are those of the source;
  - the pure state `Search` with `Step`, the specification of one solver `doStep`;
  - the solver invariant `Inv`, the path functions and their lemmas.

Each class method is proved against the pure function of its state. `DoStep` ensures `State() == Step(old(State()), ...)`, and the lemmas about `Step` carry the promises:

- walls agree from both sides and only come down;
- `visited` has no repeats, and there is one carved wall pair fewer than visited cells;
- each builder step lowers the measure 2·(unvisited cells) + |q|;
- `openList` and `closedList` are disjoint and without repeats;
- every `H` is the Manhattan distance to the goal;
- every parent is adjacent, closed and one `G` lower, so the walks in `getSolution` and `buildTempSolution` terminate and yield paths through open walls.

A node's `Parent` is stored as the parent's coordinate (`Option<Coord>`), not as a reference to the parent's node object. This reads the same as the source because the parent is always closed (`ParentOk`), and closed nodes never change again (`StepClose`).

## Model

| member | source | states |
|---|---|---|
| Grid.Neighbour | app.py:89-92 | the cell one step away in any of the four directions is adjacent to the cell |
| Grid.Opposite | app.py:230-256 | the far side of wall `d` is another index, and stepping across it leads back to the cell |
| Grid.CarveWall | app.py:230-256 | clears exactly flag `d` of the cell and the opposite flag of its neighbour; every other flag and every key keeps its value |
| Grid.CarveKeepsConsistent | app.py:230-256 | after a carve, the wall between any two grid cells still reads the same from both sides |
| Grid.Maze.constructor | app.py:160-169 | a new maze has an empty wall map and no solution |
| Seqs.RemoveFirst | app.py:115 | `list.remove` needs the element to be present (Python raises `ValueError` otherwise); it drops exactly its first occurrence and shifts the rest down |
| Seqs.RemoveFirstDistinct | app.py:115 | on a list without repeats, removal leaves exactly the other elements, still without repeats |
| Seqs.Reverse | app.py:144 | the reversed list has the same length and holds element `|s|-1-i` at index `i` |
| Seqs.ReverseDistinct | app.py:144 | reversal keeps the elements and the absence of repeats |
| Builder.CandidatesFrom | app.py:261-278 | from direction `d` on, a direction is listed iff it is at least `d`, the current cell's wall there is up and the cell behind it is in the grid and not visited; the list is strictly increasing |
| Builder.Candidates | app.py:261-278 | direction `d` is listed iff the current cell's wall `d` is up and the cell behind it is in the grid and not visited; the list is increasing |
| Builder.Carve | app.py:230-256 | a forward move keeps the grid's keys, moves to the neighbour in direction `d`, takes down the wall between the two cells from both sides, and appends the new cell to `q` and `visited` |
| Builder.Backtrack | app.py:281 | the pop changes no wall and no `visited` entry, and the new current cell is the old top of `q`: pushing it back gives the old `q` |
| Builder.Step | app.py:258-293 | a step keeps the grid's keys; on an empty `q` nothing changes; with no candidate it is a pop that changes no wall; otherwise it moves through a now open wall to a cell not visited before and appends it to `visited` and `q` |
| Builder.InitialInv | app.py:217-228 | the state `build_grid` leaves behind satisfies the builder invariant |
| Builder.CarvePairs | app.py:230-256 | clearing a wall that is up adds exactly its wall pair to the set of carved pairs |
| Builder.CarveEdges | app.py:230-256 | after a forward move, outward walls are still up, only visited cells have a wall down, and there is still one carved pair fewer than visited cells |
| Builder.CarveTree | app.py:230-256 | after a forward move, every visited cell but the first was entered through an open wall from an earlier visited cell |
| Builder.CarveInv | app.py:230-256 | a forward move to a candidate keeps the invariant and lowers the measure by one |
| Builder.BacktrackInv | app.py:280-281 | `currentPos = q.pop()` keeps the invariant and lowers the measure by one |
| Builder.StepSpec | app.py:258-293 | every step keeps the invariant and the grid's keys; walls only come down; on an empty `q` nothing changes; every other step lowers the measure; a backtrack changes no wall and no `visited` entry, sets `currentPos` to the old top of `q` and drops that top; a forward step appends to `visited` and `q` an unvisited grid neighbour whose wall was up, and that wall pair is then down |
| Builder.MazeBuilder.constructor | app.py:207-215 | a new builder has no current cell and empty `q` and `visited` |
| Builder.MazeBuilder.BuildColumn | app.py:219-224 | adds every cell of column `j` outside the interior block with all four walls up, and changes no other entry |
| Builder.MazeBuilder.BuildGrid | app.py:217-228 | the grid gains exactly the 30×40 lattice minus the block 10<col<20, 10<row<20, all walls up; `(0,0)` is appended to `q` and `visited` and becomes current; from an empty start the builder invariant holds |
| Builder.MazeBuilder.GoUp | app.py:230-235 | the new state is a forward move upwards |
| Builder.MazeBuilder.GoRight | app.py:237-242 | the new state is a forward move to the right |
| Builder.MazeBuilder.GoDown | app.py:244-249 | the new state is a forward move downwards |
| Builder.MazeBuilder.GoLeft | app.py:251-256 | the new state is a forward move to the left |
| Builder.MazeBuilder.Go | app.py:283-291 | dispatching on the chosen side makes the forward move in that direction |
| Builder.MazeBuilder.Pop | app.py:281 | the new state is the backtrack: the top of `q` becomes current and leaves `q` |
| Builder.MazeBuilder.DoStep | app.py:258-293 | keeps the invariant, performs exactly one `Step` with the drawn index, and reports done iff `q` was empty |
| Solver.Manhattan | app.py:81-82 | the distance is a natural number; it is 0 iff the two cells coincide and 1 iff they are adjacent |
| Solver.Node.F | app.py:48-49 | with a non-negative cost so far `G`, the estimate `F` is never below the heuristic `H` |
| Solver.CostEstimate | app.py:48-49 | under the solver invariant every node's `F` is its `G` plus its Manhattan distance to the goal, and so at least that distance |
| Solver.NeighboursFrom | app.py:84-101 | the tests of `getNeighbours` from one position of the up, down, left, right order on list only nodes adjacent to the cell |
| Solver.Neighbours | app.py:84-101 | every cell `getNeighbours` lists is a node |
| Solver.NeighboursSpec | app.py:84-101 | the cell in direction `d` is listed iff it is a node and the current cell's own flag `d` is down; every listed cell is a node behind an open wall; the list runs up, down, left, right, each cell once |
| Solver.ScanTo | app.py:107-113 | the running comparison over a prefix of `openList` always picks an element of `openList` |
| Solver.Pick | app.py:107-113 | the cell the scan of `doStep` picks is in `openList` |
| Solver.ScanBest | app.py:107-113 | after the running comparison over a prefix of `openList`, the pick is an open cell, its `F` and `H` are at most those of `openList[0]`, and no cell of the prefix beats it (`F <=` and `H` strictly smaller) |
| Solver.PickSpec | app.py:107-113 | the cell `doStep` picks is in `openList`, its `F` and `H` are at most those of `openList[0]`, and no open cell beats it |
| Solver.Close | app.py:115-116 | given a cell in `openList` (which `remove` demands), the pick leaves `openList` by a first-occurrence removal and is appended to `closedList`; the nodes are unchanged |
| Solver.RelaxOne | app.py:124-133 | a relaxation touches only the neighbour's node; a closed neighbour changes nothing; `openList` either stays or gains that neighbour, which was neither open nor closed before |
| Solver.RelaxAll | app.py:123-133 | the relaxation loop keeps the node keys and `closedList`, changes no closed node, and leaves whether a closed cell is open unchanged |
| Solver.Step | app.py:103-136 | a step keeps the node keys; on an empty `openList` nothing changes; otherwise the pick is appended to `closedList` |
| Solver.CloseLists | app.py:115-116 | closing an open cell keeps both lists without repeats and disjoint |
| Solver.CloseInv | app.py:115-116 | closing the pick keeps the solver invariant |
| Solver.RelaxOneInv | app.py:124-133 | relaxing a node cell behind an open wall of a closed cell keeps the invariant: `H` stays the Manhattan distance, the new parent is adjacent and closed, and `G` is the parent's plus one |
| Solver.RelaxAllInv | app.py:123-133 | the whole relaxation loop keeps the invariant |
| Solver.StepInv | app.py:103-136 | every solver step keeps the invariant |
| Solver.StepClose | app.py:103-133 | on an empty `openList` a step changes nothing; otherwise the pick moves from `openList` to the end of `closedList`; at the goal nothing else changes; no node is added or dropped and no closed node changes |
| Solver.ClosedBound | app.py:115-116 | `closedList` and `openList` together hold at most as many cells as there are nodes |
| Solver.StepBound | app.py:103-136 | every step on a non-empty `openList` lengthens `closedList` by one, and `closedList` never outgrows the node map, so the search ends |
| Solver.WalkBack | app.py:138-145 | the walk back from a closed cell is empty iff the cell is the start, and otherwise begins at the cell |
| Solver.SolutionPath | app.py:138-145 | the path `getSolution` stores is empty iff the cell is the start, and otherwise ends at the cell |
| Solver.TempWalk | app.py:147-154 | the walk of `buildTempSolution` is empty iff the cell is the start, otherwise begins at the cell, and holds only nodes |
| Solver.TempPath | app.py:147-154 | the path `buildTempSolution` stores is empty iff the cell is the start, otherwise ends at the cell, and holds only nodes |
| Solver.WalkBackStep | app.py:141-143 | one iteration of the `getSolution` loop moves from a closed non-start cell to its closed parent, which has a lower `G` |
| Solver.TempWalkStep | app.py:150-152 | one iteration of the `buildTempSolution` loop moves to the parent, which has a lower `G` |
| Solver.WalkLength | app.py:138-145 | the walk back from a closed cell has `G` entries and starts at that cell |
| Solver.WalkLinks | app.py:138-145 | every entry of the walk back is entered from the next one through an open wall, `G` falls by one per entry, the walk has no repeats and never holds the start, and its last cell opens onto the start |
| Solver.PathShape | app.py:138-145 | the stored solution has length `G(goal)`, begins at a cell open to the start, ends at the goal, passes through open walls between consecutive cells, never holds the start, and has no repeats |
| Solver.TempWalkClosed | app.py:147-154 | on a closed cell the tentative walk equals the full walk back to the start |
| Solver.TempPathShape | app.py:147-154 | for a closed cell other than the start, the tentative path is the full solution path and ends at that cell |
| Solver.MazeSolver.constructor | app.py:65-69 | a new solver has no nodes, `openList == [start]`, an empty `closedList`, and no current cell or tentative path |
| Solver.MazeSolver.BuildNodesColumn | app.py:73-79 | adds a node with `G` = 0, `H` = distance to the goal and no parent for every grid cell of column `i`, and changes no other node |
| Solver.MazeSolver.BuildNodes | app.py:71-79 | there is one such node per grid cell of the lattice; from the initial solver, on a well-formed grid that contains the start, the solver invariant holds |
| Solver.MazeSolver.ScanOpen | app.py:107-113 | the loop returns the pick and its node |
| Solver.MazeSolver.CloseCell | app.py:115-116 | given a cell in `openList` (which `remove` demands), the new state is that cell closed |
| Solver.MazeSolver.RelaxNeighbour | app.py:124-133 | one pass of the relaxation loop, with `continue` on a closed cell, is one `RelaxOne` |
| Solver.MazeSolver.RelaxNeighbours | app.py:123-133 | the relaxation loop is `RelaxAll` over the neighbour list |
| Solver.MazeSolver.GetSolution | app.py:138-145 | the loop terminates and stores the walk from the goal back to the start, reversed |
| Solver.MazeSolver.BuildTempSolution | app.py:147-154 | the loop terminates and stores the reversed walk from `currentPos`, which also stops at a node without a parent |
| Solver.MazeSolver.Expand | app.py:122-135 | keeps the invariant, relaxes the neighbours `getNeighbours` lists, and stores the solution path to the closed current cell as the tentative path |
| Solver.MazeSolver.DoStep | app.py:103-136 | keeps the invariant and node keys and performs exactly one `Step`; reports done iff `openList` was empty or the pick is the goal; an empty `openList` changes nothing; otherwise the pick becomes `currentPos` and is closed; at the goal the maze's solution is the path to the goal, and otherwise the tentative path is the path to the pick |

## Left out

- Rendering is not modelled: `Maze.draw`, the `Graphics`/pygame calls and `cellw`/`cellh` (floating point used only for drawing).
- The frame loop is not modelled: `run`, `do_build_step`, `do_solve_step` and the `STATE` phase globals. The solver's start `(29, 0)` and goal `(0, 39)` become constructor parameters.
- The unused imports `queue` and `time` are not modelled.
- `random.choice` is not modelled: the builder's `DoStep` takes the drawn index `pick` as a parameter. `PickOk` requires it to be in range whenever `sides` is non-empty, which is all `random.choice` can return.
- Class-level mutable defaults (`nodes`, `openList`, `closedList`, `grid`, `q`, `visited`) are shared between instances in the source. Here they are per-instance fields that the constructors initialise. Only one instance of each class ever exists.
- Builder.MazeBuilder.DoStep: requires the builder invariant, i.e. the state `build_grid` leaves on an empty maze. `do_build_step` always calls `build_grid` before the first `doStep` (`app.py:309-312`); a `doStep` before it would find `q` empty and only report done, and that case is not modelled.
- Solver.MazeSolver.DoStep: requires the solver invariant, which includes the start being a node; the source raises `KeyError` on `self.nodes[self.currentPos]` otherwise.
- Solver.MazeSolver.BuildNodes: establishes the solver invariant only from a freshly constructed solver on a well-formed grid that contains the start, which is how `do_solve_step` uses it.
- Solver.MazeSolver.GetSolution: requires the goal to be closed and the parent-link invariant, which is how `doStep` calls it; without them the source's loop can dereference `None`.
- No full-coverage claim for the builder. A randomised depth-first carver is usually expected to visit every cell, but this code does not guarantee it:
  - `q.pop()` returns the stack top, which is at first `currentPos` itself, and a later pop removes a cell that may still have unvisited neighbours;
  - `doStep` reports done once `q` is empty, without looking at the candidates of the last popped cell.
  The model proves instead that carving stays a tree over the visited cells (one carved pair fewer than visited cells, each cell entered through an open wall) and that the builder always finishes.
- No shortest-path claim for the solver. A* with a Manhattan heuristic would give a shortest path, but the scan at `app.py:109-113` is a running comparison that needs both `F <=` and a strictly smaller `H`, so it is not an arg-min of `F`. The model proves the path is a walk through open walls of length `G(goal)` from the start to the goal.
- Object identity of nodes is not modelled: `Parent` holds a coordinate, not a node object. Closed nodes never change, so following a coordinate reads the same node the source's reference would.
