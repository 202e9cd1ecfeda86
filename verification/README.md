# Maze grid engine — a Dafny model of `Matrix`

This project models the grid and path-finding engine of a small maze editor:
the `Matrix` class of `matrix.py`. A matrix holds a grid of `rows` by `cols`
integer cells (0 is open, 1 is a wall), stored row-major as `[y][x]` but
addressed and reported as `(x, y)`, plus an optional start cell and an
optional end cell. It offers exact-cell reads and writes, a whole-grid
clear, an export of the wall cells, a private four-neighbour adjacency
rule, and a recursive backtracking depth-first search. The breadth-first
search is a stub that always returns the empty path.

Files:

- `wrappers.dfy` — `Option`, for the start and end designations.
- `grid.dfy` (module `Grid`) — the grid as a value: bounds, the adjacency
  rule (`Adjacent`, built from the four steps left, right, up, down) and the
  specification of the wall export (`IsWallList`).
- `search.dfy` (module `Search`) — the depth-first search as written
  (`Explore`/`ExploreAll`: a shared path plus a result that every arrival at
  the end overwrites) and an independent enumeration of the routes the search
  arrives at, in order (`Paths`/`PathsAll`), with the lemmas that tie them
  together and characterise the result.
- `matrix.dfy` (module `MazeMatrix`) — the `Matrix` class over an
  `array2<int>`; the imperative operations (`Clear`'s nested loops,
  `SetCell`, the accessors, `GetAdjacent`'s loop over the offsets, and the
  recursive `Recurse` that appends to and pops from the shared path) are
  proved against the functions of `Grid` and `Search`.
- `scenarios.dfy` (module `Scenarios`) — two worked grids: an open 2 by 2
  grid on which the search arrives at the end twice and keeps the second
  route, and a 3 by 3 grid split by a wall column.

What the search returns, as the code does it: `recurse` records a copy of the
path each time it reaches the end and returns, and its caller pops the cell
and carries on with the remaining neighbours. The result is therefore the
LAST route the exploration order (left, right, up, down) arrives at, not the
first. One might expect the search to keep the first route it finds; the code
keeps the last (`Search.ExploreIsLastPath`, `Scenarios.DfsKeepsLastRoute`). The search is exhaustive over simple paths:
the routes it arrives at are exactly the repetition-free paths from start to
end (`Search.SearchArrivesAtEveryRoute`), so it returns `[]` exactly when the
end is unreachable. The start cell itself is never checked for being open or
in bounds (only candidate neighbours are), and the model keeps that.

The search terminates because every descent adds an in-bounds cell that is
not yet on the path; the measure is the set of in-bounds cells not on the
path (`Search.Unvisited`), which shrinks strictly on every descent.

## Model

| member | source | states |
|---|---|---|
| `MazeMatrix.FloorDiv` | matrix.py:6-7 | Python's `//`: the quotient rounded toward negative infinity, for either sign of the divisor |
| `MazeMatrix.Matrix.constructor` | matrix.py:5-10 | `rows == height // cell_size`, `cols == width // cell_size`, every cell 0, start and end both unset; refuses a zero cell size or a negative dimension as the source does |
| `Grid.Blank` | matrix.py:8 | the all-zero grid has the requested shape and every cell 0 |
| `MazeMatrix.Matrix.Clear` | matrix.py:12-16 | afterwards every cell is 0 and the wall export is empty; only the cell array may change, so dimensions, start and end are untouched |
| `Grid.BlankHasNoWalls` | matrix.py:24-27 | a grid with every cell 0 has the empty wall listing |
| `MazeMatrix.Matrix.GetCell` | matrix.py:18-19 | reads cell `(x, y)` from storage position `[y][x]` |
| `MazeMatrix.Matrix.SetCell` | matrix.py:21-22 | afterwards cell `(x, y)` reads back the value written and every other cell keeps its old value; start and end are outside the frame |
| `MazeMatrix.Matrix.FilledFrom` | matrix.py:25-27 | the scan from row `y`, column `x` onward lists exactly the cells of state 1 at or after that position in row-major order, in strictly increasing row-major order |
| `MazeMatrix.Matrix.GetFilledCells` | matrix.py:24-27 | the result holds exactly the `(x, y)` cells whose state is 1, in strictly increasing row-major order (by `y`, then `x`), hence each once |
| `Grid.WallListUnique` | matrix.py:24-27 | the wall-list specification determines the list: two lists that meet it are equal |
| `MazeMatrix.Matrix.GetStart` | matrix.py:29-30 | returns the stored start designation, `None` when unset |
| `MazeMatrix.Matrix.SetStart` | matrix.py:32-33 | afterwards `GetStart` returns the value set; only the start field may change |
| `MazeMatrix.Matrix.GetEnd` | matrix.py:35-36 | returns the stored end designation, `None` when unset |
| `MazeMatrix.Matrix.SetEnd` | matrix.py:38-39 | afterwards `GetEnd` returns the value set; only the end field may change |
| `Grid.Candidates` | matrix.py:65 | the four steps are neighbours of the cell, in the order left, right, up, down, and every orthogonal neighbour is among them |
| `Grid.Adjacent` | matrix.py:62-74 | every cell returned is in bounds and has state 0 |
| `Grid.AdjacentIsOpenNeighbours` | matrix.py:62-74 | a cell is returned iff it is in bounds, has state 0 and differs from the input by exactly 1 in exactly one coordinate; at most four are returned, in the order left, right, up, down |
| `MazeMatrix.Matrix.GetAdjacent` | matrix.py:62-74 | the loop over the four offsets, skipping out-of-bounds and non-zero cells, returns `Adjacent` of the grid; hence exactly the open neighbours, at most four |
| `Search.Explore` | matrix.py:43-54 | `recurse` on a path ending in the current node: the result is either the incoming result or a path that extends the current path and ends at the end cell; `Search.ExploreIsLastPath` says which (the last route reached) |
| `Search.ExploreAll` | matrix.py:50-54 | the loop over the neighbours: the result is either the incoming result or an extension of the current path ending at the end cell; `Search.ExploreAllIsLastPath` says which |
| `Search.Dfs` | matrix.py:41-56 | `DFS_search`: the result is `[]` or begins at the start and ends at the end; `Search.DfsCorrect` states the full characterisation |
| `MazeMatrix.Matrix.Recurse` | matrix.py:43-54 | appends the node to the shared path and leaves it there for the caller to pop; the result is `Explore` of the extended path: the path itself at the end cell, otherwise the neighbours not on the path explored in order, each later arrival at the end overwriting the result |
| `Search.ExploreIsLastPath` | matrix.py:45-54 | the search as written returns the last route it arrives at in exploration order, or the earlier result when it arrives at none |
| `Search.ExploreAllIsLastPath` | matrix.py:50-54 | the loop over the neighbours returns the last route arrived at from any of them, or the result it started with |
| `Search.PathsSound` | matrix.py:45-54 | every route the search arrives at extends the current path, repeats no cell, steps only to cells the adjacency rule returns, and ends at the end cell |
| `Search.PathsAllSound` | matrix.py:50-54 | the same for the routes reached through the neighbours the loop visits |
| `Search.PathsComplete` | matrix.py:49-54 | the search is exhaustive: every repetition-free continuation of the current path to the end cell is among the routes it arrives at |
| `Search.PathsAllContains` | matrix.py:50-54 | a route through a neighbour the loop visits (one not already on the path) is among the routes the loop arrives at |
| `Search.WalkToTrail` | matrix.py:51-52 | any walk through open cells can be shortened to one that repeats no cell, with the same first and last cell, so skipping cells already on the path loses no reachable end |
| `Search.SearchArrivesAtEveryRoute` | matrix.py:41-56 | the routes the search from the start arrives at are exactly the repetition-free adjacency paths from start to end |
| `Search.DfsCorrect` | matrix.py:41-56 | the result is `[]` iff the end is unreachable from the start through open cells; otherwise it is the last route found: it begins at the start, ends at the end, steps by the adjacency rule, repeats no cell and holds the end only in its last position |
| `MazeMatrix.Matrix.DFSSearch` | matrix.py:41-56 | runs the search on the current grid and designations; the result is non-empty iff the end is reachable, is then a route from start to end, and is `[start]` when start equals end |
| `MazeMatrix.RoundTrip` | matrix.py:21-39 | exporting walls, start and end with `GetFilledCells`, `GetStart`, `GetEnd` and applying them with `SetCell`, `SetStart`, `SetEnd` to a fresh grid of the same size gives a grid with the same export, start and end |
| `MazeMatrix.Matrix.BFSSearch` | matrix.py:58-60 | returns `[]` for every grid, start and end, and changes nothing |
| `Scenarios.DfsKeepsLastRoute` | matrix.py:46-54 | on the open 2 by 2 grid from (0, 0) to (1, 1) the search arrives via (1, 0) and then via (0, 1), and returns the second route |
| `Scenarios.DfsSplitFindsNothing` | matrix.py:41-56 | with the middle column of a 3 by 3 grid walled, the search from (0, 1) to (2, 1) returns `[]` and the end is unreachable |

## Left out

- `maze.py` is not part of this model: it is Tkinter drawing, menus and mouse handlers, with empty load and store stubs. Its calls `set_start(x, y)` and `set_end(x, y)` pass two arguments to one-argument setters; the model gives the setters the one `Option` argument the class declares.
- MazeMatrix.Matrix.GetCell: requires `(x, y)` in bounds; numpy would accept negative indices and wrap them around (and raise an `IndexError` beyond that), which is not modelled.
- MazeMatrix.Matrix.SetCell: requires `(x, y)` in bounds, for the same reason; any integer value may be written, as in the source.
- MazeMatrix.Matrix.DFSSearch: requires both start and end to be set. With the start unset the source fails on the tuple unpack of the start cell; with both unset it returns `[None]`; with only the end unset no cell ever equals the end, so the search runs to exhaustion and returns `[]`. None of the three is modelled.
- There is no stop flag, timeout or background thread in the source, so the model has none; cancellation is not modelled.
- MazeMatrix.Matrix.BFSSearch: the source has only a stub returning `[]`; no breadth-first search or shortest-path property is modelled.
- Running time and recursion depth: the search is exponential in the worst case and relies on Python's recursion limit; only its functional result is modelled.
- Writing the export to a file and reading it back is not modelled: the load and store operations in `maze.py` are empty stubs. The in-memory round trip through the core operations is modelled by `MazeMatrix.RoundTrip`.
- The cell array is fixed-size `int`; numpy's `int` dtype width (64-bit) is not modelled, values are unbounded integers.
