/**
 * The maze's grid engine: a rows by cols array of cell states (0 open,
 * 1 wall), addressed as `(x, y)` but stored as `[y, x]`, an optional start
 * and an optional end cell, and the depth-first search between them.
 */
module MazeMatrix {
  import opened Wrappers
  import opened Grid
  import Search

  /** Integer division rounding toward negative infinity, as Python's `//`. */
  function FloorDiv(a: int, b: int): (q: int)
    requires b != 0
    ensures b > 0 ==> b * q <= a < b * q + b
    ensures b < 0 ==> b * q + b < a <= b * q
  {
    if b > 0 then a / b else (-a) / (-b)
  }

  class Matrix {
    /** Number of rows (the grid height in cells). */
    const rows: nat
    /** Number of columns (the grid width in cells). */
    const cols: nat
    /** Cell states, row-major: `cells[y, x]` holds cell `(x, y)`. */
    const cells: array2<int>
    var start: Option<Cell>
    var end: Option<Cell>

    ghost predicate Valid() {
      cells.Length0 == rows && cells.Length1 == cols
    }

    /** The grid as a value: `Contents()[y][x]` is the state of cell `(x, y)`. */
    ghost function Contents(): (g: Cells)
      requires Valid()
      reads cells
      ensures Shaped(g, rows, cols)
      ensures forall y, x :: 0 <= y < rows && 0 <= x < cols ==> g[y][x] == cells[y, x]
    {
      seq(rows, y requires 0 <= y < rows reads cells =>
        seq(cols, x requires 0 <= x < cols reads cells => cells[y, x]))
    }

    /**
     * A grid of `height // cellSize` rows and `width // cellSize` columns,
     * every cell open, no start and no end. A zero cell size, or a division
     * that comes out negative, is refused by the source (division by zero,
     * negative array dimension).
     */
    constructor (width: int, height: int, cellSize: int)
      requires cellSize != 0
      requires FloorDiv(width, cellSize) >= 0 && FloorDiv(height, cellSize) >= 0
      ensures Valid() && fresh(cells)
      ensures rows == FloorDiv(height, cellSize) && cols == FloorDiv(width, cellSize)
      ensures Contents() == Blank(rows, cols)
      ensures start == None && end == None
    {
      rows := FloorDiv(height, cellSize);
      cols := FloorDiv(width, cellSize);
      cells := new int[FloorDiv(height, cellSize), FloorDiv(width, cellSize)]((_, _) => 0);
      start := None;
      end := None;
      new;
      assert forall y :: 0 <= y < rows ==> Contents()[y] == Blank(rows, cols)[y];
    }

    /** Opens every cell; dimensions, start and end are left as they are. */
    method Clear()
      requires Valid()
      modifies cells
      ensures Valid()
      ensures Contents() == Blank(rows, cols)
      ensures GetFilledCells() == []
    {
      for i := 0 to cells.Length0
        invariant forall y, x :: 0 <= y < i && 0 <= x < cols ==> cells[y, x] == 0
      {
        for j := 0 to cells.Length1
          invariant forall y, x :: 0 <= y < i && 0 <= x < cols ==> cells[y, x] == 0
          invariant forall x :: 0 <= x < j ==> cells[i, x] == 0
        {
          cells[i, j] := 0;
        }
      }
      assert forall y :: 0 <= y < rows ==> Contents()[y] == Blank(rows, cols)[y];
      BlankHasNoWalls(rows, cols);
      WallListUnique(Contents(), GetFilledCells(), []);
    }

    /** The state of cell `(x, y)`, read from storage position `[y, x]`. */
    function GetCell(x: int, y: int): (v: int)
      requires Valid() && 0 <= x < cols && 0 <= y < rows
      reads cells
      ensures v == At(Contents(), (x, y))
    {
      cells[y, x]
    }

    /** Writes `value` into cell `(x, y)`; no other cell changes. */
    method SetCell(x: int, y: int, value: int)
      requires Valid() && 0 <= x < cols && 0 <= y < rows
      modifies cells
      ensures Valid()
      ensures GetCell(x, y) == value
      ensures forall c :: InBounds(Contents(), c) && c != (x, y) ==> At(Contents(), c) == At(old(Contents()), c)
    {
      cells[y, x] := value;
    }

    /** The wall cells (state 1) from row `y`, column `x` on, in row-major order. */
    function FilledFrom(y: nat, x: nat): (r: seq<Cell>)
      requires Valid() && y <= rows && x <= cols
      reads cells
      ensures forall c :: c in r <==>
        InBounds(Contents(), c) && At(Contents(), c) == 1 && (c.1 > y || (c.1 == y && c.0 >= x))
      ensures StrictlyRowMajor(r)
      decreases rows - y, cols - x
    {
      if y == rows then []
      else if x == cols then FilledFrom(y + 1, 0)
      else if cells[y, x] == 1 then [(x, y)] + FilledFrom(y, x + 1)
      else FilledFrom(y, x + 1)
    }

    /** Every wall cell as `(x, y)`, each once, scanning rows top to bottom and each row left to right. */
    function GetFilledCells(): (r: seq<Cell>)
      requires Valid()
      reads cells
      ensures IsWallList(Contents(), r)
    {
      FilledFrom(0, 0)
    }

    function GetStart(): (s: Option<Cell>)
      reads this
      ensures s == start
    {
      start
    }

    method SetStart(s: Option<Cell>)
      modifies this`start
      ensures GetStart() == s
    {
      start := s;
    }

    function GetEnd(): (e: Option<Cell>)
      reads this
      ensures e == end
    {
      end
    }

    method SetEnd(e: Option<Cell>)
      modifies this`end
      ensures GetEnd() == e
    {
      end := e;
    }

    /**
     * The cells a search may step to from `cell`: each of the steps left,
     * right, up and down that stays inside the grid and lands on an open cell.
     */
    method GetAdjacent(cell: Cell) returns (adjacent: seq<Cell>)
      requires Valid()
      ensures adjacent == Adjacent(Contents(), cell)
      ensures forall a :: a in adjacent <==> IsOpen(Contents(), a) && IsNeighbour(cell, a)
      ensures |adjacent| <= 4
    {
      var (x, y) := cell;
      adjacent := [];
      var offsets := [(-1, 0), (1, 0), (0, -1), (0, 1)];
      ghost var cs := Candidates(cell);
      for i := 0 to |offsets|
        invariant adjacent == OpenAmong(Contents(), cs[..i])
      {
        var xNew, yNew := x + offsets[i].0, y + offsets[i].1;
        assert cs[..i + 1] == cs[..i] + [(xNew, yNew)];
        if xNew < 0 || xNew >= cells.Length1 || yNew < 0 || yNew >= cells.Length0 {
          continue;
        }
        var value := cells[yNew, xNew];
        if value == 0 {
          adjacent := adjacent + [(xNew, yNew)];
        }
      }
      assert cs[..4] == cs;
      AdjacentIsOpenNeighbours(Contents(), cell);
    }

    /**
     * One step of the search: appends `node` to the shared path, records the
     * path as the result when `node` is the end cell, and otherwise explores
     * each admissible neighbour not already on the path, popping it again
     * afterwards. Returns the shared path (still ending in `node`, which the
     * caller pops) and the result.
     */
    method Recurse(node: Cell, path: seq<Cell>, found: seq<Cell>) returns (trail: seq<Cell>, result: seq<Cell>)
      requires Valid() && end.Some?
      ensures trail == path + [node]
      ensures result == Search.Explore(Contents(), end.value, path + [node], found)
      decreases Search.Unvisited(Contents(), path + [node])
    {
      trail := path + [node];
      if node == end.value {
        result := trail;
        return;
      }
      var adjacent := GetAdjacent(node);
      result := found;
      for i := 0 to |adjacent|
        invariant trail == path + [node]
        invariant Search.ExploreAll(Contents(), end.value, trail, adjacent[i..], result)
               == Search.ExploreAll(Contents(), end.value, trail, adjacent, found)
      {
        var adj := adjacent[i];
        assert adjacent[i..] == [adj] + adjacent[i + 1..];
        if adj in trail {
          continue;
        }
        Search.UnvisitedShrinks(Contents(), trail, adj);
        var grown;
        grown, result := Recurse(adj, trail, result);
        trail := grown[..|grown| - 1];
      }
    }

    /**
     * The depth-first search from the start cell to the end cell: the last
     * route the search arrives at, or `[]` when the end cannot be reached.
     */
    method DFSSearch() returns (pathFound: seq<Cell>)
      requires Valid() && start.Some? && end.Some?
      ensures pathFound == Search.Dfs(Contents(), start.value, end.value)
      ensures pathFound != [] <==> Search.Reachable(Contents(), start.value, end.value)
      ensures pathFound != [] ==> Search.IsRoute(Contents(), pathFound, start.value, end.value)
      ensures start == end ==> pathFound == [start.value]
    {
      var path;
      path, pathFound := Recurse(start.value, [], []);
      assert [] + [start.value] == [start.value];
      Search.DfsCorrect(Contents(), start.value, end.value);
    }

    /** The breadth-first search is a stub: it returns the empty path whatever the grid. */
    function BFSSearch(): (path: seq<Cell>)
      ensures path == []
    {
      []
    }
  }

  /**
   * Exports a grid with `GetFilledCells`, `GetStart` and `GetEnd` and applies
   * the export to a fresh grid of the same size with `SetCell`, `SetStart`
   * and `SetEnd`: the copy exports exactly the same walls, start and end.
   */
  method RoundTrip(m: Matrix) returns (n: Matrix)
    requires m.Valid()
    ensures fresh(n.cells) && n.Valid() && n.rows == m.rows && n.cols == m.cols
    ensures n.GetFilledCells() == m.GetFilledCells()
    ensures n.GetStart() == m.GetStart() && n.GetEnd() == m.GetEnd()
  {
    var ws := m.GetFilledCells();
    n := new Matrix(m.cols, m.rows, 1);
    for i := 0 to |ws|
      invariant n.Valid() && n.rows == m.rows && n.cols == m.cols
      invariant fresh(n.cells) && n.start == None && n.end == None
      invariant forall c :: InBounds(n.Contents(), c) ==>
        (At(n.Contents(), c) == 1 <==> c in ws[..i]) && (At(n.Contents(), c) == 0 || At(n.Contents(), c) == 1)
    {
      var (x, y) := ws[i];
      assert ws[i] in ws;
      assert ws[..i + 1] == ws[..i] + [ws[i]];
      n.SetCell(x, y, 1);
    }
    n.SetStart(m.GetStart());
    n.SetEnd(m.GetEnd());
    assert ws[..|ws|] == ws;
    WallListUnique(n.Contents(), n.GetFilledCells(), ws);
  }
}
