/**
 * Cells, bounds, the four-neighbour adjacency rule and the wall listing of a
 * maze grid, stated on values. The grid is stored row-major, `g[y][x]`, while
 * every cell is addressed and reported as `(x, y)`.
 */
module Grid {

  /** A cell coordinate `(x, y)`: `x` picks the column, `y` the row. */
  type Cell = (int, int)

  /** Cell states, row-major: `g[y][x]`. 0 is open, 1 is a wall. */
  type Cells = seq<seq<int>>

  /** The grid has `rows` rows of `cols` cells each. */
  ghost predicate Shaped(g: Cells, rows: nat, cols: nat) {
    |g| == rows && forall y :: 0 <= y < rows ==> |g[y]| == cols
  }

  /** A grid of `rows` by `cols` open cells. */
  function Blank(rows: nat, cols: nat): (g: Cells)
    ensures Shaped(g, rows, cols)
    ensures forall y, x :: 0 <= y < rows && 0 <= x < cols ==> g[y][x] == 0
  {
    seq(rows, _ => seq(cols, _ => 0))
  }

  /** `c` addresses a cell of `g`: `0 <= x < cols` and `0 <= y < rows`. */
  predicate InBounds(g: Cells, c: Cell) {
    0 <= c.1 < |g| && 0 <= c.0 < |g[c.1]|
  }

  /** The state of cell `(x, y)`, read from storage position `[y][x]`. */
  function At(g: Cells, c: Cell): int
    requires InBounds(g, c)
  {
    g[c.1][c.0]
  }

  /** `c` is in bounds and open (state 0): a cell a search may step onto. */
  predicate IsOpen(g: Cells, c: Cell) {
    InBounds(g, c) && At(g, c) == 0
  }

  function Abs(n: int): nat {
    if n < 0 then -n else n
  }

  /** `a` differs from `c` by exactly 1 in exactly one coordinate. */
  predicate IsNeighbour(c: Cell, a: Cell) {
    Abs(a.0 - c.0) + Abs(a.1 - c.1) == 1
  }

  /** Position of neighbour `a` in the fixed order left, right, up, down. */
  function Direction(c: Cell, a: Cell): (d: nat)
    requires IsNeighbour(c, a)
    ensures d < 4
  {
    if a.0 < c.0 then 0
    else if a.0 > c.0 then 1
    else if a.1 < c.1 then 2
    else 3
  }

  /** The four orthogonal steps from `c`: left, right, up, down. */
  function Candidates(c: Cell): (r: seq<Cell>)
    ensures |r| == 4
    ensures forall i :: 0 <= i < 4 ==> IsNeighbour(c, r[i]) && Direction(c, r[i]) == i
    ensures forall a :: IsNeighbour(c, a) ==> a in r
  {
    [(c.0 - 1, c.1), (c.0 + 1, c.1), (c.0, c.1 - 1), (c.0, c.1 + 1)]
  }

  /** The open cells among `cs`, kept in the order of `cs`. */
  function OpenAmong(g: Cells, cs: seq<Cell>): seq<Cell> {
    if cs == [] then []
    else OpenAmong(g, cs[..|cs| - 1]) + OpenOne(g, cs[|cs| - 1])
  }

  /** `[a]` when `a` is open, `[]` otherwise. */
  function OpenOne(g: Cells, a: Cell): seq<Cell> {
    if IsOpen(g, a) then [a] else []
  }

  lemma {:induction false} OpenAmongMembers(g: Cells, cs: seq<Cell>)
    ensures |OpenAmong(g, cs)| <= |cs|
    ensures forall a :: a in OpenAmong(g, cs) <==> a in cs && IsOpen(g, a)
  {
    if cs != [] {
      OpenAmongMembers(g, cs[..|cs| - 1]);
      assert cs == cs[..|cs| - 1] + [cs[|cs| - 1]];
    }
  }

  /** The cells a search may step to from `c`. */
  function Adjacent(g: Cells, c: Cell): (r: seq<Cell>)
    ensures forall a :: a in r ==> InBounds(g, a) && At(g, a) == 0
  {
    OpenAmongMembers(g, Candidates(c));
    OpenAmong(g, Candidates(c))
  }

  /** `Adjacent` unfolded: the open one of each of the four steps, in order. */
  lemma AdjacentUnfold(g: Cells, c: Cell)
    ensures Adjacent(g, c) == OpenOne(g, (c.0 - 1, c.1)) + OpenOne(g, (c.0 + 1, c.1))
                            + OpenOne(g, (c.0, c.1 - 1)) + OpenOne(g, (c.0, c.1 + 1))
  {
    var cs := Candidates(c);
    assert cs[..1][..0] == [];
    assert OpenAmong(g, cs[..1]) == OpenOne(g, cs[0]);
    assert cs[..2][..1] == cs[..1];
    assert OpenAmong(g, cs[..2]) == OpenOne(g, cs[0]) + OpenOne(g, cs[1]);
    assert cs[..3][..2] == cs[..2];
    assert OpenAmong(g, cs[..3]) == OpenOne(g, cs[0]) + OpenOne(g, cs[1]) + OpenOne(g, cs[2]);
    assert cs[..4][..3] == cs[..3] && cs[..4] == cs;
  }

  /** Filtering keeps a strictly increasing direction order. */
  lemma {:induction false} OpenAmongKeepsOrder(g: Cells, c: Cell, cs: seq<Cell>)
    requires forall i :: 0 <= i < |cs| ==> IsNeighbour(c, cs[i])
    requires forall i, j :: 0 <= i < j < |cs| ==> Direction(c, cs[i]) < Direction(c, cs[j])
    ensures forall a :: a in OpenAmong(g, cs) ==> IsNeighbour(c, a)
    ensures forall i, j :: 0 <= i < j < |OpenAmong(g, cs)| ==>
      Direction(c, OpenAmong(g, cs)[i]) < Direction(c, OpenAmong(g, cs)[j])
  {
    if cs != [] {
      var init, last := cs[..|cs| - 1], cs[|cs| - 1];
      OpenAmongKeepsOrder(g, c, init);
      OpenAmongMembers(g, init);
      var r0 := OpenAmong(g, init);
      var r := OpenAmong(g, cs);
      forall a | a in r0 ensures Direction(c, a) < Direction(c, last) {
        var k :| 0 <= k < |init| && init[k] == a;
        assert cs[k] == a;
      }
      if IsOpen(g, last) {
        assert r == r0 + [last];
        forall i, j | 0 <= i < j < |r| ensures Direction(c, r[i]) < Direction(c, r[j]) {
          if j == |r| - 1 {
            assert r[i] in r0;
          } else {
            assert r[i] == r0[i] && r[j] == r0[j];
          }
        }
      } else {
        assert r == r0;
        forall i, j | 0 <= i < j < |r| ensures Direction(c, r[i]) < Direction(c, r[j]) {
          assert r[i] == r0[i] && r[j] == r0[j];
        }
      }
    }
  }

  /**
   * The adjacency rule: exactly the open orthogonal neighbours of `c`, at
   * most four of them, each once, in the order left, right, up, down.
   */
  lemma AdjacentIsOpenNeighbours(g: Cells, c: Cell)
    ensures forall a :: a in Adjacent(g, c) <==> IsOpen(g, a) && IsNeighbour(c, a)
    ensures |Adjacent(g, c)| <= 4
    ensures forall i, j :: 0 <= i < j < |Adjacent(g, c)| ==>
      Direction(c, Adjacent(g, c)[i]) < Direction(c, Adjacent(g, c)[j])
  {
    OpenAmongKeepsOrder(g, c, Candidates(c));
    OpenAmongMembers(g, Candidates(c));
    assert Adjacent(g, c) == OpenAmong(g, Candidates(c));
  }

  /** `a` comes strictly before `b` when scanning rows top to bottom, each left to right. */
  predicate RowMajorBefore(a: Cell, b: Cell) {
    a.1 < b.1 || (a.1 == b.1 && a.0 < b.0)
  }

  predicate StrictlyRowMajor(cs: seq<Cell>) {
    forall i, j :: 0 <= i < j < |cs| ==> RowMajorBefore(cs[i], cs[j])
  }

  /** `cs` lists exactly the wall cells (state 1) of `g`, each once, in row-major order. */
  ghost predicate IsWallList(g: Cells, cs: seq<Cell>) {
    (forall a :: a in cs <==> InBounds(g, a) && At(g, a) == 1) && StrictlyRowMajor(cs)
  }

  /** Two strictly row-major lists with the same members are the same list. */
  lemma {:induction false} RowMajorListUnique(xs: seq<Cell>, ys: seq<Cell>)
    requires StrictlyRowMajor(xs) && StrictlyRowMajor(ys)
    requires forall a :: a in xs <==> a in ys
    ensures xs == ys
  {
    assert ys != [] ==> ys[0] in ys;
    if xs != [] {
      assert xs[0] in ys;
      assert ys[0] in xs;
      var k :| 0 <= k < |ys| && ys[k] == xs[0];
      var m :| 0 <= m < |xs| && xs[m] == ys[0];
      assert k == 0;
      forall a ensures a in xs[1..] <==> a in ys[1..] {
        if a in xs[1..] {
          var i :| 0 <= i < |xs[1..]| && xs[1..][i] == a;
          assert RowMajorBefore(xs[0], xs[i + 1]);
          assert a in ys;
          var j :| 0 <= j < |ys| && ys[j] == a;
          assert j != 0;
          assert ys[1..][j - 1] == a;
        }
        if a in ys[1..] {
          var j :| 0 <= j < |ys[1..]| && ys[1..][j] == a;
          assert RowMajorBefore(ys[0], ys[j + 1]);
          assert a in xs;
          var i :| 0 <= i < |xs| && xs[i] == a;
          assert i != 0;
          assert xs[1..][i - 1] == a;
        }
      }
      RowMajorListUnique(xs[1..], ys[1..]);
      assert xs == [xs[0]] + xs[1..] && ys == [ys[0]] + ys[1..];
    }
  }

  /** The wall listing of a grid is unique: the specification fixes the result. */
  lemma WallListUnique(g: Cells, xs: seq<Cell>, ys: seq<Cell>)
    requires IsWallList(g, xs) && IsWallList(g, ys)
    ensures xs == ys
  {
    RowMajorListUnique(xs, ys);
  }

  /** A grid with no wall has the empty wall listing. */
  lemma BlankHasNoWalls(rows: nat, cols: nat)
    ensures IsWallList(Blank(rows, cols), [])
  {
  }
}
