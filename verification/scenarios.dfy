/**
 * Two small grids worked through the depth-first search model: one where the
 * search arrives at the end twice and keeps the second route, and one where
 * a wall column separates the start from the end.
 */
module Scenarios {
  import opened Grid
  import opened Search

  /** A 2 by 2 grid with every cell open. */
  const Square: Cells := [[0, 0], [0, 0]]

  /** A 3 by 3 grid whose middle column `x = 1` is all wall. */
  const Split: Cells := [[0, 1, 0], [0, 1, 0], [0, 1, 0]]

  lemma SquareAdjacency()
    ensures Adjacent(Square, (0, 0)) == [(1, 0), (0, 1)]
    ensures Adjacent(Square, (1, 0)) == [(0, 0), (1, 1)]
    ensures Adjacent(Square, (0, 1)) == [(1, 1), (0, 0)]
  {
    AdjacentUnfold(Square, (0, 0));
    AdjacentUnfold(Square, (1, 0));
    AdjacentUnfold(Square, (0, 1));
  }

  /** Going right first, the search reaches (1, 1) through (1, 0). */
  lemma SquareViaRight()
    ensures Paths(Square, (1, 1), [(0, 0), (1, 0)]) == [[(0, 0), (1, 0), (1, 1)]]
  {
    SquareAdjacency();
    var e := (1, 1);
    var path := [(0, 0), (1, 0)];
    var p := path + [(1, 1)];
    assert Last(p) == e;
    assert Paths(Square, e, p) == [p];
    assert p == [(0, 0), (1, 0), (1, 1)];
    assert PathsAll(Square, e, path, [(1, 1)]) == [p] + PathsAll(Square, e, path, []);
  }

  /** Going down second, the search reaches (1, 1) again, through (0, 1). */
  lemma SquareViaDown()
    ensures Paths(Square, (1, 1), [(0, 0), (0, 1)]) == [[(0, 0), (0, 1), (1, 1)]]
  {
    SquareAdjacency();
    var e := (1, 1);
    var path := [(0, 0), (0, 1)];
    var p := path + [(1, 1)];
    assert PathsAll(Square, e, path, [(0, 0)]) == [];
    assert Last(p) == e;
    assert Paths(Square, e, p) == [p];
    assert p == [(0, 0), (0, 1), (1, 1)];
    assert PathsAll(Square, e, path, [(1, 1), (0, 0)]) == [p] + PathsAll(Square, e, path, [(0, 0)]);
  }

  /**
   * From (0, 0) to (1, 1) on the open 2 by 2 grid the search arrives first
   * via (1, 0) and then via (0, 1), and returns the second route: the result
   * is the last route found, not the first.
   */
  lemma DfsKeepsLastRoute()
    ensures Paths(Square, (1, 1), [(0, 0)]) == [[(0, 0), (1, 0), (1, 1)], [(0, 0), (0, 1), (1, 1)]]
    ensures Dfs(Square, (0, 0), (1, 1)) == [(0, 0), (0, 1), (1, 1)]
  {
    var e := (1, 1);
    SquareAdjacency();
    SquareViaRight();
    SquareViaDown();
    var path := [(0, 0)];
    assert path + [(0, 1)] == [(0, 0), (0, 1)];
    assert path + [(1, 0)] == [(0, 0), (1, 0)];
    assert PathsAll(Square, e, path, [(0, 1)]) == [[(0, 0), (0, 1), (1, 1)]] + PathsAll(Square, e, path, []);
    assert PathsAll(Square, e, path, [(1, 0), (0, 1)]) == [[(0, 0), (1, 0), (1, 1)]] + PathsAll(Square, e, path, [(0, 1)]);
    ExploreIsLastPath(Square, e, [(0, 0)], []);
  }

  lemma SplitAdjacency()
    ensures Adjacent(Split, (0, 1)) == [(0, 0), (0, 2)]
    ensures Adjacent(Split, (0, 0)) == [(0, 1)]
    ensures Adjacent(Split, (0, 2)) == [(0, 1)]
  {
    AdjacentUnfold(Split, (0, 1));
    AdjacentUnfold(Split, (0, 0));
    AdjacentUnfold(Split, (0, 2));
  }

  /** A wall column separates (0, 1) from (2, 1): the search finds nothing, and (2, 1) is unreachable. */
  lemma DfsSplitFindsNothing()
    ensures Dfs(Split, (0, 1), (2, 1)) == []
    ensures !Reachable(Split, (0, 1), (2, 1))
  {
    var e := (2, 1);
    SplitAdjacency();
    var up, down := [(0, 1), (0, 0)], [(0, 1), (0, 2)];
    assert [(0, 1)] + [(0, 0)] == up && [(0, 1)] + [(0, 2)] == down;
    assert PathsAll(Split, e, up, [(0, 1)]) == PathsAll(Split, e, up, []);
    assert Paths(Split, e, up) == [];
    assert PathsAll(Split, e, down, [(0, 1)]) == PathsAll(Split, e, down, []);
    assert Paths(Split, e, down) == [];
    assert PathsAll(Split, e, [(0, 1)], [(0, 2)]) == Paths(Split, e, down) + PathsAll(Split, e, [(0, 1)], []);
    assert PathsAll(Split, e, [(0, 1)], [(0, 0), (0, 2)]) == Paths(Split, e, up) + PathsAll(Split, e, [(0, 1)], [(0, 2)]);
    ExploreIsLastPath(Split, e, [(0, 1)], []);
    DfsCorrect(Split, (0, 1), e);
  }
}
