/**
 * The recursive backtracking depth-first search of the maze, on values.
 *
 * `Explore` follows the search as written: a shared path that grows by the
 * visited cell and shrinks again when the search backs out of it, and a
 * result that every arrival at the end cell overwrites. `Paths` is an
 * independent reference: the list of every route the search arrives at, in
 * the order it arrives. The lemmas connect the two and characterise the
 * routes.
 */
module Search {
  import opened Grid

  function Last<T>(s: seq<T>): T
    requires |s| > 0
  {
    s[|s| - 1]
  }

  /** No cell occurs twice in `p`. */
  ghost predicate Distinct(p: seq<Cell>) {
    forall i, j :: 0 <= i < j < |p| ==> p[i] != p[j]
  }

  /** A non-empty sequence of cells, each step to a cell the adjacency rule allows. */
  ghost predicate IsWalk(g: Cells, p: seq<Cell>) {
    |p| > 0 && forall i :: 0 < i < |p| ==> p[i] in Adjacent(g, p[i - 1])
  }

  /** A walk that repeats no cell. */
  ghost predicate IsTrail(g: Cells, p: seq<Cell>) {
    IsWalk(g, p) && Distinct(p)
  }

  /** A trail from `s` to `e`. */
  ghost predicate IsRoute(g: Cells, p: seq<Cell>, s: Cell, e: Cell) {
    IsTrail(g, p) && p[0] == s && Last(p) == e
  }

  /** `e` can be reached from `s` through open cells. */
  ghost predicate Reachable(g: Cells, s: Cell, e: Cell) {
    exists w :: IsWalk(g, w) && w[0] == s && Last(w) == e
  }

  /** The in-bounds cells not on `path`: the search's termination measure. */
  ghost function Unvisited(g: Cells, path: seq<Cell>): set<Cell> {
    set y, x | 0 <= y < |g| && 0 <= x < |g[y]| && (x, y) !in path :: (x, y)
  }

  /** Stepping onto a new in-bounds cell leaves strictly fewer unvisited cells. */
  lemma UnvisitedShrinks(g: Cells, path: seq<Cell>, c: Cell)
    requires InBounds(g, c) && c !in path
    ensures Unvisited(g, path + [c]) < Unvisited(g, path)
  {
    assert c == (c.0, c.1);
    assert c in Unvisited(g, path);
  }

  /**
   * The search from the last cell of `path` (the cell just appended), given
   * the result `found` so far: at the end cell the whole path becomes the
   * result; otherwise each admissible neighbour not yet on the path is
   * explored in turn.
   */
  function Explore(g: Cells, e: Cell, path: seq<Cell>, found: seq<Cell>): (r: seq<Cell>)
    requires |path| > 0
    ensures r == found || (|path| <= |r| && r[..|path|] == path && Last(r) == e)
    decreases Unvisited(g, path), 1, 0
  {
    if Last(path) == e then path
    else ExploreAll(g, e, path, Adjacent(g, Last(path)), found)
  }

  /** The loop over the remaining neighbours `cands`: a neighbour already on the path is skipped. */
  function ExploreAll(g: Cells, e: Cell, path: seq<Cell>, cands: seq<Cell>, found: seq<Cell>): (r: seq<Cell>)
    requires |path| > 0
    requires forall c :: c in cands ==> InBounds(g, c)
    ensures r == found || (|path| <= |r| && r[..|path|] == path && Last(r) == e)
    decreases Unvisited(g, path), 0, |cands|
  {
    if cands == [] then found
    else if cands[0] in path then ExploreAll(g, e, path, cands[1..], found)
    else
      UnvisitedShrinks(g, path, cands[0]);
      var next := Explore(g, e, path + [cands[0]], found);
      assert next != found ==> next[..|path|] == next[..|path| + 1][..|path|];
      ExploreAll(g, e, path, cands[1..], next)
  }

  /** The result of the depth-first search from `s` to `e`. */
  function Dfs(g: Cells, s: Cell, e: Cell): (r: seq<Cell>)
    ensures r == [] || (r[0] == s && Last(r) == e)
  {
    Explore(g, e, [s], [])
  }

  /** Every path the search reaches the end cell with, extending `path`, in order of arrival. */
  function Paths(g: Cells, e: Cell, path: seq<Cell>): seq<seq<Cell>>
    requires |path| > 0
    decreases Unvisited(g, path), 1, 0
  {
    if Last(path) == e then [path]
    else PathsAll(g, e, path, Adjacent(g, Last(path)))
  }

  function PathsAll(g: Cells, e: Cell, path: seq<Cell>, cands: seq<Cell>): seq<seq<Cell>>
    requires |path| > 0
    requires forall c :: c in cands ==> InBounds(g, c)
    decreases Unvisited(g, path), 0, |cands|
  {
    if cands == [] then []
    else if cands[0] in path then PathsAll(g, e, path, cands[1..])
    else
      UnvisitedShrinks(g, path, cands[0]);
      Paths(g, e, path + [cands[0]]) + PathsAll(g, e, path, cands[1..])
  }

  /** The last element of `ps`, or `dflt` when there is none. */
  function LastOr<T>(ps: seq<T>, dflt: T): T {
    if ps == [] then dflt else Last(ps)
  }

  lemma LastOrAppend<T>(xs: seq<T>, ys: seq<T>, dflt: T)
    ensures LastOr(xs + ys, dflt) == LastOr(ys, LastOr(xs, dflt))
  {
    if ys == [] {
      assert xs + ys == xs;
    }
  }

  /**
   * The search as written returns the LAST route it arrives at: each arrival
   * at the end cell overwrites the earlier result, and `found` survives only
   * when no route is reached at all.
   */
  lemma {:induction false} ExploreIsLastPath(g: Cells, e: Cell, path: seq<Cell>, found: seq<Cell>)
    requires |path| > 0
    ensures Explore(g, e, path, found) == LastOr(Paths(g, e, path), found)
    decreases Unvisited(g, path), 1, 0
  {
    if Last(path) != e {
      ExploreAllIsLastPath(g, e, path, Adjacent(g, Last(path)), found);
    }
  }

  lemma {:induction false} ExploreAllIsLastPath(g: Cells, e: Cell, path: seq<Cell>, cands: seq<Cell>, found: seq<Cell>)
    requires |path| > 0
    requires forall c :: c in cands ==> InBounds(g, c)
    ensures ExploreAll(g, e, path, cands, found) == LastOr(PathsAll(g, e, path, cands), found)
    decreases Unvisited(g, path), 0, |cands|
  {
    if cands != [] {
      var c := cands[0];
      if c in path {
        ExploreAllIsLastPath(g, e, path, cands[1..], found);
      } else {
        UnvisitedShrinks(g, path, c);
        ExploreIsLastPath(g, e, path + [c], found);
        ExploreAllIsLastPath(g, e, path, cands[1..], Explore(g, e, path + [c], found));
        LastOrAppend(Paths(g, e, path + [c]), PathsAll(g, e, path, cands[1..]), found);
      }
    }
  }

  /** `p` completes `path`: a trail that extends `path` and ends at `e`. */
  ghost predicate Completes(g: Cells, e: Cell, path: seq<Cell>, p: seq<Cell>) {
    IsTrail(g, p) && |path| <= |p| && p[..|path|] == path && Last(p) == e
  }

  /** Appending an admissible neighbour that is not yet on a trail gives a trail. */
  lemma TrailExtends(g: Cells, path: seq<Cell>, c: Cell)
    requires IsTrail(g, path) && c in Adjacent(g, Last(path)) && c !in path
    ensures IsTrail(g, path + [c])
  {
    var p := path + [c];
    forall i, j | 0 <= i < j < |p| ensures p[i] != p[j] {
      if j < |path| {
        assert p[i] == path[i] && p[j] == path[j];
      } else {
        assert p[i] == path[i];
      }
    }
  }

  /** Every route the search arrives at completes the path it started from. */
  lemma {:induction false} PathsSound(g: Cells, e: Cell, path: seq<Cell>)
    requires IsTrail(g, path) && e !in path[..|path| - 1]
    ensures forall p :: p in Paths(g, e, path) ==> Completes(g, e, path, p)
    decreases Unvisited(g, path), 1, 0
  {
    if Last(path) != e {
      assert path == path[..|path| - 1] + [Last(path)];
      assert e !in path;
      PathsAllSound(g, e, path, Adjacent(g, Last(path)));
    }
  }

  lemma {:induction false} PathsAllSound(g: Cells, e: Cell, path: seq<Cell>, cands: seq<Cell>)
    requires IsTrail(g, path) && e !in path
    requires forall c :: c in cands ==> c in Adjacent(g, Last(path))
    requires forall c :: c in cands ==> InBounds(g, c)
    ensures forall p :: p in PathsAll(g, e, path, cands) ==> Completes(g, e, path, p)
    decreases Unvisited(g, path), 0, |cands|
  {
    if cands != [] {
      var c := cands[0];
      PathsAllSound(g, e, path, cands[1..]);
      if c !in path {
        UnvisitedShrinks(g, path, c);
        var longer := path + [c];
        TrailExtends(g, path, c);
        assert longer[..|longer| - 1] == path;
        PathsSound(g, e, longer);
        forall p | p in Paths(g, e, longer) ensures Completes(g, e, path, p) {
          assert p[..|path|] == p[..|longer|][..|path|];
        }
      }
    }
  }

  /** Dropping the first cell of a trail leaves a trail. */
  lemma TrailTail(g: Cells, q: seq<Cell>)
    requires IsTrail(g, q) && |q| > 1
    ensures IsTrail(g, q[1..])
  {
    var t := q[1..];
    forall i | 0 < i < |t| ensures t[i] in Adjacent(g, t[i - 1]) {
      assert t[i] == q[i + 1] && t[i - 1] == q[i];
    }
    forall i, j | 0 <= i < j < |t| ensures t[i] != t[j] {
      assert t[i] == q[i + 1] && t[j] == q[j + 1];
    }
  }

  /** The search is exhaustive: it arrives at every route that continues `path` without revisiting it. */
  lemma {:induction false} PathsComplete(g: Cells, e: Cell, path: seq<Cell>, q: seq<Cell>)
    requires |path| > 0 && IsTrail(g, q) && q[0] == Last(path) && Last(q) == e
    requires forall i :: 0 < i < |q| ==> q[i] !in path
    ensures path + q[1..] in Paths(g, e, path)
    decreases Unvisited(g, path), 1, 0
  {
    if Last(path) == e {
      assert |q| == 1;
      assert path + q[1..] == path;
    } else {
      var c := q[1];
      assert c in Adjacent(g, Last(path));
      assert c !in path;
      UnvisitedShrinks(g, path, c);
      TrailTail(g, q);
      var rest := q[1..];
      forall i | 0 < i < |rest| ensures rest[i] !in path + [c] {
        assert rest[i] == q[i + 1];
      }
      PathsComplete(g, e, path + [c], rest);
      assert path + [c] + rest[1..] == path + q[1..];
      PathsAllContains(g, e, path, Adjacent(g, Last(path)), c, path + q[1..]);
    }
  }

  lemma {:induction false} PathsAllContains(g: Cells, e: Cell, path: seq<Cell>, cands: seq<Cell>, c: Cell, p: seq<Cell>)
    requires |path| > 0 && forall d :: d in cands ==> InBounds(g, d)
    requires c in cands && c !in path && p in Paths(g, e, path + [c])
    ensures p in PathsAll(g, e, path, cands)
    decreases |cands|
  {
    if cands[0] != c {
      PathsAllContains(g, e, path, cands[1..], c, p);
    }
  }

  /** Cutting out the cycle between two visits of the same cell leaves a walk. */
  lemma SpliceWalk(g: Cells, w: seq<Cell>, i: nat, j: nat)
    requires IsWalk(g, w) && i < j < |w| && w[i] == w[j]
    ensures IsWalk(g, w[..i] + w[j..])
    ensures (w[..i] + w[j..])[0] == w[0] && Last(w[..i] + w[j..]) == Last(w)
  {
    var shorter := w[..i] + w[j..];
    forall k | 0 < k < |shorter| ensures shorter[k] in Adjacent(g, shorter[k - 1]) {
      if k < i {
        assert shorter[k] == w[k] && shorter[k - 1] == w[k - 1];
      } else if k == i {
        assert shorter[k] == w[j] && shorter[k - 1] == w[i - 1];
      } else {
        assert shorter[k] == w[k - i + j] && shorter[k - 1] == w[k - 1 - i + j];
      }
    }
  }

  /** Any walk can be shortened to a trail with the same first and last cells. */
  lemma {:induction false} WalkToTrail(g: Cells, w: seq<Cell>) returns (t: seq<Cell>)
    requires IsWalk(g, w)
    ensures IsTrail(g, t) && t[0] == w[0] && Last(t) == Last(w)
    decreases |w|
  {
    if Distinct(w) {
      return w;
    }
    var i: nat, j: nat :| i < j < |w| && w[i] == w[j];
    SpliceWalk(g, w, i, j);
    t := WalkToTrail(g, w[..i] + w[j..]);
  }

  /** The routes the search from `s` arrives at are exactly the trails from `s` to `e`. */
  lemma SearchArrivesAtEveryRoute(g: Cells, s: Cell, e: Cell)
    ensures forall p :: p in Paths(g, e, [s]) <==> IsRoute(g, p, s, e)
  {
    PathsSound(g, e, [s]);
    forall p | IsRoute(g, p, s, e) ensures p in Paths(g, e, [s]) {
      PathsComplete(g, e, [s], p);
      assert [s] + p[1..] == p;
    }
  }

  /**
   * The depth-first search returns the empty path exactly when `e` cannot be
   * reached from `s`; otherwise it returns the last route it arrives at, a
   * trail from `s` to `e` on which `e` occurs only at the end.
   */
  lemma DfsCorrect(g: Cells, s: Cell, e: Cell)
    ensures Dfs(g, s, e) == LastOr(Paths(g, e, [s]), [])
    ensures Dfs(g, s, e) != [] <==> Reachable(g, s, e)
    ensures Dfs(g, s, e) != [] ==> IsRoute(g, Dfs(g, s, e), s, e)
    ensures Dfs(g, s, e) != [] ==> e !in Dfs(g, s, e)[..|Dfs(g, s, e)| - 1]
  {
    var ps := Paths(g, e, [s]);
    ExploreIsLastPath(g, e, [s], []);
    SearchArrivesAtEveryRoute(g, s, e);
    if ps != [] {
      var p := Last(ps);
      assert p in ps;
      assert IsRoute(g, p, s, e);
      forall i | 0 <= i < |p| - 1 ensures p[i] != e {
        assert p[|p| - 1] == e;
      }
    }
    if Reachable(g, s, e) {
      var w :| IsWalk(g, w) && w[0] == s && Last(w) == e;
      var t := WalkToTrail(g, w);
      assert t in ps;
    }
  }
}
