/**
 * The helpers of PrimAlgorithm and one iteration of its main loop, as
 * functions on the generator's state.
 */
module PrimSteps {
  import opened MazeGrid
  import opened RandomSource

  /** The generator's fields: the dimensions, the grid, the frontier list and the random source. */
  datatype Maze = Maze(width: int, height: int, grid: Grid, frontier: seq<Point>, random: Random)

  /** The grid has a cell at exactly the points of `height` rows of `width` columns. */
  ghost predicate Shaped(m: Maze) {
    Rectangular(m.grid, m.width, m.height)
  }

  predicate Inside(m: Maze, p: Point) {
    InBounds(m.width, m.height, p)
  }

  /** Every point on the frontier list lies in the grid. */
  predicate FrontierInside(m: Maze) {
    forall k :: 0 <= k < |m.frontier| ==> Inside(m, m.frontier[k])
  }

  /** The point q as a one-element list if it is an in-bounds cell that is still zero, else the empty list. */
  function Unvisited(m: Maze, q: Point): seq<Point>
    requires Shaped(m)
  {
    if Inside(m, q) && m.grid[q] == 0 then [q] else []
  }

  /**
   * `addFrontier(col, row)`: an in-bounds cell that is still zero gets its
   * FRONTIER bit and is appended to the frontier; otherwise nothing changes.
   */
  function AddFrontier(m: Maze, col: int, row: int): (r: Maze)
    requires Shaped(m)
    ensures Shaped(r) && r.width == m.width && r.height == m.height && r.random == m.random
    ensures r.frontier == m.frontier + Unvisited(m, Point(col, row))
  {
    var p := Point(col, row);
    if col >= 0 && row >= 0 && col < m.width && row < m.height && m.grid[p] == 0 then
      m.(grid := m.grid[p := m.grid[p] | FRONTIER], frontier := m.frontier + [p])
    else
      m
  }

  /**
   * `addFrontier` gives the cell at (col, row) exactly the FRONTIER flag if
   * it is in bounds and zero, and changes nothing else; otherwise it changes
   * nothing at all.
   */
  lemma AddFrontierCells(m: Maze, col: int, row: int)
    requires Shaped(m)
    ensures var r := AddFrontier(m, col, row);
      forall q :: q in m.grid ==>
        r.grid[q] == if q == Point(col, row) && m.grid[q] == 0 then FRONTIER else m.grid[q]
    ensures !(Inside(m, Point(col, row)) && m.grid[Point(col, row)] == 0) ==> AddFrontier(m, col, row) == m
  {
  }

  /** Points that are pairwise different. */
  predicate Distinct(s: seq<Point>) {
    forall k, l :: 0 <= k < l < |s| ==> s[k] != s[l]
  }

  /** The in-bounds points of `ps` whose cells are still zero, in order. */
  function UnvisitedOf(m: Maze, ps: seq<Point>): seq<Point>
    requires Shaped(m)
  {
    if ps == [] then [] else Unvisited(m, ps[0]) + UnvisitedOf(m, ps[1..])
  }

  /** UnvisitedOf keeps exactly the in-bounds zero cells of `ps`, each once if `ps` has no repeats. */
  lemma {:induction false} UnvisitedOfMembers(m: Maze, ps: seq<Point>)
    requires Shaped(m)
    ensures forall q :: q in UnvisitedOf(m, ps) <==> q in ps && Inside(m, q) && m.grid[q] == 0
    ensures Distinct(ps) ==> Distinct(UnvisitedOf(m, ps))
    decreases |ps|
  {
    if ps != [] {
      UnvisitedOfMembers(m, ps[1..]);
      assert ps == [ps[0]] + ps[1..];
    }
  }

  /** `addFrontier` applied to each point of `ps` in turn. */
  function AddEach(m: Maze, ps: seq<Point>): (r: Maze)
    requires Shaped(m)
    ensures Shaped(r) && r.width == m.width && r.height == m.height && r.random == m.random
    decreases |ps|
  {
    if ps == [] then m else AddEach(AddFrontier(m, ps[0].x, ps[0].y), ps[1..])
  }

  /** The first point is offered first. */
  lemma AddEachFirst(m: Maze, ps: seq<Point>)
    requires Shaped(m) && ps != []
    ensures AddEach(m, ps) == AddEach(AddFrontier(m, ps[0].x, ps[0].y), ps[1..])
  {
  }

  /**
   * Offering distinct points to `addFrontier` one after the other: those
   * that were zero now hold exactly FRONTIER and are appended to the
   * frontier in order; no other cell changes.
   */
  lemma {:induction false} AddEachEffect(m: Maze, ps: seq<Point>)
    requires Shaped(m) && Distinct(ps)
    ensures var r := AddEach(m, ps);
      forall q :: q in m.grid ==> r.grid[q] == if q in ps && m.grid[q] == 0 then FRONTIER else m.grid[q]
    ensures AddEach(m, ps).frontier == m.frontier + UnvisitedOf(m, ps)
    decreases |ps|
  {
    if ps != [] {
      var m1 := AddFrontier(m, ps[0].x, ps[0].y);
      AddFrontierCells(m, ps[0].x, ps[0].y);
      AddEachEffect(m1, ps[1..]);
      assert UnvisitedOf(m1, ps[1..]) == UnvisitedOf(m, ps[1..]) by {
        UnvisitedOfSame(m, m1, ps[1..]);
      }
    }
  }

  /** UnvisitedOf only looks at whether the cells of the points it is given are zero. */
  lemma {:induction false} UnvisitedOfSame(m: Maze, m': Maze, ps: seq<Point>)
    requires Shaped(m) && Shaped(m') && m'.width == m.width && m'.height == m.height
    requires forall q :: q in ps && q in m.grid ==> (m'.grid[q] == 0 <==> m.grid[q] == 0)
    ensures UnvisitedOf(m', ps) == UnvisitedOf(m, ps)
    decreases |ps|
  {
    if ps != [] {
      UnvisitedOfSame(m, m', ps[1..]);
    }
  }

  /** The four neighbours `mark` offers to `addFrontier`: west, east, north, south. */
  function Around(col: int, row: int): (r: seq<Point>)
    ensures Distinct(r)
    ensures forall q :: q in r <==> Adjacent(Point(col, row), q)
  {
    [Point(col - 1, row), Point(col + 1, row), Point(col, row - 1), Point(col, row + 1)]
  }

  /**
   * `mark(col, row)`: the cell joins the maze (IN set, FRONTIER cleared),
   * then each neighbour, west, east, north, south in that order, is offered
   * to `addFrontier`.
   */
  function Mark(m: Maze, col: int, row: int): (r: Maze)
    requires Shaped(m) && Inside(m, Point(col, row))
    ensures Shaped(r) && r.width == m.width && r.height == m.height && r.random == m.random
  {
    var p := Point(col, row);
    AddEach(m.(grid := m.grid[p := (m.grid[p] & !FRONTIER) | IN]), Around(col, row))
  }

  /** `mark(col, row)` sets IN, clears FRONTIER and keeps every other bit of the cell itself. */
  lemma MarkCell(m: Maze, col: int, row: int)
    requires Shaped(m) && Inside(m, Point(col, row))
    ensures var c := Mark(m, col, row).grid[Point(col, row)];
      Has(c, IN) && !Has(c, FRONTIER) && c & !(IN | FRONTIER) == m.grid[Point(col, row)] & !(IN | FRONTIER)
  {
    var p := Point(col, row);
    MarkedBits(m.grid[p]);
    AddEachEffect(m.(grid := m.grid[p := (m.grid[p] & !FRONTIER) | IN]), Around(col, row));
    assert p !in Around(col, row);
  }

  /** The bits `mark` leaves in a cell. */
  lemma MarkedBits(c: Cell)
    ensures var c' := (c & !FRONTIER) | IN;
      Has(c', IN) && !Has(c', FRONTIER) && c' & !(IN | FRONTIER) == c & !(IN | FRONTIER)
  {
  }

  /**
   * Around `mark(col, row)`, each neighbour that was zero now holds exactly
   * FRONTIER; no other cell changes.
   */
  lemma MarkOthers(m: Maze, col: int, row: int)
    requires Shaped(m) && Inside(m, Point(col, row))
    ensures var r := Mark(m, col, row);
      forall q :: q in m.grid && q != Point(col, row) ==>
        r.grid[q] == if Adjacent(Point(col, row), q) && m.grid[q] == 0 then FRONTIER else m.grid[q]
  {
    var p := Point(col, row);
    AddEachEffect(m.(grid := m.grid[p := (m.grid[p] & !FRONTIER) | IN]), Around(col, row));
  }

  /** `mark(col, row)` appends to the frontier exactly its unvisited neighbours, west, east, north, south. */
  lemma MarkFrontier(m: Maze, col: int, row: int)
    requires Shaped(m) && Inside(m, Point(col, row))
    ensures Mark(m, col, row).frontier == m.frontier + UnvisitedOf(m, Around(col, row))
  {
    var p := Point(col, row);
    var m1 := m.(grid := m.grid[p := (m.grid[p] & !FRONTIER) | IN]);
    AddEachEffect(m1, Around(col, row));
    UnvisitedOfSame(m, m1, Around(col, row));
  }

  /**
   * `neighbors(col, row)`: the cells beside (col, row) that are in bounds
   * and already in the maze, west, east, north, south in that order.
   */
  function Neighbors(m: Maze, col: int, row: int): (r: seq<Point>)
    requires Shaped(m) && Inside(m, Point(col, row))
    ensures forall k :: 0 <= k < |r| ==>
      Inside(m, r[k]) && Adjacent(Point(col, row), r[k]) && Has(m.grid[r[k]], IN)
  {
    var west, east, north, south := Point(col - 1, row), Point(col + 1, row), Point(col, row - 1), Point(col, row + 1);
    (if col > 0 && Has(m.grid[west], IN) then [west] else []) +
    (if col + 1 < m.width && Has(m.grid[east], IN) then [east] else []) +
    (if row > 0 && Has(m.grid[north], IN) then [north] else []) +
    (if row + 1 < m.height && Has(m.grid[south], IN) then [south] else [])
  }

  /** Every in-bounds cell beside (col, row) that is in the maze is among the `neighbors`. */
  lemma NeighborsComplete(m: Maze, col: int, row: int, q: Point)
    requires Shaped(m) && Inside(m, Point(col, row))
    requires Adjacent(Point(col, row), q) && Inside(m, q) && Has(m.grid[q], IN)
    ensures q in Neighbors(m, col, row)
  {
    var r := Neighbors(m, col, row);
    var west, east, north, south := Point(col - 1, row), Point(col + 1, row), Point(col, row - 1), Point(col, row + 1);
    var a := if col > 0 && Has(m.grid[west], IN) then [west] else [];
    var b := if col + 1 < m.width && Has(m.grid[east], IN) then [east] else [];
    var c := if row > 0 && Has(m.grid[north], IN) then [north] else [];
    var d := if row + 1 < m.height && Has(m.grid[south], IN) then [south] else [];
    assert r == a + b + c + d;
    if q == west {
      assert q in a;
    } else if q == east {
      assert q in b;
    } else if q == north {
      assert q in c;
    } else {
      assert q == south && q in d;
    }
  }

  /**
   * Opening the wall between two cells that share a side: `from` gets the
   * bit toward `to`, and `to` the bit toward `from`; no other cell changes.
   */
  function OpenWall(m: Maze, from: Point, to: Point): (r: Maze)
    requires Shaped(m) && Inside(m, from) && Inside(m, to) && Adjacent(from, to)
    ensures Shaped(r) && r.width == m.width && r.height == m.height
    ensures r.frontier == m.frontier && r.random == m.random
    ensures r.grid[from] == m.grid[from] | Direction(from, to)
    ensures r.grid[to] == m.grid[to] | Direction(to, from)
    ensures forall q :: q in m.grid && q != from && q != to ==> r.grid[q] == m.grid[q]
  {
    DirectionSymmetric(from, to);
    var dir := Direction(from, to);
    var g1 := m.grid[from := m.grid[from] | dir];
    m.(grid := g1[to := g1[to] | Opposite(dir)])
  }

  /** `list.remove(i)`: the list without its i-th element, the others in order. */
  function RemoveAt(s: seq<Point>, i: nat): (r: seq<Point>)
    requires i < |s|
    ensures |r| == |s| - 1
    ensures forall k :: 0 <= k < |r| ==> r[k] == if k < i then s[k] else s[k + 1]
    ensures multiset(r) + multiset{s[i]} == multiset(s)
  {
    assert s == s[..i] + [s[i]] + s[i + 1..];
    s[..i] + s[i + 1..]
  }

  /** Removing one element of a list without repeats leaves a list without repeats holding the other elements. */
  lemma RemoveAtDistinct(s: seq<Point>, i: nat)
    requires i < |s| && Distinct(s)
    ensures Distinct(RemoveAt(s, i))
    ensures forall q :: q in RemoveAt(s, i) <==> q in s && q != s[i]
  {
    var r := RemoveAt(s, i);
    forall q | q in s && q != s[i]
      ensures q in r
    {
      var k :| 0 <= k < |s| && s[k] == q;
      assert r[if k < i then k else k - 1] == q;
    }
  }

  /** Two lists without repeats and without common elements concatenate to a list without repeats. */
  lemma DistinctAppend(a: seq<Point>, b: seq<Point>)
    requires Distinct(a) && Distinct(b)
    requires forall q :: q in a ==> q !in b
    ensures Distinct(a + b)
  {
    var s := a + b;
    forall k, l | 0 <= k < l < |s|
      ensures s[k] != s[l]
    {
      if k < |a| && l >= |a| {
        assert s[k] in a && s[l] == b[l - |a|];
      }
    }
  }

  /**
   * The cell just taken off the frontier is connected to a random
   * neighbour already in the maze, if it has one. Only the grid and the
   * random source can change.
   */
  function Connect(m: Maze, cell: Point): (r: Maze)
    requires Shaped(m) && Inside(m, cell)
    ensures Shaped(r) && r.width == m.width && r.height == m.height && r.frontier == m.frontier
  {
    var adjacent := Neighbors(m, cell.x, cell.y);
    if |adjacent| == 0 then m
    else
      var (j, random1) := NextInt(m.random, |adjacent|);
      OpenWall(m.(random := random1), cell, adjacent[j])
  }

  /**
   * One iteration of the main loop: remove a random frontier cell, open the
   * wall to a random neighbour already in the maze (if there is one), and
   * mark the cell.
   */
  function Step(m: Maze): (r: Maze)
    requires Shaped(m) && |m.frontier| > 0 && FrontierInside(m)
    ensures Shaped(r) && r.width == m.width && r.height == m.height
  {
    var (i, random1) := NextInt(m.random, |m.frontier|);
    var cell := m.frontier[i];
    var m1 := m.(frontier := RemoveAt(m.frontier, i), random := random1);
    Mark(Connect(m1, cell), cell.x, cell.y)
  }
}
