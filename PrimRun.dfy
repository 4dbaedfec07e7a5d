/**
 * The invariant the main loop of PrimAlgorithm keeps, its preservation by
 * one iteration, and the whole run of `generateMaze` as a function of the
 * dimensions and the random source.
 */
module PrimRun {
  import opened MazeGrid
  import opened RandomSource
  import opened PrimSteps

  /** The values a cell takes: unvisited, a pending frontier cell, or a maze cell with some open sides. */
  predicate Settled(c: Cell) {
    c == 0 || c == FRONTIER || c & !WALLS == IN
  }

  /** The frontier list holds in-bounds cells carrying exactly the FRONTIER flag. */
  ghost predicate FrontierSound(m: Maze)
    requires Shaped(m)
  {
    forall k :: 0 <= k < |m.frontier| ==> Inside(m, m.frontier[k]) && m.grid[m.frontier[k]] == FRONTIER
  }

  /** Every cell flagged FRONTIER is on the frontier list. */
  ghost predicate FrontierListed(m: Maze) {
    forall p :: p in m.grid && m.grid[p] == FRONTIER ==> p in m.frontier
  }

  ghost predicate CellsSettled(m: Maze) {
    forall p :: p in m.grid ==> Settled(m.grid[p])
  }

  /** Every open side of a cell leads to a cell of the grid whose facing side is open too. */
  ghost predicate WallsMatched(m: Maze) {
    forall p, d :: p in m.grid && IsDir(d) && Has(m.grid[p], d) ==>
      Move(p, d) in m.grid && Has(m.grid[Move(p, d)], Opposite(d))
  }

  /** The point p has a neighbour that is already in the maze. */
  ghost predicate NextToMaze(m: Maze, p: Point) {
    exists q :: q in m.grid && Adjacent(p, q) && Has(m.grid[q], IN)
  }

  /** Every frontier cell has a neighbour that is already in the maze. */
  ghost predicate Attached(m: Maze) {
    forall k :: 0 <= k < |m.frontier| ==> NextToMaze(m, m.frontier[k])
  }

  /** No cell of the maze has an unvisited neighbour: they are all maze or frontier cells. */
  ghost predicate Closed(m: Maze) {
    forall p, q :: p in m.grid && q in m.grid && Adjacent(p, q) && Has(m.grid[p], IN) ==> m.grid[q] != 0
  }

  /** The maze has at least one cell. */
  ghost predicate Started(m: Maze) {
    exists p :: p in m.grid && Has(m.grid[p], IN)
  }

  /** What holds after the start cell is marked and after every iteration of the main loop. */
  ghost predicate Inv(m: Maze) {
    Shaped(m) && FrontierSound(m) && Distinct(m.frontier) && FrontierListed(m) &&
    CellsSettled(m) && WallsMatched(m) && Attached(m) && Closed(m) && Started(m)
  }

  /** The cells already in the maze. */
  function InCells(m: Maze): set<Point> {
    set p | p in m.grid && Has(m.grid[p], IN)
  }

  /** The cells not yet in the maze; the main loop shrinks this set. */
  function NotIn(m: Maze): set<Point> {
    set p | p in m.grid && !Has(m.grid[p], IN)
  }

  /**
   * The effect of one iteration on the grid and the frontier: the i-th
   * frontier cell `cell` is removed from the list, joins the maze with a
   * passage to its neighbour `link`, which gets the facing passage, and the
   * unvisited neighbours of `cell` become frontier cells.
   */
  ghost predicate Iteration(m: Maze, r: Maze, i: nat, cell: Point, link: Point)
    requires Shaped(m)
  {
    i < |m.frontier| && cell == m.frontier[i] && cell in m.grid && m.grid[cell] == FRONTIER &&
    link in m.grid && Adjacent(cell, link) && Has(m.grid[link], IN) &&
    Shaped(r) && r.width == m.width && r.height == m.height &&
    r.frontier == RemoveAt(m.frontier, i) + UnvisitedOf(m, Around(cell.x, cell.y)) &&
    r.grid[cell] == IN | Direction(cell, link) &&
    r.grid[link] == m.grid[link] | Direction(link, cell) &&
    forall q :: q in m.grid && q != cell && q != link ==>
      r.grid[q] == if Adjacent(cell, q) && m.grid[q] == 0 then FRONTIER else m.grid[q]
  }

  /** The bits a frontier cell ends with once it has a passage toward `d` and is marked. */
  lemma JoinedBits(c: Cell, d: Cell)
    requires IsDir(d)
    requires Has(c, IN) && !Has(c, FRONTIER) && c & !(IN | FRONTIER) == (FRONTIER | d) & !(IN | FRONTIER)
    ensures c == IN | d
  {
  }

  /** Marking a frontier cell whose passage toward `link` was just opened completes an iteration. */
  lemma MarkCompletes(m: Maze, m2: Maze, i: nat, cell: Point, link: Point)
    requires Shaped(m) && i < |m.frontier| && cell == m.frontier[i]
    requires cell in m.grid && m.grid[cell] == FRONTIER
    requires link in m.grid && Adjacent(cell, link) && Has(m.grid[link], IN)
    requires Shaped(m2) && m2.width == m.width && m2.height == m.height
    requires m2.frontier == RemoveAt(m.frontier, i)
    requires m2.grid[cell] == FRONTIER | Direction(cell, link)
    requires m2.grid[link] == m.grid[link] | Direction(link, cell)
    requires forall q :: q in m.grid && q != cell && q != link ==> m2.grid[q] == m.grid[q]
    ensures Iteration(m, Mark(m2, cell.x, cell.y), i, cell, link)
  {
    var r := Mark(m2, cell.x, cell.y);
    MarkCell(m2, cell.x, cell.y);
    MarkOthers(m2, cell.x, cell.y);
    MarkFrontier(m2, cell.x, cell.y);
    UnvisitedOfSame(m, m2, Around(cell.x, cell.y));
    JoinedBits(r.grid[cell], Direction(cell, link));
  }

  /**
   * A cell with a neighbour in the maze gets connected to one such
   * neighbour `link`: the test for an empty neighbour list always fails.
   */
  lemma ConnectLink(m: Maze, cell: Point) returns (link: Point)
    requires Shaped(m) && Inside(m, cell) && NextToMaze(m, cell)
    ensures link in m.grid && Adjacent(cell, link) && Has(m.grid[link], IN)
    ensures var c := Connect(m, cell);
      Shaped(c) && c.width == m.width && c.height == m.height && c.frontier == m.frontier &&
      c.grid[cell] == m.grid[cell] | Direction(cell, link) &&
      c.grid[link] == m.grid[link] | Direction(link, cell) &&
      forall q :: q in m.grid && q != cell && q != link ==> c.grid[q] == m.grid[q]
  {
    var q :| q in m.grid && Adjacent(cell, q) && Has(m.grid[q], IN);
    NeighborsComplete(m, cell.x, cell.y, q);
    var adjacent := Neighbors(m, cell.x, cell.y);
    var (j, random1) := NextInt(m.random, |adjacent|);
    link := adjacent[j];
    assert Connect(m, cell) == OpenWall(m.(random := random1), cell, link);
  }

  /** Under the invariant, every iteration is an Iteration: it always connects the cell it removes. */
  lemma StepFacts(m: Maze) returns (i: nat, cell: Point, link: Point)
    requires Inv(m) && |m.frontier| > 0
    ensures Iteration(m, Step(m), i, cell, link)
  {
    var (i0, random1) := NextInt(m.random, |m.frontier|);
    i := i0;
    cell := m.frontier[i];
    var m1 := m.(frontier := RemoveAt(m.frontier, i), random := random1);
    assert NextToMaze(m, cell);
    link := ConnectLink(m1, cell);
    assert Step(m) == Mark(Connect(m1, cell), cell.x, cell.y);
    MarkCompletes(m, Connect(m1, cell), i, cell, link);
  }

  /** What one iteration does to a single cell: nothing becomes zero, only `cell` joins the maze, no passage closes. */
  lemma IterationCell(m: Maze, r: Maze, i: nat, cell: Point, link: Point, q: Point)
    requires Shaped(m) && Iteration(m, r, i, cell, link) && q in m.grid
    ensures q in r.grid
    ensures m.grid[q] != 0 ==> r.grid[q] != 0
    ensures Has(r.grid[q], IN) <==> Has(m.grid[q], IN) || q == cell
    ensures forall d :: IsDir(d) && Has(m.grid[q], d) ==> Has(r.grid[q], d)
    ensures Settled(m.grid[q]) ==> Settled(r.grid[q])
  {
    assert IsDir(Direction(cell, link)) && IsDir(Direction(link, cell));
  }

  /** After an iteration the frontier list is again sound, without repeats, and lists every FRONTIER cell. */
  lemma IterationFrontier(m: Maze, r: Maze, i: nat, cell: Point, link: Point)
    requires Inv(m) && Iteration(m, r, i, cell, link)
    ensures FrontierSound(r) && Distinct(r.frontier) && FrontierListed(r)
  {
    IterationSound(m, r, i, cell, link);
    IterationListed(m, r, i, cell, link);
  }

  lemma IterationSound(m: Maze, r: Maze, i: nat, cell: Point, link: Point)
    requires Inv(m) && Iteration(m, r, i, cell, link)
    ensures FrontierSound(r) && Distinct(r.frontier)
  {
    var rest := RemoveAt(m.frontier, i);
    var added := UnvisitedOf(m, Around(cell.x, cell.y));
    RemoveAtDistinct(m.frontier, i);
    UnvisitedOfMembers(m, Around(cell.x, cell.y));
    assert forall q :: q in rest ==> q in m.grid && m.grid[q] == FRONTIER;
    DistinctAppend(rest, added);
    forall k | 0 <= k < |r.frontier|
      ensures Inside(r, r.frontier[k]) && r.grid[r.frontier[k]] == FRONTIER
    {
      var q := r.frontier[k];
      if k < |rest| {
        assert q in rest;
      } else {
        assert q == added[k - |rest|] && q in added;
      }
    }
  }

  lemma IterationListed(m: Maze, r: Maze, i: nat, cell: Point, link: Point)
    requires Inv(m) && Iteration(m, r, i, cell, link)
    ensures FrontierListed(r)
  {
    var rest := RemoveAt(m.frontier, i);
    var added := UnvisitedOf(m, Around(cell.x, cell.y));
    RemoveAtDistinct(m.frontier, i);
    UnvisitedOfMembers(m, Around(cell.x, cell.y));
    forall q | q in r.grid && r.grid[q] == FRONTIER
      ensures q in r.frontier
    {
      assert q in m.grid;
      if Adjacent(cell, q) && m.grid[q] == 0 {
        assert q in added;
      } else {
        assert q in rest;
      }
    }
  }

  /** After an iteration every cell is again settled and every open side is matched. */
  lemma IterationWalls(m: Maze, r: Maze, i: nat, cell: Point, link: Point)
    requires Inv(m) && Iteration(m, r, i, cell, link)
    ensures CellsSettled(r) && WallsMatched(r)
  {
    var dir := Direction(cell, link);
    DirectionSymmetric(cell, link);
    OppositeInvolutive(dir);
    forall p | p in r.grid
      ensures Settled(r.grid[p])
    {
      IterationCell(m, r, i, cell, link, p);
    }
    forall p, d | p in r.grid && IsDir(d) && Has(r.grid[p], d)
      ensures Move(p, d) in r.grid && Has(r.grid[Move(p, d)], Opposite(d))
    {
      if p == cell {
        assert d == dir;
      } else if p == link && d == Opposite(dir) {
      } else {
        assert Has(m.grid[p], d);
        IterationCell(m, r, i, cell, link, Move(p, d));
      }
    }
  }

  /** After an iteration every frontier cell is attached, the maze is closed, and it is not empty. */
  lemma IterationAttached(m: Maze, r: Maze, i: nat, cell: Point, link: Point)
    requires Inv(m) && Iteration(m, r, i, cell, link)
    ensures Attached(r) && Closed(r) && Started(r)
  {
    var rest := RemoveAt(m.frontier, i);
    var added := UnvisitedOf(m, Around(cell.x, cell.y));
    RemoveAtDistinct(m.frontier, i);
    UnvisitedOfMembers(m, Around(cell.x, cell.y));
    forall k | 0 <= k < |r.frontier|
      ensures NextToMaze(r, r.frontier[k])
    {
      var p := r.frontier[k];
      if k < |rest| {
        assert p in rest;
        var k' :| 0 <= k' < |m.frontier| && m.frontier[k'] == p;
        var q :| q in m.grid && Adjacent(p, q) && Has(m.grid[q], IN);
        IterationCell(m, r, i, cell, link, q);
      } else {
        assert p == added[k - |rest|] && p in added;
        assert Adjacent(p, cell) && Has(r.grid[cell], IN);
      }
    }
    forall p, q | p in r.grid && q in r.grid && Adjacent(p, q) && Has(r.grid[p], IN)
      ensures r.grid[q] != 0
    {
      IterationCell(m, r, i, cell, link, p);
      IterationCell(m, r, i, cell, link, q);
    }
    assert cell in r.grid && Has(r.grid[cell], IN);
  }

  /** An iteration adds exactly the removed frontier cell to the maze. */
  lemma IterationCount(m: Maze, r: Maze, i: nat, cell: Point, link: Point)
    requires Inv(m) && Iteration(m, r, i, cell, link)
    ensures cell !in InCells(m) && InCells(r) == InCells(m) + {cell}
    ensures cell in NotIn(m) && NotIn(r) == NotIn(m) - {cell}
    ensures NotIn(r) < NotIn(m) && |InCells(r)| == |InCells(m)| + 1
    ensures |NotIn(r)| + 1 == |NotIn(m)|
  {
    forall q | q in m.grid
      ensures q in r.grid && (Has(r.grid[q], IN) <==> Has(m.grid[q], IN) || q == cell)
    {
      IterationCell(m, r, i, cell, link, q);
    }
    assert forall q :: q in r.grid ==> q in m.grid;
  }

  /** One iteration of the main loop keeps the invariant and adds one cell to the maze. */
  lemma StepInv(m: Maze)
    requires Inv(m) && |m.frontier| > 0
    ensures Inv(Step(m))
    ensures Step(m).width == m.width && Step(m).height == m.height
    ensures NotIn(Step(m)) < NotIn(m) && |InCells(Step(m))| == |InCells(m)| + 1
    ensures |NotIn(Step(m))| + 1 == |NotIn(m)|
  {
    var i, cell, link := StepFacts(m);
    var r := Step(m);
    IterationFrontier(m, r, i, cell, link);
    IterationWalls(m, r, i, cell, link);
    IterationAttached(m, r, i, cell, link);
    IterationCount(m, r, i, cell, link);
  }

  /** The bits of an unvisited cell once `mark` has run on it. */
  lemma StartBits(c: Cell)
    requires Has(c, IN) && !Has(c, FRONTIER) && c & !(IN | FRONTIER) == 0
    ensures c == IN
  {
  }

  /**
   * The state right after the start cell is marked: it alone is in the maze,
   * and its in-bounds neighbours are exactly the frontier.
   */
  ghost predicate Initial(r: Maze, start: Point) {
    Shaped(r) && start in r.grid && r.grid[start] == IN && Distinct(r.frontier) &&
    (forall p :: p in r.frontier <==> p in r.grid && Adjacent(start, p)) &&
    forall p :: p in r.grid && p != start ==> r.grid[p] == if Adjacent(start, p) then FRONTIER else 0
  }

  /** Marking an in-bounds cell of an all-zero grid with an empty frontier, as the start of `generateMaze` does. */
  lemma StartMark(m: Maze, col: int, row: int)
    requires Shaped(m) && m.frontier == [] && Inside(m, Point(col, row))
    requires forall p :: p in m.grid ==> m.grid[p] == 0
    ensures Initial(Mark(m, col, row), Point(col, row))
  {
    var r := Mark(m, col, row);
    MarkCell(m, col, row);
    MarkOthers(m, col, row);
    MarkFrontier(m, col, row);
    StartBits(r.grid[Point(col, row)]);
    UnvisitedOfMembers(m, Around(col, row));
    assert forall p :: p in r.grid ==> p in m.grid;
  }

  /** The state right after the start cell is marked satisfies the invariant. */
  lemma InitialInv(r: Maze, start: Point)
    requires Initial(r, start)
    ensures Inv(r) && InCells(r) == {start}
    ensures forall p :: p in r.grid ==> r.grid[p] & WALLS == 0
  {
    forall k | 0 <= k < |r.frontier|
      ensures Inside(r, r.frontier[k]) && r.grid[r.frontier[k]] == FRONTIER
    {
      assert r.frontier[k] in r.frontier;
    }
    InitialAttached(r, start);
  }

  /** Right after the start cell is marked, every frontier cell is beside it. */
  lemma InitialAttached(r: Maze, start: Point)
    requires Initial(r, start)
    ensures Attached(r)
  {
    forall k | 0 <= k < |r.frontier|
      ensures NextToMaze(r, r.frontier[k])
    {
      var f := r.frontier[k];
      assert f in r.frontier;
      assert start in r.grid && Adjacent(f, start) && Has(r.grid[start], IN);
    }
  }

  /**
   * The main loop from state `m` until the frontier is empty. It ends
   * because every iteration adds a cell to the maze.
   */
  function Run(m: Maze): (r: Maze)
    requires Inv(m)
    ensures Inv(r) && r.frontier == []
    ensures r.width == m.width && r.height == m.height
    decreases NotIn(m)
  {
    if m.frontier == [] then m
    else
      StepInv(m);
      Run(Step(m))
  }

  /**
   * How many iterations the main loop runs from state `m`: none exactly
   * when the frontier is already empty, and never more than there are
   * cells outside the maze.
   */
  function Iterations(m: Maze): (n: nat)
    requires Inv(m)
    ensures n == 0 <==> m.frontier == []
    ensures n <= |NotIn(m)|
    decreases NotIn(m)
  {
    if m.frontier == [] then 0
    else
      StepInv(m);
      1 + Iterations(Step(m))
  }

  /** Each iteration adds exactly one cell to the maze. */
  lemma {:induction false} IterationsAddCells(m: Maze)
    requires Inv(m)
    ensures |InCells(Run(m))| == |InCells(m)| + Iterations(m)
    decreases NotIn(m)
  {
    if m.frontier != [] {
      StepInv(m);
      IterationsAddCells(Step(m));
    }
  }

  /** The random start cell, a cell of the grid: the column is drawn first, then the row, as Java evaluates arguments left to right. */
  function StartCell(width: int, height: int, random: Random): (p: Point)
    requires width > 0 && height > 0
    ensures InBounds(width, height, p)
  {
    var (col, random1) := NextInt(random, width);
    Point(col, NextInt(random1, height).0)
  }

  /** The state `generateMaze(width, height)` starts its main loop from: the random start cell is marked. */
  function Start(width: int, height: int, random: Random): (m: Maze)
    requires width > 0 && height > 0
    ensures Inv(m) && m.width == width && m.height == height
    ensures InCells(m) == {StartCell(width, height, random)} && |InCells(m)| == 1
    ensures forall p :: p in m.grid ==> m.grid[p] & WALLS == 0
  {
    var (col, random1) := NextInt(random, width);
    var (row, random2) := NextInt(random1, height);
    var empty := Maze(width, height, Zeros(width, height), [], random2);
    StartMark(empty, col, row);
    InitialInv(Mark(empty, col, row), Point(col, row));
    Mark(empty, col, row)
  }

  /** `generateMaze(width, height)`: the state after its main loop ends. */
  function Generate(width: int, height: int, random: Random): (r: Maze)
    requires width > 0 && height > 0
    ensures Inv(r) && r.frontier == []
    ensures r.width == width && r.height == height
  {
    Run(Start(width, height, random))
  }
}
