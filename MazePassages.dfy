/**
 * Counting the open walls of the maze: every iteration of the main loop
 * opens exactly one, so the finished maze has one fewer than it has cells.
 */
module MazePassages {
  import opened MazeGrid
  import opened RandomSource
  import opened PrimSteps
  import opened PrimRun
  import MazeProperties

  /** The open walls, each counted once: from the cell north of it (S) or west of it (E). */
  function Passages(m: Maze): set<(Point, Cell)> {
    set p, d | p in m.grid && d in {S, E} && Has(m.grid[p], d) :: (p, d)
  }

  /** The wall between two adjacent cells, named as in Passages. */
  function Wall(a: Point, b: Point): (Point, Cell) {
    var d := Direction(a, b);
    if d == S || d == E then (a, d) else (b, Opposite(d))
  }

  /** An iteration opens exactly one wall, one that was closed before. */
  lemma IterationPassages(m: Maze, r: Maze, i: nat, cell: Point, link: Point)
    requires Inv(m) && Iteration(m, r, i, cell, link)
    ensures Wall(cell, link) !in Passages(m)
    ensures Passages(r) == Passages(m) + {Wall(cell, link)}
  {
    var dir := Direction(cell, link);
    DirectionSymmetric(cell, link);
    OppositeInvolutive(dir);
    forall p, d | p in m.grid && d in {S, E} && Has(m.grid[p], d)
      ensures (p, d) in Passages(r)
    {
      IterationCell(m, r, i, cell, link, p);
    }
    forall p, d | p in r.grid && d in {S, E} && Has(r.grid[p], d)
      ensures (p, d) in Passages(m) + {Wall(cell, link)}
    {
      assert p in m.grid;
    }
    if !(dir == S || dir == E) {
      assert !Has(m.grid[link], Opposite(dir));
    }
  }

  /** Starting from one cell and no open wall, the main loop keeps one passage fewer than maze cells. */
  lemma {:induction false} RunPassages(m: Maze)
    requires Inv(m) && |Passages(m)| + 1 == |InCells(m)|
    ensures |Passages(Run(m))| + 1 == |InCells(Run(m))|
    decreases NotIn(m)
  {
    if m.frontier != [] {
      StepPassages(m);
      StepInv(m);
      RunPassages(Step(m));
    }
  }

  /** Each iteration adds one cell to the maze and opens one wall. */
  lemma StepPassages(m: Maze)
    requires Inv(m) && |m.frontier| > 0
    ensures |Passages(Step(m))| == |Passages(m)| + 1
  {
    var i, cell, link := StepFacts(m);
    IterationPassages(m, Step(m), i, cell, link);
  }

  /** The finished maze has exactly width * height - 1 open walls. */
  lemma GeneratePassages(width: int, height: int, random: Random)
    requires width > 0 && height > 0
    ensures |Passages(Generate(width, height, random))| == width * height - 1
  {
    var m := Start(width, height, random);
    StartPassages(m);
    RunPassages(m);
    MazeProperties.CompleteCount(Run(m));
  }

  /** No cell has an open wall: no passages at all. */
  lemma StartPassages(m: Maze)
    requires forall p :: p in m.grid ==> m.grid[p] & WALLS == 0
    ensures Passages(m) == {}
  {
    forall p, d | p in m.grid && d in {S, E}
      ensures !Has(m.grid[p], d)
    {
      assert m.grid[p] & WALLS == 0;
    }
  }
}
