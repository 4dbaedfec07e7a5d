/**
 * Reachability in the maze: a path moves between cells that share a side
 * through an open wall. The main loop keeps every maze cell reachable from
 * the start cell, so in the finished maze every cell reaches every other.
 */
module MazePaths {
  import opened MazeGrid
  import opened RandomSource
  import opened PrimSteps
  import opened PrimRun
  import MazeProperties
  import MazePassages

  /** The wall between p and q is open, seen from both sides. */
  ghost predicate Open(g: Grid, p: Point, q: Point) {
    p in g && q in g && Adjacent(p, q) && Has(g[p], Direction(p, q)) && Has(g[q], Direction(q, p))
  }

  /** A non-empty walk through the grid whose consecutive cells are joined by open walls. */
  ghost predicate IsPath(g: Grid, path: seq<Point>) {
    |path| > 0 && path[0] in g &&
    forall k :: 0 <= k < |path| - 1 ==> Open(g, path[k], path[k + 1])
  }

  /** Some path leads from p to q. */
  ghost predicate Joined(g: Grid, p: Point, q: Point) {
    exists path :: IsPath(g, path) && path[0] == p && path[|path| - 1] == q
  }

  /** A path walked backwards is a path. */
  lemma JoinedSymmetric(g: Grid, p: Point, q: Point)
    requires Joined(g, p, q)
    ensures Joined(g, q, p)
  {
    var path :| IsPath(g, path) && path[0] == p && path[|path| - 1] == q;
    var n := |path|;
    var back := seq(n, k requires 0 <= k < n => path[n - 1 - k]);
    if n > 1 {
      assert Open(g, path[n - 2], path[n - 1]);
    }
    forall k | 0 <= k < n - 1
      ensures Open(g, back[k], back[k + 1])
    {
      assert Open(g, path[n - 2 - k], path[n - 1 - k]);
    }
    assert IsPath(g, back);
  }

  /** Two paths that meet at q make a path. */
  lemma JoinedTransitive(g: Grid, p: Point, q: Point, t: Point)
    requires Joined(g, p, q) && Joined(g, q, t)
    ensures Joined(g, p, t)
  {
    var first :| IsPath(g, first) && first[0] == p && first[|first| - 1] == q;
    var second :| IsPath(g, second) && second[0] == q && second[|second| - 1] == t;
    var path := first + second[1..];
    forall k | 0 <= k < |path| - 1
      ensures Open(g, path[k], path[k + 1])
    {
      if k < |first| - 1 {
        assert Open(g, first[k], first[k + 1]);
      } else {
        var l := k - |first| + 1;
        assert path[k] == second[l] && path[k + 1] == second[l + 1];
      }
    }
    assert IsPath(g, path);
  }

  /** Every cell of the maze reaches s. */
  ghost predicate ReachStart(m: Maze, s: Point) {
    forall p :: p in m.grid && Has(m.grid[p], IN) ==> Joined(m.grid, p, s)
  }

  /** An open wall stays open through an iteration, so a path stays a path. */
  lemma IterationKeepsPath(m: Maze, r: Maze, i: nat, cell: Point, link: Point, path: seq<Point>)
    requires Inv(m) && Iteration(m, r, i, cell, link) && IsPath(m.grid, path)
    ensures IsPath(r.grid, path)
  {
    IterationCell(m, r, i, cell, link, path[0]);
    forall k | 0 <= k < |path| - 1
      ensures Open(r.grid, path[k], path[k + 1])
    {
      assert Open(m.grid, path[k], path[k + 1]);
      IterationCell(m, r, i, cell, link, path[k]);
      IterationCell(m, r, i, cell, link, path[k + 1]);
    }
  }

  /** After an iteration the new maze cell reaches s through its neighbour `link`, and the old ones still do. */
  lemma IterationReach(m: Maze, r: Maze, i: nat, cell: Point, link: Point, s: Point)
    requires Inv(m) && Iteration(m, r, i, cell, link) && ReachStart(m, s)
    ensures ReachStart(r, s)
  {
    forall p | p in r.grid && Has(r.grid[p], IN)
      ensures Joined(r.grid, p, s)
    {
      assert p in m.grid;
      IterationCell(m, r, i, cell, link, p);
      if p == cell {
        CellReach(m, r, i, cell, link, s);
      } else {
        assert Joined(m.grid, p, s);
        KeptReach(m, r, i, cell, link, p, s);
      }
    }
  }

  /** The cell an iteration adds reaches s through the wall it opens. */
  lemma CellReach(m: Maze, r: Maze, i: nat, cell: Point, link: Point, s: Point)
    requires Inv(m) && Iteration(m, r, i, cell, link) && Joined(m.grid, link, s)
    ensures Joined(r.grid, cell, s)
  {
    var path :| IsPath(m.grid, path) && path[0] == link && path[|path| - 1] == s;
    IterationKeepsPath(m, r, i, cell, link, path);
    IterationOpens(m, r, i, cell, link);
    Prepend(r.grid, cell, path);
    var longer := [cell] + path;
    assert longer[0] == cell && longer[|longer| - 1] == s;
  }

  /** The wall an iteration opens is open from both sides afterwards. */
  lemma IterationOpens(m: Maze, r: Maze, i: nat, cell: Point, link: Point)
    requires Inv(m) && Iteration(m, r, i, cell, link)
    ensures Open(r.grid, cell, link)
  {
    assert IsDir(Direction(cell, link)) && IsDir(Direction(link, cell));
  }

  /** A step through an open wall followed by a path is a path. */
  lemma Prepend(g: Grid, p: Point, path: seq<Point>)
    requires IsPath(g, path) && Open(g, p, path[0])
    ensures IsPath(g, [p] + path)
  {
    var longer := [p] + path;
    forall k | 0 <= k < |longer| - 1
      ensures Open(g, longer[k], longer[k + 1])
    {
      if k > 0 {
        assert longer[k] == path[k - 1] && longer[k + 1] == path[k];
      }
    }
  }

  /** A cell that reached s before an iteration still does. */
  lemma KeptReach(m: Maze, r: Maze, i: nat, cell: Point, link: Point, p: Point, s: Point)
    requires Inv(m) && Iteration(m, r, i, cell, link) && Joined(m.grid, p, s)
    ensures Joined(r.grid, p, s)
  {
    var path :| IsPath(m.grid, path) && path[0] == p && path[|path| - 1] == s;
    IterationKeepsPath(m, r, i, cell, link, path);
  }

  /** The main loop keeps every maze cell reachable from s. */
  lemma {:induction false} RunReach(m: Maze, s: Point)
    requires Inv(m) && ReachStart(m, s)
    ensures ReachStart(Run(m), s)
    decreases NotIn(m)
  {
    if m.frontier != [] {
      StepReach(m, s);
      StepInv(m);
      RunReach(Step(m), s);
    }
  }

  lemma StepReach(m: Maze, s: Point)
    requires Inv(m) && |m.frontier| > 0 && ReachStart(m, s)
    ensures ReachStart(Step(m), s)
  {
    var i, cell, link := StepFacts(m);
    IterationReach(m, Step(m), i, cell, link, s);
  }

  /** In the finished maze every cell reaches every other cell through open walls. */
  lemma GenerateConnected(width: int, height: int, random: Random)
    requires width > 0 && height > 0
    ensures var g := Generate(width, height, random).grid;
      forall p, q :: p in g && q in g ==> Joined(g, p, q)
  {
    var m := Start(width, height, random);
    var s := StartCell(width, height, random);
    forall p | p in m.grid && Has(m.grid[p], IN)
      ensures Joined(m.grid, p, s)
    {
      assert p in InCells(m);
      assert IsPath(m.grid, [s]);
    }
    RunReach(m, s);
    var r := Run(m);
    var g := r.grid;
    MazeProperties.Complete(r);
    forall p, q | p in g && q in g
      ensures Joined(g, p, q)
    {
      JoinedSymmetric(g, q, s);
      JoinedTransitive(g, p, s, q);
    }
  }

  /**
   * The walls counted by Passages are exactly the open walls that paths
   * step through: each counted wall is open from both sides, each open wall
   * is counted, and each is counted once, under the name Wall gives it.
   * So the connected graph of GenerateConnected is the one whose edges
   * GeneratePassages counts.
   */
  lemma PassagesAreOpenWalls(m: Maze)
    requires Inv(m)
    ensures forall p, d :: p in m.grid && (d == S || d == E) ==>
      ((p, d) in MazePassages.Passages(m) <==> Open(m.grid, p, Move(p, d)))
    ensures forall p, d :: (p, d) in MazePassages.Passages(m) ==> MazePassages.Wall(p, Move(p, d)) == (p, d)
    ensures forall p, q :: Open(m.grid, p, q) ==> MazePassages.Wall(p, q) in MazePassages.Passages(m)
  {
    var g := m.grid;
    forall p, d | p in g && (d == S || d == E)
      ensures (p, d) in MazePassages.Passages(m) <==> Open(g, p, Move(p, d))
    {
      DirectionOfMove(p, d);
    }
    forall p, d | (p, d) in MazePassages.Passages(m)
      ensures MazePassages.Wall(p, Move(p, d)) == (p, d)
    {
      DirectionOfMove(p, d);
    }
    forall p, q | Open(g, p, q)
      ensures MazePassages.Wall(p, q) in MazePassages.Passages(m)
    {
      DirectionSymmetric(p, q);
    }
  }
}
