/**
 * What a finished run of PrimAlgorithm guarantees: every cell is in the
 * maze, the passages are consistent on both sides, there is one passage
 * fewer than there are cells, and every cell can be reached from every
 * other along passages. Connected with w*h - 1 passages means the
 * passages form a spanning tree of the grid: a perfect maze.
 */
module MazeProperties {
  import opened MazeGrid
  import opened RandomSource
  import opened PrimSteps
  import opened PrimRun

  /** One step from p toward s, for p different from s. */
  function Toward(p: Point, s: Point): (q: Point)
    requires p != s
    ensures Adjacent(p, q)
  {
    if p.x < s.x then Point(p.x + 1, p.y)
    else if p.x > s.x then Point(p.x - 1, p.y)
    else if p.y < s.y then Point(p.x, p.y + 1)
    else Point(p.x, p.y - 1)
  }

  function Distance(p: Point, s: Point): nat {
    (if p.x < s.x then s.x - p.x else p.x - s.x) + (if p.y < s.y then s.y - p.y else p.y - s.y)
  }

  /**
   * In a closed state without frontier cells the maze spreads to every cell:
   * walking from any cell toward a maze cell s, each step lands on a cell in
   * the maze.
   */
  lemma {:induction false} Spread(m: Maze, s: Point, p: Point)
    requires Inv(m) && m.frontier == []
    requires s in m.grid && Has(m.grid[s], IN) && p in m.grid
    ensures Has(m.grid[p], IN)
    decreases Distance(p, s)
  {
    if p != s {
      var q := Toward(p, s);
      assert InBounds(m.width, m.height, q);
      Spread(m, s, q);
    }
  }

  /** Once the frontier is empty, every cell is in the maze and none is still a frontier cell. */
  lemma Complete(m: Maze)
    requires Inv(m) && m.frontier == []
    ensures forall p :: p in m.grid ==> m.grid[p] & !WALLS == IN
  {
    var s :| s in m.grid && Has(m.grid[s], IN);
    forall p | p in m.grid
      ensures m.grid[p] & !WALLS == IN
    {
      Spread(m, s, p);
    }
  }

  /** `generateMaze(width, height)` leaves a grid of `height` rows of `width` cells. */
  lemma GenerateShape(width: int, height: int, random: Random)
    requires width > 0 && height > 0
    ensures var g := Generate(width, height, random).grid;
      (forall p :: p in g <==> 0 <= p.x < width && 0 <= p.y < height) &&
      |g.Keys| == width * height
  {
    var g := Generate(width, height, random).grid;
    assert g.Keys == AllPoints(width, height);
    AllPointsSize(width, height);
  }

  /** After `generateMaze`, every cell is IN, none is FRONTIER, and a cell holds nothing but IN and its open sides. */
  lemma GenerateComplete(width: int, height: int, random: Random)
    requires width > 0 && height > 0
    ensures var g := Generate(width, height, random).grid;
      forall p :: p in g ==> Has(g[p], IN) && !Has(g[p], FRONTIER) && g[p] & !WALLS == IN
  {
    Complete(Generate(width, height, random));
  }

  /** Once the frontier is empty, the maze holds all width * height cells of the grid. */
  lemma CompleteCount(m: Maze)
    requires Inv(m) && m.frontier == [] && m.width >= 0 && m.height >= 0
    ensures InCells(m) == AllPoints(m.width, m.height)
    ensures |InCells(m)| == m.width * m.height
  {
    Complete(m);
    assert InCells(m) == AllPoints(m.width, m.height);
    AllPointsSize(m.width, m.height);
  }

  /** The main loop of `generateMaze` runs exactly width * height - 1 times. */
  lemma GenerateIterations(width: int, height: int, random: Random)
    requires width > 0 && height > 0
    ensures Iterations(Start(width, height, random)) == width * height - 1
  {
    var m := Start(width, height, random);
    IterationsAddCells(m);
    CompleteCount(Run(m));
  }

  /**
   * Every open side leads to a cell of the grid, and two cells that share a
   * side agree on whether the wall between them is open.
   */
  lemma GenerateSymmetric(width: int, height: int, random: Random)
    requires width > 0 && height > 0
    ensures var g := Generate(width, height, random).grid;
      (forall p, d :: p in g && IsDir(d) && Has(g[p], d) ==> Move(p, d) in g) &&
      forall p, q :: p in g && q in g && Adjacent(p, q) ==>
        (Has(g[p], Direction(p, q)) <==> Has(g[q], Direction(q, p)))
  {
    var g := Generate(width, height, random).grid;
    forall p, q | p in g && q in g && Adjacent(p, q)
      ensures Has(g[p], Direction(p, q)) <==> Has(g[q], Direction(q, p))
    {
      DirectionSymmetric(p, q);
      DirectionSymmetric(q, p);
    }
  }
}
