/**
 * The PrimAlgorithm class: its fields and the methods that update them in
 * place, each proved to do what the functions of PrimSteps and PrimRun
 * describe.
 */
module PrimMaze {
  import opened MazeGrid
  import opened RandomSource
  import opened PrimSteps
  import opened PrimRun
  import MazeProperties

  /** The cells of an array of rows, keyed by point: the cell at (col, row) is `a[row, col]`. */
  ghost function Cells(a: array2<Cell>): (g: Grid)
    reads a
    ensures Rectangular(g, a.Length1, a.Length0)
  {
    map p | p in AllPoints(a.Length1, a.Length0) :: a[p.y, p.x]
  }

  /** The cell of the model at (col, row) is the array element `a[row, col]`. */
  lemma CellsAt(a: array2<Cell>, row: int, col: int)
    requires 0 <= row < a.Length0 && 0 <= col < a.Length1
    ensures Point(col, row) in Cells(a) && Cells(a)[Point(col, row)] == a[row, col]
  {
  }

  /** An array holding a generated maze has its dimensions, and every cell is IN and none FRONTIER. */
  lemma GeneratedCells(a: array2<Cell>, width: int, height: int, random: Random)
    requires width > 0 && height > 0 && Cells(a) == Generate(width, height, random).grid
    ensures a.Length0 == height && a.Length1 == width
    ensures forall row, col :: 0 <= row < height && 0 <= col < width ==>
      Has(a[row, col], IN) && !Has(a[row, col], FRONTIER)
  {
    GeneratedShape(a, Generate(width, height, random).grid, width, height);
    MazeProperties.GenerateComplete(width, height, random);
    forall row, col | 0 <= row < height && 0 <= col < width
      ensures Has(a[row, col], IN) && !Has(a[row, col], FRONTIER)
    {
      CellsAt(a, row, col);
    }
  }

  /** An array whose cells form a width by height grid has height rows of width columns. */
  lemma GeneratedShape(a: array2<Cell>, g: Grid, width: int, height: int)
    requires width > 0 && height > 0 && Cells(a) == g && Rectangular(g, width, height)
    ensures a.Length0 == height && a.Length1 == width
  {
    assert Point(0, 0) in g && Point(width - 1, height - 1) in g;
    assert !(Point(width, 0) in g) && !(Point(0, height) in g);
  }

  class PrimAlgorithm {
    var width: int
    var height: int
    /** `grid[row, col]`, as the rows of the source's `int[][]`. */
    var grid: array2<Cell>
    var frontier: seq<Point>
    var random: Random

    /** The grid has `height` rows of `width` cells. */
    ghost predicate Valid()
      reads this
    {
      grid.Length0 == height && grid.Length1 == width
    }

    /** The fields as a state of the functional model: the cell at point (col, row) is `grid[row, col]`. */
    ghost function Model(): (m: Maze)
      requires Valid()
      reads this, grid
      ensures Shaped(m)
    {
      Maze(width, height, Cells(grid), frontier, random)
    }

    /** `new PrimAlgorithm(seed)`, with `random` standing for `new Random(seed)`; an empty 0 by 0 grid (the source leaves it null). */
    constructor(random: Random)
      ensures Valid() && width == 0 && height == 0 && frontier == [] && this.random == random
    {
      width, height := 0, 0;
      grid := new Cell[0, 0];
      frontier := [];
      this.random := random;
    }

    /** `random.nextInt(bound)`. */
    method NextInt(bound: int) returns (n: int)
      requires bound > 0
      modifies this
      ensures (n, random) == RandomSource.NextInt(old(random), bound)
      ensures width == old(width) && height == old(height) && grid == old(grid) && frontier == old(frontier)
    {
      var drawn := RandomSource.NextInt(random, bound);
      n, random := drawn.0, drawn.1;
    }

    /** Sets one cell; the model changes at that point alone. */
    method SetCell(p: Point, c: Cell)
      requires Valid() && InBounds(width, height, p)
      modifies grid
      ensures Valid() && Model() == old(Model()).(grid := old(Model()).grid[p := c])
    {
      grid[p.y, p.x] := c;
      assert Model().grid == old(Model()).grid[p := c];
    }

    /** `addFrontier(col, row)`. */
    method AddFrontier(col: int, row: int)
      requires Valid()
      modifies this, grid
      ensures Valid() && grid == old(grid)
      ensures Model() == PrimSteps.AddFrontier(old(Model()), col, row)
    {
      if col >= 0 && row >= 0 && col < width && row < height && grid[row, col] == 0 {
        SetCell(Point(col, row), grid[row, col] | FRONTIER);
        frontier := frontier + [Point(col, row)];
      }
    }

    /** `mark(col, row)`: the cell joins the maze, then its four neighbours are offered to `addFrontier`. */
    method Mark(col: int, row: int)
      requires Valid() && InBounds(width, height, Point(col, row))
      modifies this, grid
      ensures Valid() && grid == old(grid)
      ensures Model() == PrimSteps.Mark(old(Model()), col, row)
    {
      SetCell(Point(col, row), (grid[row, col] & !FRONTIER) | IN);
      OfferAround(col, row);
    }

    /** The four `addFrontier` calls that end `mark(col, row)`: west, east, north, south. */
    method OfferAround(col: int, row: int)
      requires Valid()
      modifies this, grid
      ensures Valid() && grid == old(grid)
      ensures Model() == AddEach(old(Model()), Around(col, row))
    {
      ghost var around := Around(col, row);
      ghost var before := Model();
      AddFrontier(col - 1, row);
      AddEachFirst(before, around);
      before := Model();
      AddFrontier(col + 1, row);
      AddEachFirst(before, around[1..]);
      before := Model();
      AddFrontier(col, row - 1);
      AddEachFirst(before, around[1..][1..]);
      before := Model();
      AddFrontier(col, row + 1);
      AddEachFirst(before, around[1..][1..][1..]);
    }

    /** `neighbors(col, row)`. */
    method Neighbors(col: int, row: int) returns (adjacent: seq<Point>)
      requires Valid() && InBounds(width, height, Point(col, row))
      ensures adjacent == PrimSteps.Neighbors(Model(), col, row)
    {
      ghost var m := Model();
      ghost var west, east, north, south := Point(col - 1, row), Point(col + 1, row), Point(col, row - 1), Point(col, row + 1);
      adjacent := [];
      if col > 0 && grid[row, col - 1] & IN != 0 {
        adjacent := adjacent + [Point(col - 1, row)];
      }
      assert adjacent == (if col > 0 && Has(m.grid[west], IN) then [west] else []);
      ghost var a := adjacent;
      if col + 1 < width && grid[row, col + 1] & IN != 0 {
        adjacent := adjacent + [Point(col + 1, row)];
      }
      assert adjacent == a + (if col + 1 < m.width && Has(m.grid[east], IN) then [east] else []);
      a := adjacent;
      if row > 0 && grid[row - 1, col] & IN != 0 {
        adjacent := adjacent + [Point(col, row - 1)];
      }
      assert adjacent == a + (if row > 0 && Has(m.grid[north], IN) then [north] else []);
      a := adjacent;
      if row + 1 < height && grid[row + 1, col] & IN != 0 {
        adjacent := adjacent + [Point(col, row + 1)];
      }
      assert adjacent == a + (if row + 1 < m.height && Has(m.grid[south], IN) then [south] else []);
    }

    /**
     * `generateMaze(width, height)`: a fresh all-zero grid and an empty
     * frontier, a random start cell marked, then the main loop until the
     * frontier is empty. The result is the Generate function of the
     * dimensions and the random source.
     */
    method GenerateMaze(width: int, height: int)
      requires width > 0 && height > 0
      modifies this
      ensures Valid() && fresh(grid) && this.width == width && this.height == height
      ensures Model() == Generate(width, height, old(random))
    {
      this.width, this.height := width, height;
      grid := new Cell[height, width]((_, _) => 0);
      frontier := [];
      ghost var random0 := random;
      var col := NextInt(width);
      var row := NextInt(height);
      assert Model() == Maze(width, height, Zeros(width, height), [], random);
      Mark(col, row);
      ghost var start := Model();
      assert start == Start(width, height, random0);
      while frontier != []
        invariant Valid() && fresh(grid) && this.width == width && this.height == height
        invariant Inv(Model()) && Run(Model()) == Run(start)
        decreases NotIn(Model())
      {
        ghost var m := Model();
        assert FrontierInside(m);
        Iterate();
        StepInv(m);
      }
    }

    /** One pass of the main loop of `generateMaze`. */
    method Iterate()
      requires Valid() && frontier != [] && FrontierInside(Model())
      modifies this, grid
      ensures Valid() && grid == old(grid) && width == old(width) && height == old(height)
      ensures Model() == Step(old(Model()))
    {
      ghost var m := Model();
      var i := NextInt(|frontier|);
      var frontierCell := frontier[i];
      frontier := frontier[..i] + frontier[i + 1..];
      ghost var m1 := Model();
      assert m1 == m.(frontier := RemoveAt(m.frontier, i), random := random);
      ConnectToMaze(frontierCell);
      Mark(frontierCell.x, frontierCell.y);
    }

    /** Connect the cell taken off the frontier to a random neighbour already in the maze, if any. */
    method ConnectToMaze(frontierCell: Point)
      requires Valid() && InBounds(width, height, frontierCell)
      modifies this, grid
      ensures Valid() && grid == old(grid) && width == old(width) && height == old(height)
      ensures Model() == PrimSteps.Connect(old(Model()), frontierCell)
    {
      var adjacent := Neighbors(frontierCell.x, frontierCell.y);
      if adjacent != [] {
        var j := NextInt(|adjacent|);
        OpenWall(frontierCell, adjacent[j]);
      }
    }

    /** Open the wall between a frontier cell and its chosen neighbour, on both sides. */
    method OpenWall(frontierCell: Point, neighborCell: Point)
      requires Valid() && InBounds(width, height, frontierCell) && InBounds(width, height, neighborCell)
      requires Adjacent(frontierCell, neighborCell)
      modifies grid
      ensures Valid() && Model() == PrimSteps.OpenWall(old(Model()), frontierCell, neighborCell)
    {
      var dir := Direction(frontierCell, neighborCell);
      SetCell(frontierCell, grid[frontierCell.y, frontierCell.x] | dir);
      SetCell(neighborCell, grid[neighborCell.y, neighborCell.x] | Opposite(dir));
    }
  }
}
