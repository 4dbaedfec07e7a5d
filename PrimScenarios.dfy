/**
 * Client code for PrimAlgorithm: the three scenarios of the repository's
 * unit tests (the dimensions of the grid, every cell in the maze with no
 * frontier flag left, the same seed giving the same maze), written as
 * methods whose contracts state what the tests assert.
 */
module PrimScenarios {
  import opened MazeGrid
  import opened RandomSource
  import opened PrimMaze

  /** The grid after `generateMaze(width, height)` has `height` rows of `width` cells. */
  method GridDimensions(random: Random, width: int, height: int) returns (rows: int, cols: int)
    requires width > 0 && height > 0
    ensures rows == height && cols == width
  {
    var prim := new PrimAlgorithm(random);
    prim.GenerateMaze(width, height);
    rows, cols := prim.grid.Length0, prim.grid.Length1;
  }

  /** Scans the generated grid row by row: every cell is IN and no cell is still FRONTIER. */
  method AllCellsInMaze(random: Random, width: int, height: int) returns (allIn: bool)
    requires width > 0 && height > 0
    ensures allIn
  {
    var prim := new PrimAlgorithm(random);
    prim.GenerateMaze(width, height);
    var grid := prim.grid;
    GeneratedCells(grid, width, height, random);
    allIn := true;
    var row := 0;
    while row < height
      invariant 0 <= row <= height
      invariant allIn
    {
      var col := 0;
      while col < width
        invariant 0 <= col <= width
        invariant allIn
      {
        var cell := grid[row, col];
        allIn := allIn && cell & IN != 0 && cell & FRONTIER == 0;
        col := col + 1;
      }
      row := row + 1;
    }
  }

  /** Two generators built from the same random source produce cell-for-cell equal grids. */
  method SameSeedSameMaze(random: Random, width: int, height: int) returns (same: bool)
    requires width > 0 && height > 0
    ensures same
  {
    var prim1 := new PrimAlgorithm(random);
    var prim2 := new PrimAlgorithm(random);
    prim1.GenerateMaze(width, height);
    prim2.GenerateMaze(width, height);
    var a, b := prim1.grid, prim2.grid;
    assert Cells(a) == Cells(b);
    same := a.Length0 == b.Length0 && a.Length1 == b.Length1;
    var row := 0;
    while row < height
      invariant 0 <= row <= height
      invariant same
    {
      var col := 0;
      while col < width
        invariant 0 <= col <= width
        invariant same
      {
        assert Cells(a)[Point(col, row)] == a[row, col] && Cells(b)[Point(col, row)] == b[row, col];
        same := same && a[row, col] == b[row, col];
        col := col + 1;
      }
      row := row + 1;
    }
  }
}
