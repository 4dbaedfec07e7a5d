# Prim's maze generator, modelled in Dafny

This project models the randomized Prim-style maze generator of
`PrimAlgorithm` (prims-maze-generation). The generator keeps three things:

- a grid of `height` rows of `width` cells, each a set of bit flags. N=1,
  S=2, E=4 and W=8 mean that the wall on that side is open. IN=16 means the
  cell belongs to the maze. FRONTIER=32 means the cell is a pending candidate.
- the frontier, a list of candidate points `(x, y) = (col, row)`.
- a seeded random source.

`generateMaze(width, height)` starts with an all-zero grid and marks a random
start cell. It then repeatedly removes a random frontier cell, opens the wall
between it and a random neighbour already in the maze, and marks it. Marking
sets IN, clears FRONTIER and offers the four neighbours to `addFrontier`.

The project has three layers:

- **Functional specification.** This is in `MazeGrid`, `RandomSource`,
  `PrimSteps` and `PrimRun`. The generator state is the value `Maze`. Every
  helper (`addFrontier`, `mark`, `neighbors`, `direction`, opening a wall)
  is a function on it. One pass of the main loop is `Step`, the loop is
  `Run`, and the whole call is `Generate(width, height, random)`. The grid is
  a map from points `(col, row)` to cells.
- **Properties.** `PrimRun` proves the loop invariant `Inv`: the frontier
  list is sound, duplicate-free and complete, every cell is unvisited,
  frontier or in the maze, every open wall is matched on the other side,
  every frontier cell touches the maze, and the maze is never empty.
  `MazeProperties`, `MazePassages` and `MazePaths` prove what a finished run
  guarantees:
  - the grid has `height` rows of `width` cells;
  - every cell is IN and none is FRONTIER;
  - the loop runs `width * height - 1` times;
  - walls are open in matching pairs;
  - exactly `width * height - 1` walls are open;
  - every cell reaches every other cell through open walls.

  The walls that are counted are exactly the open walls that paths step
  through, each counted once. A connected graph on `n` nodes with `n - 1`
  edges is a tree, so the open walls form a spanning tree of the grid.
- **The class.** `PrimMaze.PrimAlgorithm` has the source's fields other than
  `seed` and `panel`. `grid` is
  an `array2` indexed `grid[row, col]`, and `frontier` is a sequence. Its
  methods update these fields in place. Each method is proved to produce
  exactly the state that the matching specification function describes.
  `PrimScenarios` restates the three unit tests as client methods.

Randomness is an explicit stream: a `Random` is a function from draw number
to raw value, together with the number of draws already taken.
`nextInt(bound)` yields the next raw value reduced into `[0, bound)`. Any
sequence of choices the generator could make is such a stream. A seed and
the dimensions fix the sequence of choices, and every such sequence is a
stream, so "same seed, same maze" holds because `Generate` is a function of
the dimensions and the stream.

## Model

| member | source | states |
|---|---|---|
| `RandomSource.NextInt` | src/PrimAlgorithm.java:117 | `random.nextInt(bound)` yields a value in `[0, bound)` and advances the source by exactly one draw of the same stream |
| `MazeGrid.Opposite` | src/PrimAlgorithm.java:19-24 | `OPPOSITE` maps a direction to a different direction |
| `MazeGrid.OppositeInvolutive` | src/PrimAlgorithm.java:19-24 | applying `OPPOSITE` twice gives the direction back |
| `MazeGrid.Direction` | src/PrimAlgorithm.java:92-97 | `direction` always returns one of N, S, E, W, and for a cell beside `from` it is the direction whose step leads to that cell |
| `MazeGrid.DirectionOfMove` | src/PrimAlgorithm.java:92-97 | `direction` inverts a step: the direction from a cell to the cell one step toward d is d, and the way back is `OPPOSITE` of d |
| `MazeGrid.DirectionSymmetric` | src/PrimAlgorithm.java:124-126 | between two cells that share a side, the direction back is `OPPOSITE` of the direction there, so the two bits set at lines 125-126 name the same wall |
| `MazeGrid.Zeros` | src/PrimAlgorithm.java:106 | `new int[height][width]` has a cell at exactly the in-bounds points, all zero |
| `MazeGrid.AllPointsSize` | src/PrimAlgorithm.java:106 | a grid of `height` rows of `width` columns has `width * height` cells |
| `PrimSteps.AddFrontier` | src/PrimAlgorithm.java:68-73 | `addFrontier` appends the point to the frontier exactly when it is in bounds and its cell is zero; dimensions and random source are untouched |
| `PrimSteps.AddFrontierCells` | src/PrimAlgorithm.java:68-73 | `addFrontier` gives exactly the offered cell the value FRONTIER if it was zero, changes no other cell, and out of bounds or on a non-zero cell changes nothing |
| `PrimSteps.UnvisitedOfMembers` | src/PrimAlgorithm.java:68-73 | the points that `addFrontier` appends are exactly the offered in-bounds zero cells, each once |
| `PrimSteps.AddEach` | src/PrimAlgorithm.java:77-80 | offering points to `addFrontier` one after the other keeps the grid's shape, the dimensions and the random source |
| `PrimSteps.AddEachEffect` | src/PrimAlgorithm.java:77-80 | offering distinct points in turn turns exactly the zero ones into FRONTIER cells, appends them in order, and changes no other cell |
| `PrimSteps.Around` | src/PrimAlgorithm.java:77-80 | the four points `mark` offers are distinct and are exactly the cells that share a side with it |
| `PrimSteps.Mark` | src/PrimAlgorithm.java:75-81 | `mark` of an in-bounds cell keeps the grid's shape, the dimensions and the random source; its effect on cells and frontier is stated by the three lemmas below |
| `PrimSteps.MarkCell` | src/PrimAlgorithm.java:76 | `mark` sets IN and clears FRONTIER on its cell and keeps that cell's N, S, E, W bits |
| `PrimSteps.MarkOthers` | src/PrimAlgorithm.java:77-80 | around `mark`, each zero neighbour becomes exactly FRONTIER and no other cell changes |
| `PrimSteps.MarkFrontier` | src/PrimAlgorithm.java:75-81 | `mark` appends to the frontier exactly its in-bounds zero neighbours, in the order west, east, north, south |
| `PrimSteps.Neighbors` | src/PrimAlgorithm.java:83-90 | every point `neighbors` returns is in bounds, shares a side with the cell and is IN |
| `PrimSteps.NeighborsComplete` | src/PrimAlgorithm.java:83-90 | every in-bounds IN cell beside the cell is among those `neighbors` returns |
| `PrimSteps.OpenWall` | src/PrimAlgorithm.java:124-126 | opening a wall sets the direction bit toward the neighbour on the cell and the direction bit back on the neighbour, and changes nothing else |
| `PrimSteps.RemoveAt` | src/PrimAlgorithm.java:117 | `frontier.remove(i)` keeps the other elements in order and removes exactly one occurrence of the i-th |
| `PrimSteps.RemoveAtDistinct` | src/PrimAlgorithm.java:117 | removing from a list without repeats leaves a list without repeats that holds every other element |
| `PrimSteps.Connect` | src/PrimAlgorithm.java:118-127 | connecting the popped cell keeps the grid's shape, the dimensions and the frontier list |
| `PrimRun.ConnectLink` | src/PrimAlgorithm.java:118-127 | `Connect` of a popped cell that touches the maze always opens a wall to some neighbour that is IN, so the branch at line 120 is taken, and changes no other cell |
| `PrimRun.MarkCompletes` | src/PrimAlgorithm.java:130 | marking the popped cell after its wall is opened leaves it exactly IN plus that one wall bit, and its zero neighbours join the frontier |
| `PrimSteps.Step` | src/PrimAlgorithm.java:116-131 | one pass of the loop body keeps the grid's shape and the dimensions |
| `PrimRun.StepFacts` | src/PrimAlgorithm.java:115-131 | under the invariant, every pass of the loop (`Step`) removes a FRONTIER cell, connects it to an IN neighbour and marks it |
| `PrimRun.IterationCell` | src/PrimAlgorithm.java:115-131 | in one pass no cell becomes zero, IN is never cleared, only the popped cell gains IN, and no open wall closes |
| `PrimRun.IterationFrontier` | src/PrimAlgorithm.java:115-131 | after a pass, every frontier point is in bounds with exactly FRONTIER set, there are no duplicates, and every FRONTIER cell is listed |
| `PrimRun.IterationWalls` | src/PrimAlgorithm.java:124-126 | after a pass, every cell is still zero, FRONTIER or IN with wall bits, and every open wall bit is matched by the opposite bit on the cell it leads to |
| `PrimRun.IterationAttached` | src/PrimAlgorithm.java:118-120 | after a pass, every frontier cell still touches the maze, no maze cell has a zero neighbour, and the maze is non-empty |
| `PrimRun.IterationCount` | src/PrimAlgorithm.java:115-131 | a pass moves exactly the popped cell from not-in-maze to in-maze |
| `PrimRun.StepInv` | src/PrimAlgorithm.java:115-131 | one pass of the main loop (`Step`) keeps the loop invariant and moves exactly one cell into the maze |
| `PrimRun.StartMark` | src/PrimAlgorithm.java:111 | marking the start cell of an all-zero grid leaves it exactly IN, with its in-bounds neighbours exactly FRONTIER and listed once |
| `PrimRun.InitialInv` | src/PrimAlgorithm.java:111 | the state after the start cell is marked satisfies the loop invariant, with the start cell alone in the maze and no wall open |
| `PrimRun.Run` | src/PrimAlgorithm.java:115-132 | the main loop terminates with an empty frontier, keeps the invariant and the dimensions |
| `PrimRun.Iterations` | src/PrimAlgorithm.java:115-132 | the loop runs no pass exactly when the frontier is empty, and never more passes than there are cells outside the maze |
| `PrimRun.IterationsAddCells` | src/PrimAlgorithm.java:115-131 | each iteration of the main loop adds exactly one cell to the maze |
| `PrimRun.StartCell` | src/PrimAlgorithm.java:111 | the start cell, column drawn before row, is a cell of the grid |
| `PrimRun.Start` | src/PrimAlgorithm.java:104-111 | the state before the main loop: the given dimensions, the invariant, exactly the random start cell in the maze, no wall open |
| `PrimRun.Generate` | src/PrimAlgorithm.java:103-138 | `generateMaze` ends with an empty frontier, the invariant and the given dimensions |
| `MazeProperties.Spread` | src/PrimAlgorithm.java:115-131 | once the frontier is empty, every cell is reachable from a maze cell by maze cells, so every cell is IN |
| `MazeProperties.Complete` | src/PrimAlgorithm.java:115-131 | once the frontier is empty, every cell is IN with only wall bits beside it |
| `MazeProperties.CompleteCount` | src/PrimAlgorithm.java:115-131 | once the frontier is empty, the maze holds all `width * height` cells |
| `MazeProperties.GenerateShape` | src/PrimAlgorithm.java:104-106 | after `generateMaze`, the grid has a cell at exactly the points of `height` rows of `width` columns, `width * height` cells in all |
| `MazeProperties.GenerateComplete` | src/PrimAlgorithm.java:115-131 | after `generateMaze`, every cell has IN set and FRONTIER clear |
| `MazeProperties.GenerateIterations` | src/PrimAlgorithm.java:115-131 | the main loop runs exactly `width * height - 1` times |
| `MazeProperties.GenerateSymmetric` | src/PrimAlgorithm.java:124-126 | after `generateMaze`, every open side leads to a cell of the grid, and two cells that share a side agree on whether the wall between them is open |
| `MazePassages.IterationPassages` | src/PrimAlgorithm.java:124-126 | a pass opens exactly one wall, and that wall was closed before |
| `MazePassages.StepPassages` | src/PrimAlgorithm.java:115-131 | each pass of the main loop adds exactly one open wall |
| `MazePassages.StartPassages` | src/PrimAlgorithm.java:106 | a grid without wall bits has no open walls |
| `MazePassages.RunPassages` | src/PrimAlgorithm.java:115-131 | the main loop keeps the open walls one fewer than the maze cells |
| `MazePassages.GeneratePassages` | src/PrimAlgorithm.java:103-132 | the finished maze has exactly `width * height - 1` open walls |
| `MazePaths.IterationOpens` | src/PrimAlgorithm.java:124-126 | the wall a pass opens is open from both sides |
| `MazePaths.IterationReach` | src/PrimAlgorithm.java:118-130 | a pass keeps every maze cell reachable from the start cell through open walls |
| `MazePaths.RunReach` | src/PrimAlgorithm.java:115-131 | the main loop keeps every maze cell reachable from the start cell |
| `MazePaths.PassagesAreOpenWalls` | src/PrimAlgorithm.java:124-126 | under the invariant, the counted walls are exactly the walls open from both sides, each counted once, so the graph counted by `GeneratePassages` is the graph `GenerateConnected` proves connected |
| `MazePaths.GenerateConnected` | src/PrimAlgorithm.java:103-132 | in the finished maze every cell reaches every other cell through open walls |
| `PrimMaze.GeneratedCells` | comp6030-2025-26-pg1/src/PrimAlgorithmTest.java:13-39 | an array holding a generated maze has `height` rows and `width` columns, and every cell is IN with FRONTIER clear |
| `PrimMaze.PrimAlgorithm.constructor` | src/PrimAlgorithm.java:53-56 | `new PrimAlgorithm(seed)` holds the random source of that seed, zero dimensions and an empty frontier |
| `PrimMaze.PrimAlgorithm.NextInt` | src/PrimAlgorithm.java:111 | the generator draws from its random source and changes no other field |
| `PrimMaze.PrimAlgorithm.SetCell` | src/PrimAlgorithm.java:70-76 | one write `grid[row][col] = ...` (the `=` and `|=` updates at lines 70, 76, 125 and 126) changes the modelled grid at that point alone |
| `PrimMaze.PrimAlgorithm.AddFrontier` | src/PrimAlgorithm.java:68-73 | the in-place `addFrontier` leaves the fields in exactly the state `PrimSteps.AddFrontier` gives |
| `PrimMaze.PrimAlgorithm.Mark` | src/PrimAlgorithm.java:75-81 | the in-place `mark` leaves the fields in exactly the state `PrimSteps.Mark` gives |
| `PrimMaze.PrimAlgorithm.OfferAround` | src/PrimAlgorithm.java:77-80 | the four `addFrontier` calls offer west, east, north and south in that order |
| `PrimMaze.PrimAlgorithm.Neighbors` | src/PrimAlgorithm.java:83-90 | reading the grid, `neighbors` returns exactly the list `PrimSteps.Neighbors` describes |
| `PrimMaze.PrimAlgorithm.OpenWall` | src/PrimAlgorithm.java:124-126 | the two in-place `|=` updates open the wall on both sides, as `PrimSteps.OpenWall` describes |
| `PrimMaze.PrimAlgorithm.ConnectToMaze` | src/PrimAlgorithm.java:118-127 | the in-place connection step gives the state `PrimSteps.Connect` describes |
| `PrimMaze.PrimAlgorithm.Iterate` | src/PrimAlgorithm.java:116-131 | one pass of the loop body gives exactly the state `PrimSteps.Step` describes |
| `PrimMaze.PrimAlgorithm.GenerateMaze` | src/PrimAlgorithm.java:103-138 | `generateMaze` allocates a fresh `height` by `width` grid and leaves exactly the state `Generate` gives for the dimensions and the random source held before the call |
| `PrimScenarios.GridDimensions` | comp6030-2025-26-pg1/src/PrimAlgorithmTest.java:8-19 | after `generateMaze(width, height)` the grid has `height` rows and `width` columns |
| `PrimScenarios.AllCellsInMaze` | comp6030-2025-26-pg1/src/PrimAlgorithmTest.java:22-41 | a scan of the generated grid finds every cell IN and no cell FRONTIER |
| `PrimScenarios.SameSeedSameMaze` | comp6030-2025-26-pg1/src/PrimAlgorithmTest.java:45-61 | two generators built from the same random source produce equal grids, cell by cell |

## Left out

- `draw` (src/PrimAlgorithm.java:150-193) is Swing rendering. It is UI and only reads the grid.
- `repaintIfAnimated`, the panel, `Thread.sleep` and the `InterruptedException` handler (src/PrimAlgorithm.java:61-63, 112, 131, 133-148) only pace and animate the run; they do not change the grid. Without animation the handler is never reached. An interrupt during animation would stop the loop early, and that early stop is not modelled.
- `System.out.println` of the seed (src/PrimAlgorithm.java:137) is console output.
- The internals of `java.util.Random` are not modelled. A random source is an arbitrary stream of draws, and `nextInt(bound)` reduces the next draw into `[0, bound)`. That stream covers every choice sequence the generator could make. The time-seeded constructor (src/PrimAlgorithm.java:48-51) is the same as the seeded one with an unknown stream.
- `getGrid` (src/PrimAlgorithm.java:199-201) is a read accessor. The scenario methods read the `grid` field directly instead.
- PrimMaze.PrimAlgorithm.GenerateMaze: requires `width > 0 && height > 0`. With other dimensions the source fails inside `new int[..]` or `nextInt`, and the model does not capture those exceptions.
- MazeProperties.GenerateShape: does not model the Java `int` limits. A `width * height` grid that overflows memory or 32-bit sizes is out of scope; all arithmetic here is on unbounded integers.
- `MazePaths.GenerateConnected` and `MazePassages.GeneratePassages` give connectivity and exactly `width * height - 1` open walls. Acyclicity is not proved as a separate lemma. It follows from these two by the standard fact that a connected graph on `n` nodes with `n - 1` edges is a tree.
- PrimMaze.PrimAlgorithm.constructor: the Java constructor leaves `grid` null until `generateMaze` runs, and `getGrid` and `draw` can observe that null. The model allocates a 0 by 0 array instead, so it does not capture the null grid or the early return of `draw` on it.
- `src/Main.java` (window and page plumbing) and the `MazeAlgorithm` interface are not part of this model.
