/**
 * Cells, directions and points of the maze grid.
 *
 * A cell is a set of bit flags. N, S, E and W mean that the wall on that side
 * is open; IN marks a cell that belongs to the maze; FRONTIER marks a pending
 * candidate. The grid is stored row by row and read as `grid[row][col]`,
 * while a point is `(x, y) = (col, row)`.
 */
module MazeGrid {

  /** One cell. The source keeps it in a Java int; only the six low bits are ever set. */
  type Cell = bv8

  const N: Cell := 1
  const S: Cell := 2
  const E: Cell := 4
  const W: Cell := 8
  const IN: Cell := 16
  const FRONTIER: Cell := 32

  /** The four wall bits together. */
  const WALLS: Cell := 15

  predicate IsDir(d: Cell) {
    d == N || d == S || d == E || d == W
  }

  /** `OPPOSITE.get(d)`: the same wall seen from the cell on its other side. */
  function Opposite(d: Cell): (r: Cell)
    requires IsDir(d)
    ensures IsDir(r) && r != d
  {
    if d == N then S else if d == S then N else if d == E then W else E
  }

  /** `(c & flag) != 0` */
  predicate Has(c: Cell, flag: Cell) {
    c & flag != 0
  }

  lemma OppositeInvolutive(d: Cell)
    requires IsDir(d)
    ensures Opposite(Opposite(d)) == d
  {
  }

  /** A grid position: x is the column, y the row. */
  datatype Point = Point(x: int, y: int)

  /** The point one step away in direction d: N is the row above (y - 1), S the row below. */
  function Move(p: Point, d: Cell): Point
    requires IsDir(d)
  {
    if d == N then Point(p.x, p.y - 1)
    else if d == S then Point(p.x, p.y + 1)
    else if d == E then Point(p.x + 1, p.y)
    else Point(p.x - 1, p.y)
  }

  /** p and q share a side. */
  predicate Adjacent(p: Point, q: Point) {
    (p.x == q.x && (p.y == q.y + 1 || q.y == p.y + 1)) ||
    (p.y == q.y && (p.x == q.x + 1 || q.x == p.x + 1))
  }

  /** The compass direction from one cell to a cell beside it. */
  function Direction(from: Point, to: Point): (d: Cell)
    ensures IsDir(d)
    ensures Adjacent(from, to) ==> Move(from, d) == to
  {
    if from.x < to.x then E
    else if from.x > to.x then W
    else if from.y < to.y then S
    else N
  }

  /** Direction inverts Move, and the way back is the opposite direction. */
  lemma DirectionOfMove(p: Point, d: Cell)
    requires IsDir(d)
    ensures Adjacent(p, Move(p, d))
    ensures Direction(p, Move(p, d)) == d
    ensures Direction(Move(p, d), p) == Opposite(d)
  {
  }

  /** Between two cells that share a side, the two directions are each other's Opposite. */
  lemma DirectionSymmetric(p: Point, q: Point)
    requires Adjacent(p, q)
    ensures Direction(q, p) == Opposite(Direction(p, q))
    ensures Move(q, Direction(q, p)) == p
  {
  }

  predicate InBounds(w: int, h: int, p: Point) {
    0 <= p.x < w && 0 <= p.y < h
  }

  /**
   * The grid: the cell at every point. The source keeps it as rows,
   * `grid[row][col]`; here it is keyed by the point `(col, row)`.
   */
  type Grid = map<Point, Cell>

  /** `g` has a cell at exactly the points of `height` rows of `width` columns. */
  ghost predicate Rectangular(g: Grid, w: int, h: int) {
    forall p {:trigger p in g} :: p in g <==> InBounds(w, h, p)
  }

  /** `new int[height][width]`: every cell zero. */
  function Zeros(w: int, h: int): (g: Grid)
    ensures Rectangular(g, w, h)
    ensures forall p :: p in g ==> g[p] == 0
  {
    map p | p in AllPoints(w, h) :: 0
  }

  /** Every point of a w by h grid. */
  function AllPoints(w: int, h: int): (r: set<Point>)
    ensures forall p :: p in r <==> InBounds(w, h, p)
  {
    set x, y | 0 <= x < w && 0 <= y < h :: Point(x, y)
  }

  function Row(w: int, y: int): (r: set<Point>)
    ensures forall p :: p in r <==> 0 <= p.x < w && p.y == y
  {
    set x | 0 <= x < w :: Point(x, y)
  }

  lemma {:induction false} RowSize(w: nat, y: int)
    ensures |Row(w, y)| == w
  {
    if w > 0 {
      var rest, last := Row(w - 1, y), Point(w - 1, y);
      RowSize(w - 1, y);
      assert last !in rest;
      assert Row(w, y) == rest + {last};
    } else {
      assert Row(w, y) == {};
    }
  }

  /** A w by h grid has w * h cells. */
  lemma {:induction false} AllPointsSize(w: nat, h: nat)
    ensures |AllPoints(w, h)| == w * h
  {
    if h > 0 {
      var rest, last := AllPoints(w, h - 1), Row(w, h - 1);
      AllPointsSize(w, h - 1);
      RowSize(w, h - 1);
      AllPointsSplit(w, h);
      DisjointUnionSize(rest, last);
      MulStep(w, h);
    } else {
      assert AllPoints(w, h) == {};
    }
  }

  /** The points of h rows are those of the first h - 1 rows and those of the last row. */
  lemma AllPointsSplit(w: nat, h: nat)
    requires h > 0
    ensures AllPoints(w, h) == AllPoints(w, h - 1) + Row(w, h - 1)
    ensures AllPoints(w, h - 1) * Row(w, h - 1) == {}
  {
  }

  lemma MulStep(w: nat, h: nat)
    requires h > 0
    ensures w * (h - 1) + w == w * h
  {
  }

  /** Disjoint sets of points: the union has as many as both together. */
  lemma DisjointUnionSize(a: set<Point>, b: set<Point>)
    requires a * b == {}
    ensures |a + b| == |a| + |b|
  {
  }
}
