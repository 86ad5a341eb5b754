/**
 * The playing field of the snake game: a 640 x 480 pixel screen cut into
 * 20-pixel cells (32 x 24 cells), the four directions of travel, the one-cell
 * step with wrap-around at the screen edges, and the random choice of a cell.
 */
module Grid {
  const ScreenWidth: int := 640
  const ScreenHeight: int := 480
  const GridSize: int := 20
  const GridWidth: int := ScreenWidth / GridSize
  const GridHeight: int := ScreenHeight / GridSize

  /** A cell, given by the pixel coordinates of its top-left corner. */
  datatype Cell = Cell(x: int, y: int)

  /** The centre of the screen, where the snake is born and reborn. */
  const Start: Cell := Cell(ScreenWidth / 2, ScreenHeight / 2)

  datatype Direction = Up | Down | Left | Right

  /** The order in which the move step tries the directions. */
  const Directions: seq<Direction> := [Right, Left, Up, Down]

  /** The unit vector (dx, dy) of a direction; y grows downwards. */
  function Vector(d: Direction): (int, int) {
    match d
    case Up => (0, -1)
    case Down => (0, 1)
    case Left => (-1, 0)
    case Right => (1, 0)
  }

  /** The direction that points the other way. */
  function Opposite(d: Direction): (r: Direction)
    ensures Vector(r) == (-Vector(d).0, -Vector(d).1)
    ensures r != d
  {
    match d
    case Up => Down
    case Down => Up
    case Left => Right
    case Right => Left
  }

  /** Where `d` sits in `Directions`. */
  function DirectionIndex(d: Direction): (i: nat)
    ensures i < |Directions| && Directions[i] == d
    ensures forall j :: 0 <= j < |Directions| && Directions[j] == d ==> j == i
  {
    match d
    case Right => 0
    case Left => 1
    case Up => 2
    case Down => 3
  }

  /** A cell on the screen whose corner lies on the 20-pixel lattice. */
  predicate OnGrid(c: Cell) {
    0 <= c.x < ScreenWidth && 0 <= c.y < ScreenHeight &&
    c.x % GridSize == 0 && c.y % GridSize == 0
  }

  /**
   * The cell one step from `head` in direction `d`: shift by one cell, then
   * move a coordinate that left the screen to the opposite edge. Only the
   * first coordinate found off-screen is corrected, x before y, and only the
   * exact one-cell overshoot on the far side is recognised.
   */
  function Advance(head: Cell, d: Direction): (r: Cell)
    ensures OnGrid(head) ==> OnGrid(r)
    ensures OnGrid(head) ==>
      r == Cell((head.x + Vector(d).0 * GridSize) % ScreenWidth,
                (head.y + Vector(d).1 * GridSize) % ScreenHeight)
    ensures OnGrid(head) ==> r != head
  {
    var (mx, my) := Vector(d);
    var x := head.x + mx * GridSize;
    var y := head.y + my * GridSize;
    if x < 0 then Cell(ScreenWidth - GridSize, y)
    else if x == ScreenWidth then Cell(0, y)
    else if y < 0 then Cell(x, ScreenHeight - GridSize)
    else if y == ScreenHeight then Cell(x, 0)
    else Cell(x, y)
  }

  /** The cell at column `ix`, row `iy`: what one pair of randint draws picks. */
  function RandomCell(ix: int, iy: int): (r: Cell)
    requires 0 <= ix < GridWidth && 0 <= iy < GridHeight
    ensures OnGrid(r)
    ensures r.x / GridSize == ix && r.y / GridSize == iy
  {
    Cell(ix * GridSize, iy * GridSize)
  }

  /** Every cell on the grid is the pick of exactly one pair of draws. */
  lemma RandomCellCovers(c: Cell)
    requires OnGrid(c)
    ensures 0 <= c.x / GridSize < GridWidth && 0 <= c.y / GridSize < GridHeight
    ensures RandomCell(c.x / GridSize, c.y / GridSize) == c
  {
  }

  /** The wrap-around at the four edges, on the cells that cross them. */
  lemma WrapsAtEdges(y: int, x: int)
    requires 0 <= y < ScreenHeight && y % GridSize == 0
    requires 0 <= x < ScreenWidth && x % GridSize == 0
    ensures Advance(Cell(ScreenWidth - GridSize, y), Right) == Cell(0, y)
    ensures Advance(Cell(0, y), Left) == Cell(ScreenWidth - GridSize, y)
    ensures Advance(Cell(x, ScreenHeight - GridSize), Down) == Cell(x, 0)
    ensures Advance(Cell(x, 0), Up) == Cell(x, ScreenHeight - GridSize)
  {
  }
}
