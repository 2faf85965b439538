/** Grid geometry of the snake board: the screen constants, the cell type,
    the four direction codes and the one-cell step in a direction. */
module Grid {

  const ScreenWidth: int := 640
  const ScreenHeight: int := 440
  /** Height of the strip above the board that holds the info text. */
  const InfoAreaHeight: int := ScreenHeight / 11
  const GameBoardHeight: int := ScreenHeight - InfoAreaHeight
  const CellSize: int := 20
  /** Number of cells in a row: the range of x. */
  const RowCells: int := ScreenWidth / CellSize
  /** Number of cells in a column: the range of y. */
  const ColCells: int := GameBoardHeight / CellSize
  /** Size of the segment buffer, one slot per cell of the board. */
  const Capacity: int := RowCells * ColCells

  /** The direction codes. Any other integer is not a direction. */
  const Right: int := 0
  const Left: int := 1
  const Up: int := 2
  const Down: int := 3

  /** A grid position; used both for snake segments and for the dot.
      y grows downwards, as on the screen. */
  datatype Cell = Cell(x: int, y: int)

  predicate IsDirection(d: int) {
    Right <= d <= Down
  }

  predicate InGrid(c: Cell) {
    0 <= c.x < RowCells && 0 <= c.y < ColCells
  }

  /** The cell one step from `c` in direction `d`; a non-direction does not move. */
  function Step(c: Cell, d: int): (r: Cell)
    ensures IsDirection(d) ==> r != c && Distance(r, c) == 1
    ensures !IsDirection(d) ==> r == c
  {
    if d == Right then Cell(c.x + 1, c.y)
    else if d == Left then Cell(c.x - 1, c.y)
    else if d == Up then Cell(c.x, c.y - 1)
    else if d == Down then Cell(c.x, c.y + 1)
    else c
  }

  /** Manhattan distance between two cells. */
  function Distance(a: Cell, b: Cell): nat {
    (if a.x < b.x then b.x - a.x else a.x - b.x) + (if a.y < b.y then b.y - a.y else a.y - b.y)
  }

  /** The head is exactly on the edge of the board that direction `d` points
      at (the equality test the movement code performs). */
  predicate AtEdge(c: Cell, d: int) {
    if d == Right then c.x == RowCells - 1
    else if d == Left then c.x == 0
    else if d == Up then c.y == 0
    else if d == Down then c.y == ColCells - 1
    else false
  }

  /** There is at least one more column or row of the board in direction `d`
      (the strict comparison the turn and input code performs). */
  predicate HasRoom(c: Cell, d: int) {
    if d == Right then c.x < RowCells - 1
    else if d == Left then c.x > 0
    else if d == Up then c.y > 0
    else if d == Down then c.y < ColCells - 1
    else false
  }

  function Opposite(d: int): (r: int)
    requires IsDirection(d)
    ensures IsDirection(r) && r != d
  {
    if d == Right then Left
    else if d == Left then Right
    else if d == Up then Down
    else Up
  }

  /** A quarter turn clockwise on the screen (y pointing down). */
  function Clockwise(d: int): (r: int)
    requires IsDirection(d)
    ensures IsDirection(r) && r != d && r != Opposite(d)
  {
    if d == Right then Down
    else if d == Down then Left
    else if d == Left then Up
    else Right
  }

  function CounterClockwise(d: int): (r: int)
    requires IsDirection(d)
    ensures IsDirection(r) && r != d && r != Opposite(d) && Clockwise(r) == d
  {
    Opposite(Clockwise(d))
  }

  /** Inside the board, having room in a direction is the same as not
      standing on the edge it points at. */
  lemma RoomIsNotEdge(c: Cell, d: int)
    requires InGrid(c) && IsDirection(d)
    ensures HasRoom(c, d) <==> !AtEdge(c, d)
    ensures HasRoom(c, d) <==> InGrid(Step(c, d))
  {
  }

  /** The board is 32 cells wide and 20 cells high. */
  lemma BoardSize()
    ensures RowCells == 32 && ColCells == 20 && Capacity == 640
  {
  }
}
