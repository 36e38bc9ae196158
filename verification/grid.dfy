/**
 The playing field of script.js: the canvas configuration, grid cells and the
 four unit directions the snake can travel in.
 */
module Grid {

  /** GAME_CONFIG (script.js:2-13); colours and frame rate are presentation only. */
  const CanvasWidth: int := 800
  const CanvasHeight: int := 600
  const BlockSize: int := 20

  /** Cells per row and per column: 800/20 = 40 and 600/20 = 30 (both divisions are exact). */
  const GridWidth: int := CanvasWidth / BlockSize
  const GridHeight: int := CanvasHeight / BlockSize

  /** One grid-aligned block, in cell (not pixel) coordinates. */
  datatype Cell = Cell(x: int, y: int)

  /** The source's direction objects {x, y}; only these four values ever occur. */
  datatype Direction = Up | Down | Left | Right

  /** The x component of a direction's unit vector. */
  function Dx(d: Direction): int {
    match d
    case Left => -1
    case Right => 1
    case _ => 0
  }

  /** The y component of a direction's unit vector (y grows downwards, as on a canvas). */
  function Dy(d: Direction): int {
    match d
    case Up => -1
    case Down => 1
    case _ => 0
  }

  /** The direction whose unit vector is the negation of `d`'s. */
  function Opposite(d: Direction): (o: Direction)
    ensures Dx(o) == -Dx(d) && Dy(o) == -Dy(d)
    ensures o != d
  {
    match d
    case Up => Down
    case Down => Up
    case Left => Right
    case Right => Left
  }

  /** The cell one step from `c` in direction `d`. */
  function Move(c: Cell, d: Direction): Cell {
    Cell(c.x + Dx(d), c.y + Dy(d))
  }

  function Abs(n: int): nat {
    if n < 0 then -n else n
  }

  /** Two cells share an edge. */
  predicate Adjacent(a: Cell, b: Cell) {
    Abs(a.x - b.x) + Abs(a.y - b.y) == 1
  }

  /** The cell lies on the 40 x 30 board. */
  predicate InGrid(c: Cell) {
    0 <= c.x < GridWidth && 0 <= c.y < GridHeight
  }

  /** A step always lands on a neighbouring cell, and stepping back undoes it. */
  lemma MoveIsAdjacentStep(c: Cell, d: Direction)
    ensures Adjacent(Move(c, d), c)
    ensures Move(Move(c, d), Opposite(d)) == c
  {
  }

  /** From one cell, distinct directions reach distinct cells. */
  lemma MoveInjective(c: Cell, d: Direction, e: Direction)
    ensures Move(c, d) == Move(c, e) <==> d == e
  {
  }
}
