/**
 * The playing field of snake.c: screen size, cell size, cell positions in
 * pixels, apple placement and the wall check that ends the game.
 *
 * Every quantity here is an integer. snake.c keeps the snake's body and
 * speed in float vectors, but every value it ever stores is a whole multiple
 * of the cell size, so integers model it exactly.
 */
module Grid {

  const ScreenWidth: int := 960
  const ScreenHeight: int := 672
  const SquareSize: int := 32

  /** Number of cell columns and rows of the drawable field (30 and 21). */
  const Columns: int := ScreenWidth / SquareSize
  const Rows: int := ScreenHeight / SquareSize

  /** Capacity of the body array, evaluated left to right as the C expression is: 960 / 32 * 672 / 32 == 630. */
  const Capacity: int := ScreenWidth / SquareSize * ScreenHeight / SquareSize

  /** A pixel position or a velocity (raylib's Vector2 restricted to integers). */
  datatype Vec = Vec(x: int, y: int)

  const Zero: Vec := Vec(0, 0)
  const Right: Vec := Vec(SquareSize, 0)
  const Left: Vec := Vec(-SquareSize, 0)
  const Up: Vec := Vec(0, -SquareSize)
  const Down: Vec := Vec(0, SquareSize)

  function Add(a: Vec, b: Vec): Vec
  {
    Vec(a.x + b.x, a.y + b.y)
  }

  /** A position on the cell grid: both coordinates are multiples of the cell size. */
  predicate Aligned(v: Vec)
  {
    v.x % SquareSize == 0 && v.y % SquareSize == 0
  }

  /** The speeds the input block can ever store: at rest, or one cell along one axis. */
  predicate IsStep(v: Vec)
  {
    v == Zero || v == Right || v == Left || v == Up || v == Down
  }

  /** Inside the drawn field of Columns x Rows cells. */
  predicate OnBoard(v: Vec)
  {
    0 <= v.x < ScreenWidth && 0 <= v.y < ScreenHeight
  }

  /**
   * randomizeApple: the random column `ix` and row `iy` (drawn by the
   * platform in 0..Columns-1 and 0..Rows-1) become pixel coordinates.
   * The indices are recovered from the position, so distinct draws give
   * distinct apples, and every result is a cell of the field.
   */
  function ApplePosition(ix: int, iy: int): (r: Vec)
    requires 0 <= ix < Columns && 0 <= iy < Rows
    ensures Aligned(r) && OnBoard(r)
    ensures 0 <= r.x <= ScreenWidth - SquareSize && 0 <= r.y <= ScreenHeight - SquareSize
    ensures r.x / SquareSize == ix && r.y / SquareSize == iy
  {
    Vec(ix * SquareSize, iy * SquareSize)
  }

  /** Every cell of the field is a possible apple: ApplePosition is onto the aligned on-board cells. */
  lemma ApplePositionOnto(v: Vec)
    requires Aligned(v) && OnBoard(v)
    ensures 0 <= v.x / SquareSize < Columns && 0 <= v.y / SquareSize < Rows
    ensures ApplePosition(v.x / SquareSize, v.y / SquareSize) == v
  {
  }

  /**
   * The wall check of the tick. It compares with `>` rather than `>=`, so a
   * head in the column just right of the field (x == ScreenWidth) or in the
   * row just below it (y == ScreenHeight) does not end the game; every other
   * position off the field does, and no position on it does.
   */
  predicate HitsWall(head: Vec)
    ensures !HitsWall(head) <==>
              OnBoard(head)
              || (head.x == ScreenWidth && 0 <= head.y <= ScreenHeight)
              || (head.y == ScreenHeight && 0 <= head.x <= ScreenWidth)
  {
    head.x < 0 || head.x > ScreenWidth || head.y < 0 || head.y > ScreenHeight
  }

  /**
   * A head in the column just right of the field or the row just below it
   * (within the bounds of the other axis) is off the field and still alive.
   */
  lemma WallCheckPermissive(head: Vec)
    requires (head.x == ScreenWidth && 0 <= head.y <= ScreenHeight)
             || (head.y == ScreenHeight && 0 <= head.x <= ScreenWidth)
    ensures !OnBoard(head) && !HitsWall(head)
  {
  }

  /** One step of an aligned position by a step speed stays on the grid. */
  lemma AddAligned(p: Vec, v: Vec)
    requires Aligned(p) && IsStep(v)
    ensures Aligned(Add(p, v))
  {
  }
}
