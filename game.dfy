/**
 * The game state of snake.c and its per-frame updates, as the program keeps
 * them: the snake's body is a fixed-size array shifted in place, its length
 * and speed are fields updated step by step, the apple is written through a
 * pointer, and the score is a counter of the main loop.
 *
 * Each method is specified by the value functions of modules Body, Input and
 * Grid, whose properties are proved there.
 */
module Game {
  import opened Grid
  import opened Body
  import opened Input

  /** The Apple struct: one cell position in pixels. */
  class Apple {
    var posX: int
    var posY: int

    function Position(): Vec
      reads this
    {
      Vec(posX, posY)
    }

    constructor (ix: int, iy: int)
      requires 0 <= ix < Columns && 0 <= iy < Rows
      ensures Position() == ApplePosition(ix, iy)
    {
      new;
      Randomize(ix, iy);
    }

    /** randomizeApple, with the two random grid indices passed in. */
    method Randomize(ix: int, iy: int)
      requires 0 <= ix < Columns && 0 <= iy < Rows
      modifies this
      ensures Position() == ApplePosition(ix, iy)
      ensures Aligned(Position()) && OnBoard(Position())
    {
      posX := ix * SquareSize;
      posY := iy * SquareSize;
    }
  }

  /** The Snake struct: `length` cells of the fixed-size `body` array, head first, and a speed. */
  class Snake {
    var length: int
    var body: array<Vec>
    var speed: Vec

    ghost predicate Valid()
      reads this
    {
      body.Length == Capacity && 1 <= length <= Capacity
    }

    /** The occupied cells, head first. */
    ghost function Cells(): (s: seq<Vec>)
      reads this, body
      requires Valid()
      ensures |s| == length
    {
      body[..length]
    }

    /** `Snake snake = { 0 }` followed by the initialisation of main: one cell at (32, 32), at rest. */
    constructor ()
      ensures Valid() && fresh(body)
      ensures Cells() == [Vec(SquareSize, SquareSize)] && speed == Zero
      ensures forall i :: 1 <= i < Capacity ==> body[i] == Zero
    {
      length := 1;
      body := new Vec[Capacity](i => if i == 0 then Vec(SquareSize, SquareSize) else Zero);
      speed := Zero;
    }

    /**
     * moveSnake: from the tail down to cell 1 every cell copies its
     * predecessor, then the head moves by the speed. The length does not
     * change and the array beyond it is untouched.
     */
    method Move()
      requires Valid()
      modifies body
      ensures Valid()
      ensures Cells() == Moved(old(Cells()), speed)
      ensures forall k :: length <= k < Capacity ==> body[k] == old(body[k])
    {
      var i := length - 1;
      while i > 0
        invariant 0 <= i <= length - 1
        invariant forall k :: 0 <= k <= i ==> body[k] == old(body[k])
        invariant forall k :: i < k < length ==> body[k] == old(body[k - 1])
        invariant forall k :: length <= k < Capacity ==> body[k] == old(body[k])
      {
        body[i] := body[i - 1];
        i := i - 1;
      }
      body[0] := Vec(body[0].x + speed.x, body[0].y + speed.y);
    }

    /**
     * The growth step of the main loop: the last cell is copied into the next
     * free slot of the array and the length goes up by one. The source does
     * not check the bound, so a free slot is required.
     */
    method Grow()
      requires Valid() && length < Capacity
      modifies this`length, body
      ensures Valid() && length == old(length) + 1
      ensures Cells() == Grown(old(Cells()))
      ensures forall k :: length <= k < Capacity ==> body[k] == old(body[k])
    {
      ghost var cells := Cells();
      body[length] := body[length - 1];
      length := length + 1;
      assert Cells() == cells + [cells[|cells| - 1]];
    }
  }

  /** The state kept by main: the snake, the apple and the score. */
  class Game {
    var snake: Snake
    var apple: Apple
    var score: int

    ghost predicate Valid()
      reads this, snake
    {
      snake.Valid() && score >= 0
    }

    /** The grid invariant: body and apple on cells, speed at rest or one cell along an axis. */
    ghost predicate OnGrid()
      reads this, snake, snake.body, apple
      requires Valid()
    {
      AllAligned(snake.Cells()) && IsStep(snake.speed) && Aligned(apple.Position())
    }

    /** Where the head will be after the movement part of the next tick. */
    ghost function NextHead(): Vec
      reads this, snake, snake.body
      requires Valid()
    {
      Advance(snake.Cells(), snake.speed)[0]
    }

    /** The start of main: the initial snake, an apple at the first random draw and score zero. */
    constructor (ix: int, iy: int)
      requires 0 <= ix < Columns && 0 <= iy < Rows
      ensures Valid() && OnGrid()
      ensures fresh(snake) && fresh(snake.body) && fresh(apple)
      ensures snake.Cells() == [Vec(SquareSize, SquareSize)] && snake.speed == Zero
      ensures apple.Position() == ApplePosition(ix, iy) && score == 0
    {
      snake := new Snake();
      apple := new Apple(ix, iy);
      score := 0;
    }

    /**
     * The input block of the main loop, with the key states of this frame as
     * parameters (`right` is D or the right arrow, and so on).
     */
    method ApplyInput(right: bool, left: bool, up: bool, down: bool)
      requires Valid()
      modifies snake`speed
      ensures Valid()
      ensures snake.speed == Steer(old(snake.speed), right, left, up, down)
      ensures old(OnGrid()) ==> OnGrid()
    {
      if right && snake.speed.x == 0 {
        snake.speed := Right;
      }
      if left && snake.speed.x == 0 {
        snake.speed := Left;
      }
      if up && snake.speed.y == 0 {
        snake.speed := Up;
      }
      if down && snake.speed.y == 0 {
        snake.speed := Down;
      }
      if old(OnGrid()) {
        SteerIsStep(old(snake.speed), right, left, up, down);
      }
    }

    /**
     * One tick of the game: move unless at rest; if the head is on the apple,
     * grow by a copy of the last cell, add one to the score and place a new
     * apple at the random indices `ix`, `iy`; report whether the head hit a
     * wall, which ends the main loop.
     *
     * The growth writes body[length] with no bound check, so a tick that eats
     * needs a free slot in the body array.
     */
    method Tick(ix: int, iy: int) returns (gameOver: bool)
      requires Valid()
      requires 0 <= ix < Columns && 0 <= iy < Rows
      requires NextHead() == apple.Position() ==> snake.length < Capacity
      modifies snake`length, snake.body, this`score, apple
      ensures Valid()
      ensures snake.speed == old(snake.speed)
      ensures var moved := Advance(old(snake.Cells()), old(snake.speed));
              var eats := moved[0] == old(apple.Position());
              && snake.Cells() == (if eats then Grown(moved) else moved)
              && score == old(score) + (if eats then 1 else 0)
              && apple.Position() == (if eats then ApplePosition(ix, iy) else old(apple.Position()))
      ensures forall k :: snake.length <= k < Capacity ==> snake.body[k] == old(snake.body[k])
      ensures gameOver == HitsWall(snake.body[0])
      ensures old(OnGrid()) ==> OnGrid()
    {
      ghost var cells0 := snake.Cells();
      ghost var aligned0 := OnGrid();
      if snake.speed.x != 0 || snake.speed.y != 0 {
        snake.Move();
        if aligned0 {
          MovedAligned(cells0, snake.speed);
        }
      }
      ghost var moved := snake.Cells();
      assert moved == Advance(cells0, snake.speed);
      if snake.body[0].x == apple.posX && snake.body[0].y == apple.posY {
        snake.Grow();
        score := score + 1;
        apple.Randomize(ix, iy);
        if aligned0 {
          GrownAligned(moved);
        }
      }
      gameOver := snake.body[0].x < 0 || snake.body[0].x > ScreenWidth
                  || snake.body[0].y < 0 || snake.body[0].y > ScreenHeight;
    }
  }
}
