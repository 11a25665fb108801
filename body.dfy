/**
 * The snake's body as a value: the sequence of occupied cells, head first.
 * These functions specify what one tick does to the body (moveSnake and the
 * growth step of the main loop); the class in module Game performs the same
 * updates in place on the fixed-size body array.
 */
module Body {
  import opened Grid

  /** Every cell of the body lies on the grid. */
  ghost predicate AllAligned(cells: seq<Vec>)
  {
    forall i :: 0 <= i < |cells| ==> Aligned(cells[i])
  }

  /**
   * moveSnake: every cell takes its predecessor's old position and the head
   * advances by the speed; the old last cell is dropped.
   */
  function Moved(cells: seq<Vec>, speed: Vec): (r: seq<Vec>)
    requires |cells| >= 1
    ensures |r| == |cells|
    ensures r[0] == Vec(cells[0].x + speed.x, cells[0].y + speed.y)
    ensures forall i :: 1 <= i < |r| ==> r[i] == cells[i - 1]
  {
    [Add(cells[0], speed)] + cells[..|cells| - 1]
  }

  /**
   * The movement part of a tick: moveSnake runs only when the speed is not
   * zero. Without that guard a snake at rest would fold onto its head.
   */
  function Advance(cells: seq<Vec>, speed: Vec): (r: seq<Vec>)
    requires |cells| >= 1
    ensures |r| == |cells|
  {
    if speed.x != 0 || speed.y != 0 then Moved(cells, speed) else cells
  }

  /**
   * Why the guard is needed: shifting a body of two or more distinct leading
   * cells at zero speed copies the head into cell 1 and leaves the head in
   * place, so the body folds onto its head; the guarded move leaves it as it is.
   */
  lemma MovedAtRestFolds(cells: seq<Vec>)
    requires |cells| >= 2 && cells[0] != cells[1]
    ensures Moved(cells, Zero) != cells
    ensures Moved(cells, Zero)[0] == Moved(cells, Zero)[1] == cells[0]
    ensures Advance(cells, Zero) == cells
  {
  }

  /**
   * The growth step after eating: a copy of the last cell is appended, so the
   * body becomes one cell longer with no gap and its old cells stay in place.
   */
  function Grown(cells: seq<Vec>): (r: seq<Vec>)
    requires |cells| >= 1
    ensures |r| == |cells| + 1
    ensures r[..|cells|] == cells
    ensures r[|cells|] == cells[|cells| - 1] == r[|cells| - 1]
  {
    cells + [cells[|cells| - 1]]
  }

  /** Moving a grid-aligned body by a step speed keeps it grid-aligned. */
  lemma MovedAligned(cells: seq<Vec>, speed: Vec)
    requires |cells| >= 1 && AllAligned(cells) && IsStep(speed)
    ensures AllAligned(Moved(cells, speed))
  {
    AddAligned(cells[0], speed);
  }

  /** Growing a grid-aligned body keeps it grid-aligned. */
  lemma GrownAligned(cells: seq<Vec>)
    requires |cells| >= 1 && AllAligned(cells)
    ensures AllAligned(Grown(cells))
  {
    var r := Grown(cells);
    forall i | 0 <= i < |r|
      ensures Aligned(r[i])
    {
      if i < |cells| {
        assert r[i] == r[..|cells|][i];
      }
    }
  }

  /** The body after `n` consecutive moves at a constant speed without eating. */
  function Run(cells: seq<Vec>, speed: Vec, n: nat): (r: seq<Vec>)
    requires |cells| >= 1
    ensures |r| == |cells|
    decreases n
  {
    if n == 0 then cells else Moved(Run(cells, speed, n - 1), speed)
  }

  /**
   * The body is the trail of the head: after `n` moves, cell `i` is where the
   * head was `i` moves ago, and cells the head has not yet replaced are the
   * old cells shifted back by `n`.
   */
  lemma {:induction false} RunTrail(cells: seq<Vec>, speed: Vec, n: nat, i: nat)
    requires |cells| >= 1 && i < |cells|
    ensures i <= n ==> Run(cells, speed, n)[i] == Run(cells, speed, n - i)[0]
    ensures i > n ==> Run(cells, speed, n)[i] == cells[i - n]
  {
    if n > 0 && i > 0 {
      RunTrail(cells, speed, n - 1, i - 1);
    }
  }

  /** After `n` moves the head has travelled `n` steps of the speed. */
  lemma {:induction false} RunHead(cells: seq<Vec>, speed: Vec, n: nat)
    requires |cells| >= 1
    ensures Run(cells, speed, n)[0] == Vec(cells[0].x + n * speed.x, cells[0].y + n * speed.y)
  {
    if n > 0 {
      RunHead(cells, speed, n - 1);
      assert (n - 1) * speed.x + speed.x == n * speed.x;
      assert (n - 1) * speed.y + speed.y == n * speed.y;
    }
  }
}
