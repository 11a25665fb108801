/**
 * Direction latching of the main loop: four guarded assignments to the
 * snake's speed, one per key pair (D/right, A/left, W/up, S/down), run in
 * that order every frame. Each guard reads the speed as already updated by
 * the assignments before it in the same frame.
 */
module Input {
  import opened Grid

  /**
   * One guarded assignment: a pressed key for a horizontal direction is taken
   * only while the horizontal speed is zero, one for a vertical direction only
   * while the vertical speed is zero.
   */
  function Latch(speed: Vec, pressed: bool, dir: Vec): Vec
  {
    if pressed && (if dir.y == 0 then speed.x == 0 else speed.y == 0) then dir else speed
  }

  /**
   * The whole input block. Its effect, by the direction the snake is moving:
   * at rest, a vertical key wins over a horizontal one (up over down, right
   * over left); moving horizontally, horizontal keys are ignored; moving
   * vertically, vertical keys are ignored unless a horizontal key was pressed
   * in the same frame, in which case a vertical key still wins.
   */
  function Steer(speed: Vec, right: bool, left: bool, up: bool, down: bool): (r: Vec)
    ensures r == speed || r in {Right, Left, Up, Down}
    ensures speed == Zero ==>
              r == (if up then Up else if down then Down
                    else if right then Right else if left then Left else Zero)
    ensures speed == Right || speed == Left ==>
              r == (if up then Up else if down then Down else speed)
    ensures speed == Up || speed == Down ==>
              r == (if !right && !left then speed
                    else if up then Up else if down then Down
                    else if right then Right else Left)
    ensures !right && !left && !up && !down ==> r == speed
  {
    Latch(Latch(Latch(Latch(speed, right, Right), left, Left), up, Up), down, Down)
  }

  /** The latched speed is always at rest or one cell along one axis. */
  lemma SteerIsStep(speed: Vec, right: bool, left: bool, up: bool, down: bool)
    requires IsStep(speed)
    ensures IsStep(Steer(speed, right, left, up, down))
  {
  }

  /** A horizontally moving snake is never turned around within one frame. */
  lemma SteerKeepsHorizontalHeading(speed: Vec, right: bool, left: bool, up: bool, down: bool)
    requires speed == Right || speed == Left
    ensures Steer(speed, right, left, up, down) != Vec(-speed.x, speed.y)
    ensures Steer(speed, right, left, up, down) in {speed, Up, Down}
  {
  }

  /**
   * A vertically moving snake can be turned around within one frame: a
   * horizontal key is accepted first, after which the opposite vertical key
   * passes its guard.
   */
  lemma SteerReversesVertical()
    ensures Steer(Up, true, false, false, true) == Down
    ensures Steer(Down, false, true, true, false) == Up
  {
  }

  /**
   * The guards read the stored speed, not the direction of the last tick, so
   * two frames without a tick between them can turn a horizontally moving
   * snake around: W then A from right, S then D from left.
   */
  lemma SteerReversesAcrossFrames()
    ensures Steer(Steer(Right, false, false, true, false), false, true, false, false) == Left
    ensures Steer(Steer(Left, false, false, false, true), true, false, false, false) == Right
  {
  }

  /** From rest, D then W in one frame leaves the snake heading up. */
  lemma SteerLastAcceptedWins()
    ensures Steer(Zero, true, false, true, false) == Up
    ensures Steer(Zero, true, true, false, false) == Right
  {
  }
}
