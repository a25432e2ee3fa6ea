/**
 The motion controller: the sphere's centre row moves by a fixed step each
 frame and the direction turns round once the centre has passed within
 `radius` of the top or bottom edge of the picture.
 */
module Motion {

  /** Rows the centre moves per frame. */
  const STEP: int := 5

  /** The controller's state between frames: the centre row and the direction. */
  datatype MotionState = MotionState(centerY: int, goingUp: bool)

  /** `moveCenter`: one step up (towards row 0) or down. */
  function MoveCenter(centerY: int, up: bool): (r: int)
    ensures up ==> r < centerY
    ensures !up ==> r > centerY
    ensures r - centerY == STEP || centerY - r == STEP
  {
    if up then centerY - STEP else centerY + STEP
  }

  /** The direction update applied to the freshly moved centre. */
  function Bounce(centerY: int, goingUp: bool, height: int, radius: int): (up: bool)
    ensures centerY < radius ==> !up
    ensures radius <= centerY && centerY > height - radius ==> up
    ensures radius <= centerY <= height - radius ==> up == goingUp
  {
    if centerY < radius then false
    else if centerY > height - radius then true
    else goingUp
  }

  /**
   What the loop keeps: the centre never strays more than one step past a
   bound, and when it is past a bound it is heading back.
   */
  predicate Inv(s: MotionState, height: int, radius: int)
  {
    && (s.centerY < radius ==> !s.goingUp)
    && (s.centerY > height - radius ==> s.goingUp)
    && radius - STEP <= s.centerY <= height - radius + STEP
  }

  /**
   One frame of the controller: move, then update the direction from the
   new row. The direction changes only when the new row is outside the band
   `[radius, height - radius]`, and whenever the two bounds do not cross
   the step keeps the invariant.
   */
  function Step(s: MotionState, height: int, radius: int): (t: MotionState)
    ensures t.centerY - s.centerY == STEP || s.centerY - t.centerY == STEP
    ensures t.goingUp != s.goingUp ==> t.centerY < radius || t.centerY > height - radius
    ensures 2 * radius <= height && Inv(s, height, radius) ==> Inv(t, height, radius)
  {
    var y := MoveCenter(s.centerY, s.goingUp);
    MotionState(y, Bounce(y, s.goingUp, height, radius))
  }

  /** The sphere's radius for a picture of the given height (C++ `height/10`). */
  function RadiusFor(height: nat): (r: nat)
    ensures 2 * r <= height
  {
    height / 10
  }

  /** The controller state before the first frame: the middle row, heading down. */
  function Start(height: nat): (s: MotionState)
    ensures !s.goingUp
    ensures Inv(s, height, RadiusFor(height))
  {
    MotionState(height / 2, false)
  }

  /**
   The controller state after `n` frames of a picture of the given height.
   Every centre the frame loop produces lies within one step of the band
   `[radius, height - radius]`, and when outside it the sphere heads back.
   */
  function After(n: nat, height: nat): (s: MotionState)
    ensures Inv(s, height, RadiusFor(height))
  {
    if n == 0 then Start(height) else Step(After(n - 1, height), height, RadiusFor(height))
  }
}
