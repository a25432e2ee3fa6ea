/**
 The frame loop of `main`: 300 times, move the centre and update the
 direction, draw the sphere on a fresh copy of the decoded picture, and
 name the result for the encoder. The encoder and the file it writes are
 not modelled; a frame here is what the loop hands to `encode_as_mpff`.
 */
module Sequencer {
  import opened Motion
  import opened Raster
  import opened FrameNames

  const FRAME_COUNT: nat := 300

  /** One iteration's output: the file name, the centre row used, and the drawn copy. */
  datatype Frame = Frame(name: string, centerY: int, picture: Picture)

  /** Frame `i` as the loop produces it: the controller has moved `i + 1` times. */
  function ExpectedFrame(base: Picture, shade: nat -> Byte, i: nat): Frame
  {
    var y := After(i + 1, base.height).centerY;
    Frame(FrameName(i), y, Render(base, base.width / 2, y, RadiusFor(base.height), shade))
  }

  /** The first `n` frames the loop produces, in order. */
  function ExpectedFrames(base: Picture, shade: nat -> Byte, n: nat): (frames: seq<Frame>)
    ensures |frames| == n
    ensures forall i :: 0 <= i < n ==> frames[i] == ExpectedFrame(base, shade, i)
  {
    if n == 0 then [] else ExpectedFrames(base, shade, n - 1) + [ExpectedFrame(base, shade, n - 1)]
  }

  /** What every frame the loop produces satisfies: its row is within one step of the band and its name has 13 characters. */
  lemma ExpectedFrameShape(base: Picture, shade: nat -> Byte, i: nat)
    requires i < FRAME_COUNT
    ensures var f := ExpectedFrame(base, shade, i);
            && RadiusFor(base.height) - STEP <= f.centerY <= base.height - RadiusFor(base.height) + STEP
            && f.name == FrameName(i) && |f.name| == 13
  {
    FrameNameThreeDigits(i);
  }

  /** Consecutive frames have rows exactly one step apart. */
  lemma ExpectedRowsStep(base: Picture, shade: nat -> Byte, i: nat)
    ensures var d := ExpectedFrame(base, shade, i + 1).centerY - ExpectedFrame(base, shade, i).centerY;
            d == STEP || d == -STEP
  {
    assert After(i + 2, base.height) == Step(After(i + 1, base.height), base.height, RadiusFor(base.height));
  }

  /** Every frame's row lies within one step of the band `[radius, height - radius]`. */
  predicate RowsNearBand(frames: seq<Frame>, height: nat)
  {
    forall i :: 0 <= i < |frames| ==>
      RadiusFor(height) - STEP <= frames[i].centerY <= height - RadiusFor(height) + STEP
  }

  /** The rows of neighbouring frames are exactly one step apart. */
  predicate RowsOneStepApart(frames: seq<Frame>)
  {
    forall i, j :: 0 <= i < |frames| && j == i + 1 && j < |frames| ==>
      frames[j].centerY - frames[i].centerY == STEP || frames[i].centerY - frames[j].centerY == STEP
  }

  /** No two frames share a file name. */
  predicate NamesDistinct(frames: seq<Frame>)
  {
    forall i, j :: 0 <= i < j < |frames| ==> frames[i].name != frames[j].name
  }

  /** In a whole run every row lies within one step of the band and every name has 13 characters. */
  lemma ExpectedRunShape(base: Picture, shade: nat -> Byte, frames: seq<Frame>)
    requires frames == ExpectedFrames(base, shade, FRAME_COUNT)
    ensures RowsNearBand(frames, base.height)
    ensures forall i :: 0 <= i < |frames| ==> |frames[i].name| == 13
  {
    forall i | 0 <= i < |frames|
      ensures RadiusFor(base.height) - STEP <= frames[i].centerY <= base.height - RadiusFor(base.height) + STEP
      ensures |frames[i].name| == 13
    {
      ExpectedFrameShape(base, shade, i);
    }
  }

  /** In a whole run neighbouring rows are one step apart. */
  lemma ExpectedRunSteps(base: Picture, shade: nat -> Byte, frames: seq<Frame>)
    requires frames == ExpectedFrames(base, shade, FRAME_COUNT)
    ensures RowsOneStepApart(frames)
  {
    forall i, j | 0 <= i < |frames| && j == i + 1 && j < |frames|
      ensures frames[j].centerY - frames[i].centerY == STEP || frames[i].centerY - frames[j].centerY == STEP
    {
      ExpectedRowsStep(base, shade, i);
    }
  }

  /** In a whole run no two frames share a name. */
  lemma ExpectedRunNames(base: Picture, shade: nat -> Byte, frames: seq<Frame>)
    requires frames == ExpectedFrames(base, shade, FRAME_COUNT)
    ensures NamesDistinct(frames)
  {
    forall i, j | 0 <= i < j < |frames|
      ensures frames[i].name != frames[j].name
    {
      assert frames[i].name == FrameName(i) && frames[j].name == FrameName(j);
      FrameNameInjective(i, j);
    }
  }

  /**
   Runs the loop over a decoded picture `base`. Every frame starts from
   `base` itself (the copy is a value), so drawing one frame never changes
   the picture the next one starts from.
   */
  method RunFrames(base: Picture, shade: nat -> Byte) returns (frames: seq<Frame>)
    requires Wellformed(base)
    ensures |frames| == FRAME_COUNT
    ensures forall i :: 0 <= i < |frames| ==> frames[i] == ExpectedFrame(base, shade, i)
    ensures RowsNearBand(frames, base.height)
    ensures RowsOneStepApart(frames)
    ensures NamesDistinct(frames)
    ensures forall i :: 0 <= i < |frames| ==> |frames[i].name| == 13
  {
    var state := MotionState(base.height / 2, false);
    frames := [];
    var i := 0;
    while i < FRAME_COUNT
      invariant 0 <= i <= FRAME_COUNT && |frames| == i
      invariant state == After(i, base.height)
      invariant frames == ExpectedFrames(base, shade, i)
    {
      var frame;
      state, frame := NextFrame(base, shade, state, i);
      frames := frames + [frame];
      i := i + 1;
    }
    ExpectedRunShape(base, shade, frames);
    ExpectedRunSteps(base, shade, frames);
    ExpectedRunNames(base, shade, frames);
  }

  /** One iteration of the loop: move, bounce, draw on a copy of `base`, name the frame. */
  method NextFrame(base: Picture, shade: nat -> Byte, state: MotionState, i: nat) returns (next: MotionState, frame: Frame)
    requires Wellformed(base) && i < FRAME_COUNT
    requires state == After(i, base.height)
    ensures next == After(i + 1, base.height)
    ensures frame == ExpectedFrame(base, shade, i)
    ensures RadiusFor(base.height) - STEP <= frame.centerY <= base.height - RadiusFor(base.height) + STEP
    ensures frame.name == FrameName(i) && |frame.name| == 13
    ensures frame.centerY == next.centerY
    ensures frame.centerY - state.centerY == STEP || state.centerY - frame.centerY == STEP
  {
    var radius := base.height / 10;
    var centerY := MoveCenter(state.centerY, state.goingUp);
    var goingUp := state.goingUp;
    if centerY < 0 + radius {
      goingUp := false;
    } else if centerY > base.height - radius {
      goingUp := true;
    }
    next := MotionState(centerY, goingUp);
    var copy := DrawSphere(base, base.width / 2, centerY, radius, shade);
    frame := Frame(FrameName(i), centerY, copy);
    ExpectedFrameShape(base, shade, i);
  }
}
