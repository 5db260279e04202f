/** The velocity marquee (`ParallaxText` in app/page.tsx). Each animation frame
    moves the running position `baseX` by the base velocity in the current
    direction, re-reads the direction from the sign of the scroll-velocity
    factor, and adds a feedback term; the rendered offset is `baseX` wrapped into
    the period `wrap(-20, -45, _)` percent. */
module ParallaxText {
  import opened Numbers
  import opened Cyclic

  /** The inputs of one animation frame: the milliseconds since the previous
      frame and the current value of the scroll-velocity factor. */
  datatype Frame = Frame(delta: real, factor: real)

  predicate IsDirection(d: int) {
    d == 1 || d == -1
  }

  /** The direction after a frame: it follows the sign of `factor` and is kept
      when `factor` is zero. */
  function NextDirection(dir: int, factor: real): (d: int)
    requires IsDirection(dir)
    ensures IsDirection(d)
    ensures d as real * factor == Abs(factor)
    ensures factor == 0.0 ==> d == dir
  {
    if factor < 0.0 then -1 else if factor > 0.0 then 1 else dir
  }

  /** How far one frame moves the position: the base move in the direction held
      BEFORE the frame, amplified by `1 + |factor|`. */
  function FrameMove(dir: int, baseVelocity: real, f: Frame): real {
    dir as real * baseVelocity * (f.delta / 1000.0) * (1.0 + Abs(f.factor))
  }

  /** The direction after a sequence of frames, starting from 1. */
  function Direction(frames: seq<Frame>): (d: int)
    ensures IsDirection(d)
  {
    if |frames| == 0 then 1
    else NextDirection(Direction(frames[..|frames| - 1]), frames[|frames| - 1].factor)
  }

  /** The position after a sequence of frames, starting from 0. */
  function Position(baseVelocity: real, frames: seq<Frame>): real {
    if |frames| == 0 then 0.0
    else
      var before := frames[..|frames| - 1];
      Position(baseVelocity, before) + FrameMove(Direction(before), baseVelocity, frames[|frames| - 1])
  }

  /** The feedback term reads the direction AFTER its update, which always has the
      sign of `factor`; so the term is `|factor|` times the base move and only
      ever amplifies it. */
  lemma FeedbackAmplifies(move: real, dir: int, factor: real)
    requires IsDirection(dir)
    ensures move + NextDirection(dir, factor) as real * move * factor == move * (1.0 + Abs(factor))
  {
    var d := NextDirection(dir, factor) as real;
    assert d * move * factor == move * (d * factor);
  }

  /** One frame never reverses the motion: the move has the sign of the old
      direction times the base velocity, and for a non-negative elapsed time it is
      at least as long as the unamplified base move. */
  lemma MoveAtLeastBase(dir: int, baseVelocity: real, f: Frame)
    requires IsDirection(dir)
    requires f.delta >= 0.0
    ensures Abs(FrameMove(dir, baseVelocity, f)) >= Abs(baseVelocity) * (f.delta / 1000.0)
    ensures dir as real * baseVelocity >= 0.0 ==> FrameMove(dir, baseVelocity, f) >= 0.0
    ensures dir as real * baseVelocity <= 0.0 ==> FrameMove(dir, baseVelocity, f) <= 0.0
  {
    var t := f.delta / 1000.0;
    BaseMove(dir, baseVelocity, t);
    ScaleUp(dir as real * baseVelocity * t, 1.0 + Abs(f.factor));
  }

  /** The unamplified move `dir * baseVelocity * t` for a non-negative time `t`. */
  lemma BaseMove(dir: int, baseVelocity: real, t: real)
    requires IsDirection(dir)
    requires t >= 0.0
    ensures Abs(dir as real * baseVelocity * t) == Abs(baseVelocity) * t
    ensures dir as real * baseVelocity >= 0.0 ==> dir as real * baseVelocity * t >= 0.0
    ensures dir as real * baseVelocity <= 0.0 ==> dir as real * baseVelocity * t <= 0.0
  {
    var v := dir as real * baseVelocity;
    assert Abs(v) == Abs(baseVelocity);
    if v >= 0.0 {
      MulNonNegative(v, t);
    } else {
      MulNonNegative(-v, t);
      assert v * t == -((-v) * t);
    }
    if baseVelocity >= 0.0 {
      MulNonNegative(baseVelocity, t);
    } else {
      MulNonNegative(-baseVelocity, t);
      assert baseVelocity * t == -((-baseVelocity) * t);
    }
    assert v * t == dir as real * (baseVelocity * t);
  }

  /** Appending a frame moves the position by that frame's move, taken in the
      direction reached before it, and updates the direction from its factor. */
  lemma StepFrames(baseVelocity: real, frames: seq<Frame>, f: Frame)
    ensures Direction(frames + [f]) == NextDirection(Direction(frames), f.factor)
    ensures Position(baseVelocity, frames + [f])
         == Position(baseVelocity, frames) + FrameMove(Direction(frames), baseVelocity, f)
  {
    assert (frames + [f])[..|frames|] == frames;
  }

  /** With no factor ever seen the direction keeps its initial value 1. */
  lemma {:induction false} DirectionDefault(frames: seq<Frame>)
    requires forall i :: 0 <= i < |frames| ==> frames[i].factor == 0.0
    ensures Direction(frames) == 1
  {
    if |frames| > 0 {
      DirectionDefault(frames[..|frames| - 1]);
    }
  }

  /** The direction is the sign of the last nonzero factor: later zero factors do
      not reset it. */
  lemma {:induction false} DirectionOfLastNonZero(frames: seq<Frame>, i: nat)
    requires i < |frames| && frames[i].factor != 0.0
    requires forall j :: i < j < |frames| ==> frames[j].factor == 0.0
    ensures Direction(frames) == if frames[i].factor < 0.0 then -1 else 1
  {
    if i < |frames| - 1 {
      DirectionOfLastNonZero(frames[..|frames| - 1], i);
    }
  }

  /** With a zero factor on every frame and a fixed frame time, the position after
      `n` frames is `n` base moves. */
  lemma {:induction false} ZeroFactorDrift(baseVelocity: real, frames: seq<Frame>, delta: real)
    requires forall i :: 0 <= i < |frames| ==> frames[i] == Frame(delta, 0.0)
    ensures Position(baseVelocity, frames) == |frames| as real * baseVelocity * (delta / 1000.0)
  {
    if |frames| > 0 {
      var before := frames[..|frames| - 1];
      ZeroFactorDrift(baseVelocity, before, delta);
      DirectionDefault(before);
      var n := |before| as real;
      var m := baseVelocity * (delta / 1000.0);
      assert Position(baseVelocity, frames) == n * m + m;
      assert (n + 1.0) * m == n * m + m;
    }
  }

  /** A marquee with the opposite base velocity, fed the same frames, is at the
      mirrored position after every frame. */
  lemma {:induction false} NegatedVelocity(baseVelocity: real, frames: seq<Frame>)
    ensures Position(-baseVelocity, frames) == -Position(baseVelocity, frames)
  {
    if |frames| > 0 {
      var before := frames[..|frames| - 1];
      NegatedVelocity(baseVelocity, before);
      var d := Direction(before) as real;
      var f := frames[|frames| - 1];
      var rest := (f.delta / 1000.0) * (1.0 + Abs(f.factor));
      assert d * -baseVelocity * rest == -(d * baseVelocity * rest);
    }
  }

  /** At the call `wrap(-20, -45, _)` the period is `(-45, -20]`, so the bound -45
      itself is rendered as -20. */
  lemma CallSiteLowerBound()
    ensures Wrap(-20.0, -45.0, -45.0) == -20.0
  {
    WrapFixesCycle(-20.0, -45.0, -20.0);
    WrapPeriodic(-20.0, -45.0, -20.0, 1);
  }

  /** At the same call, 10 lands two periods lower, at -40. */
  lemma CallSiteExample()
    ensures Wrap(-20.0, -45.0, 10.0) == -40.0
  {
    WrapFixesCycle(-20.0, -45.0, -40.0);
    WrapPeriodic(-20.0, -45.0, -40.0, -2);
  }

  /** One `ParallaxText` instance: `position` is the motion value `baseX` and
      `direction` the ref `directionFactor`. The ghost `frames` records every
      frame the instance has been stepped through. */
  class Marquee {
    const baseVelocity: real
    var position: real
    var direction: int
    ghost var frames: seq<Frame>

    ghost predicate Valid()
      reads this
    {
      && position == Position(baseVelocity, frames)
      && direction == Direction(frames)
    }

    constructor (baseVelocity: real)
      ensures Valid() && frames == []
      ensures this.baseVelocity == baseVelocity
      ensures position == 0.0 && direction == 1
    {
      this.baseVelocity := baseVelocity;
      position := 0.0;
      direction := 1;
      frames := [];
    }

    /** One animation frame, in the order the callback performs it. */
    method Step(delta: real, factor: real)
      requires Valid()
      modifies this
      ensures Valid() && frames == old(frames) + [Frame(delta, factor)]
      ensures IsDirection(direction)
      ensures direction == NextDirection(old(direction), factor)
      ensures position == old(position) + FrameMove(old(direction), baseVelocity, Frame(delta, factor))
    {
      ghost var oldDirection := direction;
      var moveBy := direction as real * baseVelocity * (delta / 1000.0);
      ghost var baseMove := moveBy;
      if factor < 0.0 {
        direction := -1;
      } else if factor > 0.0 {
        direction := 1;
      }
      assert direction == NextDirection(oldDirection, factor);
      moveBy := moveBy + direction as real * moveBy * factor;
      FeedbackAmplifies(baseMove, oldDirection, factor);
      assert moveBy == FrameMove(oldDirection, baseVelocity, Frame(delta, factor));
      position := position + moveBy;
      StepFrames(baseVelocity, frames, Frame(delta, factor));
      frames := frames + [Frame(delta, factor)];
    }

    /** The rendered horizontal offset, in percent of the track width. Because the
        call passes the bounds as `wrap(-20, -45, _)` it lies in `(-45, -20]`. */
    function RenderedX(): (x: real)
      reads this
      ensures -45.0 < x <= -20.0
      ensures IsInteger((x - position) / -25.0)
    {
      Wrap(-20.0, -45.0, position)
    }
  }
}
