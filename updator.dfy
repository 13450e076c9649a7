/**
 * The gesture-delta mapper of components/ChannelUpdator.tsx and the way a pan
 * gesture's events reach the three callbacks it is given.
 *
 * JavaScript doubles are modelled as exact reals; the window width and height
 * (`Dimensions.get("window")`) are parameters.
 */
module Updator {

  function Abs(x: real): real {
    if x < 0.0 then -x else x
  }

  /**
   * `getDiff(dx, dy)`: the floor of 255 times the fraction of the window the
   * drag covers along its dominant axis. The horizontal axis is used only when
   * it is strictly longer; the vertical axis counts upwards (its sign is
   * inverted).
   */
  function GetDiff(dx: real, dy: real, width: real, height: real): (diff: int)
    requires width > 0.0 && height > 0.0
    ensures Abs(dx) > Abs(dy) ==> diff as real <= dx / width * 255.0 < diff as real + 1.0
    ensures Abs(dx) <= Abs(dy) ==> diff as real <= -dy / height * 255.0 < diff as real + 1.0
  {
    var diffPerct := if Abs(dx) > Abs(dy) then dx / width else -dy / height;
    (diffPerct * 255.0).Floor
  }

  /** A fraction in [-1, 1] scales to a delta in [-255, 255]. */
  lemma FloorOfScaledFraction(f: real, diff: int)
    requires -1.0 <= f <= 1.0
    requires diff as real <= f * 255.0 < diff as real + 1.0
    ensures -255 <= diff <= 255
  {
  }

  lemma FractionBounded(x: real, extent: real)
    requires extent > 0.0 && Abs(x) <= extent
    ensures -1.0 <= x / extent <= 1.0 && -1.0 <= -x / extent <= 1.0
  {
    assert x == (x / extent) * extent;
  }

  /** A drag that stays inside the window gives a delta in [-255, 255]; `getDiff` itself clamps nothing. */
  lemma GetDiffBounded(dx: real, dy: real, width: real, height: real)
    requires width > 0.0 && height > 0.0
    requires Abs(dx) <= width && Abs(dy) <= height
    ensures -255 <= GetDiff(dx, dy, width, height) <= 255
  {
    var diff := GetDiff(dx, dy, width, height);
    FractionBounded(dx, width);
    FractionBounded(dy, height);
    if Abs(dx) > Abs(dy) {
      FloorOfScaledFraction(dx / width, diff);
    } else {
      FloorOfScaledFraction(-dy / height, diff);
    }
  }

  /** A drag that is mostly upwards never lowers the channel. */
  lemma UpwardDragNotNegative(dx: real, dy: real, width: real, height: real)
    requires width > 0.0 && height > 0.0
    requires Abs(dx) <= Abs(dy) && dy <= 0.0
    ensures GetDiff(dx, dy, width, height) >= 0
  {
    assert -dy / height >= 0.0;
  }

  /** A drag that is mostly downwards lowers the channel by at least one: floor rounds away from zero. */
  lemma DownwardDragNegative(dx: real, dy: real, width: real, height: real)
    requires width > 0.0 && height > 0.0
    requires Abs(dx) <= Abs(dy) && dy > 0.0
    ensures GetDiff(dx, dy, width, height) <= -1
  {
    assert -dy / height < 0.0;
  }

  /** No displacement, no delta. */
  lemma ZeroDragZeroDiff(width: real, height: real)
    requires width > 0.0 && height > 0.0
    ensures GetDiff(0.0, 0.0, width, height) == 0
  {
  }

  /** Half the width to the right: 127.5 floors to 127. */
  lemma HalfWidthRight()
    ensures GetDiff(100.0, 0.0, 200.0, 200.0) == 127
  {
  }

  /** Half the height downwards: -127.5 floors to -128. */
  lemma HalfHeightDown()
    ensures GetDiff(0.0, 100.0, 200.0, 200.0) == -128
  {
  }

  /** The pan responder events of components/PanArea.tsx. */
  datatype PanEvent = Grant | Move(dx: real, dy: real) | Release | Terminate

  /** The three callbacks `ChannelUpdator` is given. */
  datatype Callback = OnStart | OnUpdate(diff: int) | OnComplete

  /**
   * Which callback a pan event reaches: a grant starts, a move reports
   * `getDiff` of the cumulative offsets, and a release or a termination both
   * complete.
   */
  function Route(e: PanEvent, width: real, height: real): (cb: Callback)
    requires width > 0.0 && height > 0.0
    ensures cb.OnStart? <==> e.Grant?
    ensures cb.OnComplete? <==> e.Release? || e.Terminate?
    ensures cb.OnUpdate? <==> e.Move?
    ensures e.Move? ==> cb.diff == GetDiff(e.dx, e.dy, width, height)
  {
    match e
    case Grant => OnStart
    case Move(dx, dy) => OnUpdate(GetDiff(dx, dy, width, height))
    case Release => OnComplete
    case Terminate => OnComplete
  }
}
