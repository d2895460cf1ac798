/**
 * Per-step vehicle speeds along a trace: the distance between consecutive
 * frames over the time between them, time being counted in 30-second steps.
 */
module PlotSpeeds {
  import opened Wrappers
  import opened Numeric
  import opened SimsIo

  /**
   * A step's speed. Dividing by a zero interval gives no number: numpy
   * yields infinity for a positive distance and NaN for a zero one.
   */
  datatype Speed = Finite(value: real) | DividedByZero(distance: real)

  /** The speed from `prev` to `frame`: `hypot(dx, dy) / ((t - t_prev) * 30)`. */
  function StepSpeed(hypot: (real, real) -> real, prev: Frame, frame: Frame): (r: Speed)
    ensures r.DividedByZero? <==> frame.time == prev.time
    ensures r.Finite? ==> r.value * (((frame.time - prev.time) * 30) as real) == hypot(frame.x - prev.x, frame.y - prev.y)
  {
    var ds := hypot(frame.x - prev.x, frame.y - prev.y);
    var dt := (frame.time - prev.time) * 30;
    if dt == 0 then DividedByZero(ds) else Finite(ds / (dt as real))
  }

  /**
   * `calculate_speed(trace)`: one speed per pair of consecutive frames, in
   * order, so n frames give n - 1 speeds and an empty trace none.
   */
  method CalculateSpeed(hypot: (real, real) -> real, trace: seq<Frame>) returns (speeds: seq<Speed>)
    ensures |speeds| == if |trace| == 0 then 0 else |trace| - 1
    ensures forall k :: 0 <= k < |speeds| ==> speeds[k] == StepSpeed(hypot, trace[k], trace[k + 1])
  {
    speeds := [];
    var prev: Option<Frame> := None;
    var i := 0;
    while i < |trace|
      invariant 0 <= i <= |trace|
      invariant |speeds| == if i == 0 then 0 else i - 1
      invariant prev == if i == 0 then None else Some(trace[i - 1])
      invariant forall k :: 0 <= k < |speeds| ==> speeds[k] == StepSpeed(hypot, trace[k], trace[k + 1])
    {
      var frame := trace[i];
      if prev.Some? {
        var ds := hypot(frame.x - prev.value.x, frame.y - prev.value.y);
        var dt := (frame.time - prev.value.time) * 30;
        var step := if dt == 0 then DividedByZero(ds) else Finite(ds / (dt as real));
        speeds := speeds + [step];
      }
      prev := Some(frame);
      i := i + 1;
    }
  }

  /**
   * A step forward in time has a finite, non-negative speed that covers the
   * step's distance in its interval of seconds; equal times divide by zero.
   */
  lemma StepSpeedMeaning(hypot: (real, real) -> real, prev: Frame, frame: Frame)
    requires NonNegativeHypot(hypot)
    ensures prev.time == frame.time <==> StepSpeed(hypot, prev, frame).DividedByZero?
    ensures prev.time < frame.time ==>
              var s := StepSpeed(hypot, prev, frame);
              s.Finite? && s.value >= 0.0
              && s.value * ((Timedelta(frame) - Timedelta(prev)) as real) == hypot(frame.x - prev.x, frame.y - prev.y)
  {
    var ds := hypot(frame.x - prev.x, frame.y - prev.y);
    var dt := ((frame.time - prev.time) * 30) as real;
    if prev.time < frame.time {
      DivMul(ds, dt);
      assert ds >= 0.0 && dt > 0.0;
    }
  }

  /** Strictly increasing frame times give only finite, non-negative speeds. */
  lemma SpeedsNonNegative(hypot: (real, real) -> real, trace: seq<Frame>, speeds: seq<Speed>)
    requires NonNegativeHypot(hypot)
    requires forall k :: 0 <= k < |trace| - 1 ==> trace[k].time < trace[k + 1].time
    requires |speeds| == |trace| - 1
    requires forall k :: 0 <= k < |speeds| ==> speeds[k] == StepSpeed(hypot, trace[k], trace[k + 1])
    ensures forall k :: 0 <= k < |speeds| ==> speeds[k].Finite? && speeds[k].value >= 0.0
  {
    forall k | 0 <= k < |speeds|
      ensures speeds[k].Finite? && speeds[k].value >= 0.0
    {
      StepSpeedMeaning(hypot, trace[k], trace[k + 1]);
    }
  }
}
