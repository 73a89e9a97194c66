/**
 * The eased animation from the positions before relaxation to the positions after it
 * (frontend/src/components/TracksColorWheel.js, `animatePositions`). The browser's frame
 * timestamps are a parameter; drawing is left out, each frame is the list of positions drawn.
 */
module Animation {
  import opened ColorWheelLayout
  import opened HsvConversion

  /** The `duration` the relaxation passes in milliseconds. */
  const Duration: real := 8000.0

  /** A `{x, y}` entry of `startPositions` / `endPositions`. */
  datatype Point = Point(x: JsNumber, y: JsNumber)

  /** `Math.min(elapsed / duration, 1)`: never above 1, and 1 from the duration on. */
  function Progress(elapsed: real): (p: real)
    ensures p <= 1.0
    ensures p == 1.0 <==> elapsed >= Duration
    ensures 0.0 <= elapsed ==> 0.0 <= p
  {
    var ratio := elapsed / Duration;
    if ratio <= 1.0 then ratio else 1.0
  }

  /** `Math.pow(x, 3)`. */
  function Cube(x: real): real
  {
    x * x * x
  }

  /** The cubic ease-out `1 - (1 - p)^3`. */
  function Ease(p: real): real
  {
    1.0 - Cube(1.0 - p)
  }

  lemma ProductNonnegative(x: real, y: real)
    requires 0.0 <= x && 0.0 <= y
    ensures 0.0 <= x * y
  {
    if x > 0.0 {
      ScaleMonotone(x, 0.0, y);
      assert x * 0.0 == 0.0;
    }
  }

  lemma CubeMonotone(a: real, b: real)
    requires 0.0 <= a <= b
    ensures 0.0 <= Cube(a) <= Cube(b)
  {
    ProductNonnegative(a, a);
    ProductNonnegative(a * a, a);
    ProductNonnegative(b, b);
    ProductNonnegative(a, b);
    var q := b * b + a * b + a * a;
    assert Cube(b) - Cube(a) == (b - a) * q;
    ProductNonnegative(b - a, q);
  }

  /** The ease starts at 0 and ends at 1. */
  lemma EaseEndpoints()
    ensures Ease(0.0) == 0.0 && Ease(1.0) == 1.0
  {
  }

  /** On [0, 1] the ease is nondecreasing and stays within [0, 1]. */
  lemma {:induction false} EaseMonotone(p: real, q: real)
    requires 0.0 <= p <= q <= 1.0
    ensures 0.0 <= Ease(p) <= Ease(q) <= 1.0
  {
    CubeMonotone(1.0 - q, 1.0 - p);
    CubeMonotone(1.0 - p, 1.0);
  }

  /** `pos.x + (endPos.x - pos.x) * easeProgress`, NaN as soon as either end is NaN. */
  function Interpolate(start: JsNumber, end: JsNumber, e: real): (r: JsNumber)
    ensures r.NaN? <==> start.NaN? || end.NaN?
  {
    if start.Finite? && end.Finite? then Finite(start.val + (end.val - start.val) * e) else NaN
  }

  /** At ease 0 the drawn coordinate is the start, at ease 1 the end. */
  lemma InterpolateEndpoints(start: real, end: real)
    ensures Interpolate(Finite(start), Finite(end), 0.0) == Finite(start)
    ensures Interpolate(Finite(start), Finite(end), 1.0) == Finite(end)
  {
  }

  /** For an ease in [0, 1] the drawn coordinate lies between the start and the end. */
  lemma {:induction false} InterpolateBetween(start: real, end: real, e: real)
    requires 0.0 <= e <= 1.0
    ensures var r := Interpolate(Finite(start), Finite(end), e).val;
      (start <= end ==> start <= r <= end) && (end <= start ==> end <= r <= start)
  {
    var d := end - start;
    var r := start + d * e;
    if d >= 0.0 {
      ProductNonnegative(d, e);
      ProductNonnegative(d, 1.0 - e);
      assert d - d * e == d * (1.0 - e);
    } else {
      ProductNonnegative(-d, e);
      ProductNonnegative(-d, 1.0 - e);
      assert -(d * e) == (-d) * e;
      assert d * e - d == (-d) * (1.0 - e);
    }
  }

  /** The positions drawn in one frame for the eased progress `e`. */
  function FrameAt(starts: seq<Point>, ends: seq<Point>, e: real): (frame: seq<Point>)
    requires |starts| == |ends|
    ensures |frame| == |starts|
    ensures forall k :: 0 <= k < |frame| ==>
      frame[k] == Point(Interpolate(starts[k].x, ends[k].x, e), Interpolate(starts[k].y, ends[k].y, e))
  {
    seq(|starts|, k requires 0 <= k < |starts| =>
      Point(Interpolate(starts[k].x, ends[k].x, e), Interpolate(starts[k].y, ends[k].y, e)))
  }

  predicate AllFinite(points: seq<Point>)
  {
    forall k :: 0 <= k < |points| ==> points[k].x.Finite? && points[k].y.Finite?
  }

  /** With numeric positions, the frame at ease 0 is the start and at ease 1 the end. */
  lemma {:induction false} FrameEndpoints(starts: seq<Point>, ends: seq<Point>)
    requires |starts| == |ends| && AllFinite(starts) && AllFinite(ends)
    ensures FrameAt(starts, ends, 0.0) == starts
    ensures FrameAt(starts, ends, 1.0) == ends
  {
    forall k | 0 <= k < |starts|
      ensures FrameAt(starts, ends, 0.0)[k] == starts[k]
      ensures FrameAt(starts, ends, 1.0)[k] == ends[k]
    {
      InterpolateEndpoints(starts[k].x.val, ends[k].x.val);
      InterpolateEndpoints(starts[k].y.val, ends[k].y.val);
    }
  }

  /** The frame drawn at the start time is the start positions. */
  lemma FirstFrame(starts: seq<Point>, ends: seq<Point>)
    requires |starts| == |ends| && AllFinite(starts) && AllFinite(ends)
    ensures FrameAt(starts, ends, Ease(Progress(0.0))) == starts
  {
    assert Progress(0.0) == 0.0;
    EaseEndpoints();
    FrameEndpoints(starts, ends);
  }

  /** Once the duration has elapsed, the frame drawn is the end positions. */
  lemma FinalFrame(starts: seq<Point>, ends: seq<Point>, elapsed: real)
    requires |starts| == |ends| && AllFinite(starts) && AllFinite(ends)
    requires elapsed >= Duration
    ensures FrameAt(starts, ends, Ease(Progress(elapsed))) == ends
  {
    EaseEndpoints();
    FrameEndpoints(starts, ends);
  }

  /**
   * The `animate` callback run on successive frame timestamps: it draws a frame for each
   * timestamp and asks for another one only while the progress is below 1.
   */
  method Animate(starts: seq<Point>, ends: seq<Point>, startTime: real, frameTimes: seq<real>)
    returns (frames: seq<seq<Point>>)
    requires |starts| == |ends|
    ensures |frames| <= |frameTimes|
    ensures forall k :: 0 <= k < |frames| ==>
      frames[k] == FrameAt(starts, ends, Ease(Progress(frameTimes[k] - startTime)))
    ensures forall k :: 0 <= k < |frames| - 1 ==> Progress(frameTimes[k] - startTime) < 1.0
    ensures |frames| < |frameTimes| ==>
      0 < |frames| && frameTimes[|frames| - 1] - startTime >= Duration
    ensures |frames| < |frameTimes| && AllFinite(starts) && AllFinite(ends) ==>
      frames[|frames| - 1] == ends
  {
    frames := [];
    var running := true;
    var k := 0;
    while running && k < |frameTimes|
      invariant 0 <= k <= |frameTimes| && |frames| == k
      invariant forall m :: 0 <= m < k ==>
        frames[m] == FrameAt(starts, ends, Ease(Progress(frameTimes[m] - startTime)))
      invariant forall m :: 0 <= m < k - 1 ==> Progress(frameTimes[m] - startTime) < 1.0
      invariant running <==> k == 0 || Progress(frameTimes[k - 1] - startTime) < 1.0
    {
      var elapsed := frameTimes[k] - startTime;
      var progress := Progress(elapsed);
      var easeProgress := Ease(progress);
      frames := frames + [FrameAt(starts, ends, easeProgress)];
      running := progress < 1.0;
      k := k + 1;
    }
    if k < |frameTimes| && AllFinite(starts) && AllFinite(ends) {
      FinalFrame(starts, ends, frameTimes[k - 1] - startTime);
    }
  }
}
