/** VideoPlayer: the frame loop of `drawVideo`. The capture, the terminal
    and the clock are inputs: each iteration of the loop sees one Tick, which
    holds the terminal size read at its start, the frame read from the
    capture (None for an empty frame) and the milliseconds the iteration took
    up to the sleep. The loop's output is, per frame, the bounds it was fitted
    to, the text written and the value passed to `sleepMs`. */
module Video {
  import opened Wrappers
  import opened Rounding
  import opened Color
  import opened Geometry
  import opened AspectFit
  import opened Encoder
  import opened Render

  /** A decoded frame: its width and height, and the resized copy the resize
      step produces for the bounds of its iteration. */
  datatype Frame = Frame(cols: int, rows: int, resized: array2<Vec3b>)

  datatype Tick = Tick(terminal: TerminalCells, frame: Option<Frame>, durationMs: nat)

  datatype Shown = Shown(bounds: Bounds, image: string, sleepMs: int)

  /** `round(1e3 / fps)`: the frame interval in milliseconds, the nearest
      integer to 1000 / fps. */
  function FrameMs(fps: int): (ms: nat)
    requires fps > 0
    ensures fps * (2 * ms - 1) <= 2000 < fps * (2 * ms + 1)
    ensures ms <= 1000
  {
    var ms := Round(1000, fps);
    IntervalAtMostOneSecond(fps, ms);
    ms
  }

  lemma IntervalAtMostOneSecond(fps: int, ms: int)
    requires fps > 0 && fps * (2 * ms - 1) <= 2000
    ensures ms <= 1000
  {
    if ms > 1000 {
      AspectFit.MulMono(fps, 2001, 2 * ms - 1);
      assert false;
    }
  }

  /** The value passed to `sleepMs`: what is left of the frame interval. */
  function SleepMs(fps: int, durationMs: nat): (s: int)
    requires fps > 0
    ensures s < 0 <==> durationMs > FrameMs(fps)
    ensures s + durationMs == FrameMs(fps)
  {
    FrameMs(fps) - durationMs
  }

  /** At 30 frames per second the interval is 33 ms, so a frame that took
      50 ms asks for a sleep of -17 ms: the negative value is not clamped. */
  lemma SlowFrameSleepsNegative()
    ensures FrameMs(30) == 33 && SleepMs(30, 50) == -17
  {
  }

  /** The number of frames the loop renders: those before the first empty frame. */
  function Played(ticks: seq<Tick>): (n: nat)
    ensures n <= |ticks|
    ensures forall i :: 0 <= i < n ==> ticks[i].frame.Some?
    ensures n < |ticks| ==> ticks[n].frame.None?
    decreases |ticks|
  {
    if ticks == [] || ticks[0].frame.None? then 0 else 1 + Played(ticks[1..])
  }

  /** A non-empty frame reached by the loop is one of the played frames. */
  lemma PlayedPast(ticks: seq<Tick>, i: nat)
    requires i < |ticks| && i <= Played(ticks) && ticks[i].frame.Some?
    ensures i < Played(ticks)
  {
  }

  /** The resize step's result for frame f against bounds b has the target size. */
  predicate ResizedFor(f: Frame, b: Bounds) {
    f.cols > 0 && f.rows > 0 &&
    f.resized.Length1 == TargetSize(f.cols, f.rows, b.maxWidth, b.maxHeight).width &&
    f.resized.Length0 == TargetSize(f.cols, f.rows, b.maxWidth, b.maxHeight).height
  }

  /** s is what the loop shows for tick t: the bounds read in that
      iteration, the encoded resized frame and the sleep value. */
  ghost predicate ShownFor(fps: int, t: Tick, s: Shown)
    requires fps > 0
    reads if t.frame.Some? then {t.frame.value.resized} else {}
  {
    t.frame.Some? &&
    s.bounds == MaxImageSize(t.terminal) &&
    Paired(Pixels(t.frame.value.resized)) && s.image == Encode(Pixels(t.frame.value.resized)) &&
    s.sleepMs == SleepMs(fps, t.durationMs)
  }

  /** `drawVideo`: each iteration reads the bounds afresh, stops at the first
      empty frame, and otherwise renders the frame against the bounds of the
      same iteration and computes the sleep. The end of the tick sequence
      stands for a capture that has run out. */
  method DrawVideo(fps: int, ticks: seq<Tick>) returns (shown: seq<Shown>)
    requires fps > 0
    requires forall i :: 0 <= i < Played(ticks) ==> ResizedFor(ticks[i].frame.value, MaxImageSize(ticks[i].terminal))
    ensures |shown| == Played(ticks)
    ensures forall i :: 0 <= i < |shown| ==> ShownFor(fps, ticks[i], shown[i])
  {
    shown := [];
    var i := 0;
    while i < |ticks|
      invariant i <= Played(ticks) && |shown| == i
      invariant forall j :: 0 <= j < i ==> ShownFor(fps, ticks[j], shown[j])
    {
      var bounds := MaxImageSize(ticks[i].terminal);
      var frame := ticks[i].frame;
      if frame.None? {
        break;
      }
      PlayedPast(ticks, i);
      var s := ShowFrame(fps, ticks[i], bounds);
      ShownAppend(fps, ticks, shown, s);
      shown := shown + [s];
      i := i + 1;
    }
  }

  lemma ShownAppend(fps: int, ticks: seq<Tick>, shown: seq<Shown>, s: Shown)
    requires fps > 0 && |shown| < |ticks|
    requires forall j :: 0 <= j < |shown| ==> ShownFor(fps, ticks[j], shown[j])
    requires ShownFor(fps, ticks[|shown|], s)
    ensures forall j :: 0 <= j < |shown| + 1 ==> ShownFor(fps, ticks[j], (shown + [s])[j])
  {
  }

  /** One iteration of the loop for a non-empty frame: render it against the
      bounds read in this iteration, then compute the sleep. */
  method ShowFrame(fps: int, t: Tick, bounds: Bounds) returns (s: Shown)
    requires fps > 0 && t.frame.Some? && bounds == MaxImageSize(t.terminal)
    requires ResizedFor(t.frame.value, bounds)
    ensures ShownFor(fps, t, s)
  {
    var f := t.frame.value;
    TargetEven(f.cols, f.rows, bounds.maxWidth, bounds.maxHeight);
    var image := ConvertImageToUnicode(f.cols, f.rows, bounds.maxWidth, bounds.maxHeight, f.resized);
    var sleep := SleepMs(fps, t.durationMs);
    s := Shown(bounds, image, sleep);
  }
}
