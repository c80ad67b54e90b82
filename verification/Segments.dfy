/** ffmpeg/segment_list.go and the constants of ffmpeg/ffmpeg.go.  Durations are integers counting
    nanoseconds, as Go's time.Duration does; a float64 quotient converted to an integer is the exact
    quotient truncated toward zero. */
module Segments {
  const SECOND: int := 1_000_000_000
  const SEGMENT_DURATION: int := 5 * SECOND
  const SEGMENTS_PER_SESSION: int := 12

  /** Conversion of the quotient n/d to an integer: truncation toward zero. */
  function Truncate(n: int, d: int): (q: int)
    requires d > 0
    ensures n >= 0 ==> q >= 0 && q * d <= n < q * d + d
    ensures n < 0 ==> q <= 0 && q * d - d < n <= q * d
  {
    if n >= 0 then n / d else -((-n) / d)
  }

  lemma MulOrder(x: int, y: int, d: int)
    requires x <= y && 0 <= d
    ensures x * d <= y * d
  {
  }

  lemma TruncateExact(q: int, d: int)
    requires d > 0
    ensures Truncate(q * d, d) == q
  {
    var n := q * d;
    var t := Truncate(n, d);
    assert (q + 1) * d == n + d && (q - 1) * d == n - d;
    if t > q {
      MulOrder(q + 1, t, d);
    } else if t < q {
      MulOrder(t, q - 1, d);
    }
    assert n >= 0 || n < 0;
    if n < 0 && q >= 0 {
      MulOrder(0, q, d);
    } else if n >= 0 && q < 0 {
      MulOrder(q, -1, d);
    }
  }

  datatype Interval = Interval(timeBase: int, start: int, end: int) {
    function StartDuration(): int
      requires timeBase > 0
    {
      Truncate(SECOND * start, timeBase)
    }

    function EndDuration(): int
      requires timeBase > 0
    {
      Truncate(SECOND * end, timeBase)
    }

    function Duration(): int
      requires timeBase > 0
    {
      EndDuration() - StartDuration()
    }
  }

  datatype Segment = Segment(interval: Interval, id: int)

  /** `duration` in ticks of the time base, as the builders compute it. */
  function ToTicks(duration: int, timeBase: int): (ticks: int)
    ensures duration * timeBase >= 0 ==>
              ticks * 1_000_000_000 <= duration * timeBase < (ticks + 1) * 1_000_000_000
  {
    Truncate(duration * timeBase, SECOND)
  }

  /** Five seconds are a whole number of ticks in every time base. */
  lemma SegmentTicks(timeBase: int)
    ensures ToTicks(SEGMENT_DURATION, timeBase) == 5 * timeBase
    ensures SEGMENT_DURATION == 5_000_000_000
  {
    assert SEGMENT_DURATION * timeBase == (5 * timeBase) * SECOND;
    TruncateExact(5 * timeBase, SECOND);
  }

  /** Each segment starts where the one before it ends. */
  ghost predicate Abut(segments: seq<Segment>) {
    forall i :: 0 < i < |segments| ==> segments[i].interval.start == segments[i - 1].interval.end
  }
}
