/** ffmpeg/transcode_audio.go (buildAudioSegmentDurations). */
module AudioSegments {
  import opened Segments

  /** Whether steps of `ticks` from the interval's start ever reach its end; the source loops forever
      when they do not. */
  predicate EndReachable(interval: Interval, ticks: int) {
    ticks > 0 || interval.start >= interval.end
  }

  /** How many steps of `ticks` it takes from the interval's start to reach its end. */
  function StepsToEnd(interval: Interval, ticks: int): nat
    requires EndReachable(interval, ticks)
    decreases if interval.start >= interval.end then 0 else interval.end - interval.start
  {
    if interval.start >= interval.end then 0 else 1 + StepsToEnd(interval.(start := interval.start + ticks), ticks)
  }

  function Stepped(start: int, ticks: int, steps: nat): int {
    if steps == 0 then start else Stepped(start, ticks, steps - 1) + ticks
  }

  /** Segment `id` of the list: a full step, or after the last full step the closing segment. */
  ghost function AudioSegment(interval: Interval, ticks: int, id: nat): Segment
    requires EndReachable(interval, ticks)
  {
    var start := Stepped(interval.start, ticks, id);
    Segment(Interval(interval.timeBase, start,
                     if id < StepsToEnd(interval, ticks) then start + ticks else interval.end), id)
  }

  /** Session i holds the twelve segments from 12*i on. */
  ghost predicate FullSession(session: seq<Segment>, interval: Interval, ticks: int, i: nat)
    requires EndReachable(interval, ticks)
  {
    && |session| == SEGMENTS_PER_SESSION
    && StartsAt(session, interval, ticks, SEGMENTS_PER_SESSION * i)
  }

  ghost predicate StartsAt(session: seq<Segment>, interval: Interval, ticks: int, firstId: nat)
    requires EndReachable(interval, ticks)
  {
    forall m :: 0 <= m < |session| ==> session[m] == AudioSegment(interval, ticks, firstId + m)
  }

  lemma {:induction false} SteppedExactly(start: int, ticks: int, steps: nat)
    ensures Stepped(start, ticks, steps) == start + steps * ticks
  {
    if steps > 0 {
      SteppedExactly(start, ticks, steps - 1);
    }
  }

  /** The number of steps is the least that reaches the end. */
  lemma {:induction false} StepsReachEnd(interval: Interval, ticks: int, n: nat)
    requires ticks > 0
    ensures n < StepsToEnd(interval, ticks) <==> interval.start + n * ticks < interval.end
    decreases n
  {
    if interval.start >= interval.end {
      MulOrder(0, n, ticks);
    } else if n > 0 {
      StepsReachEnd(interval.(start := interval.start + ticks), ticks, n - 1);
      assert n * ticks == (n - 1) * ticks + ticks;
    }
  }

  /** Segment `id` of the list by its numbers. */
  lemma AudioSegmentAt(interval: Interval, ticks: int, id: nat)
    requires EndReachable(interval, ticks)
    ensures var seg := AudioSegment(interval, ticks, id);
            && seg.id == id && seg.interval.timeBase == interval.timeBase
            && seg.interval.start == interval.start + id * ticks
            && seg.interval.end ==
               if id < StepsToEnd(interval, ticks) then interval.start + (id + 1) * ticks else interval.end
  {
    SteppedExactly(interval.start, ticks, id);
    SteppedExactly(interval.start, ticks, id + 1);
  }

  lemma OneMoreSegment(session: seq<Segment>, seg: Segment, interval: Interval, ticks: int, firstId: nat)
    requires EndReachable(interval, ticks) && StartsAt(session, interval, ticks, firstId)
    requires seg == AudioSegment(interval, ticks, firstId + |session|)
    ensures StartsAt(session + [seg], interval, ticks, firstId)
  {
  }

  /** Segment m of session i of the result has id 12*i + m; all sessions but the last hold twelve
      segments and the last one, which also takes the closing segment, 1 to 13: one more than a session
      should hold exactly if the full steps fill their sessions, and only the closing segment exactly if
      there is no full step. */
  method BuildAudioSegmentDurations(interval: Interval, segmentDuration: int) returns (sessions: seq<seq<Segment>>)
    requires EndReachable(interval, ToTicks(segmentDuration, interval.timeBase))
    ensures sessions != []
    ensures var ticks, last := ToTicks(segmentDuration, interval.timeBase), |sessions| - 1;
            && (forall i: nat :: i < last ==> FullSession(sessions[i], interval, ticks, i))
            && 1 <= |sessions[last]| <= 13
            && StartsAt(sessions[last], interval, ticks, SEGMENTS_PER_SESSION * last)
            && 12 * last + |sessions[last]| == StepsToEnd(interval, ticks) + 1
            && (forall i: nat, m: nat :: i <= last && m < |sessions[i]| ==>
                  sessions[i][m].id == 12 * i + m && sessions[i][m].interval.timeBase == interval.timeBase)
    ensures var steps, size := StepsToEnd(interval, ToTicks(segmentDuration, interval.timeBase)),
              |sessions[|sessions| - 1]|;
            && (size == 13 <==> steps > 0 && steps % 12 == 0)
            && (size == 1 <==> steps == 0)
  {
    sessions := [];
    var session: seq<Segment> := [];
    var currentTimestamp := interval.start;
    var segmentId := 0;
    var segmentDurationDts := ToTicks(segmentDuration, interval.timeBase);
    while currentTimestamp < interval.end
      invariant segmentId == SEGMENTS_PER_SESSION * |sessions| + |session|
      invariant segmentId + StepsToEnd(interval.(start := currentTimestamp), segmentDurationDts) ==
                  StepsToEnd(interval, segmentDurationDts)
      invariant |session| <= SEGMENTS_PER_SESSION && (session == [] ==> sessions == [])
      invariant currentTimestamp == Stepped(interval.start, segmentDurationDts, segmentId)
      invariant forall i: nat :: i < |sessions| ==> FullSession(sessions[i], interval, segmentDurationDts, i)
      invariant StartsAt(session, interval, segmentDurationDts, SEGMENTS_PER_SESSION * |sessions|)
      decreases interval.end - currentTimestamp
    {
      if |session| >= SEGMENTS_PER_SESSION {
        sessions := sessions + [session];
        session := [];
      }
      var full := Segment(Interval(interval.timeBase, currentTimestamp, currentTimestamp + segmentDurationDts),
          segmentId);
      OneMoreSegment(session, full, interval, segmentDurationDts, SEGMENTS_PER_SESSION * |sessions|);
      session := session + [full];
      segmentId := segmentId + 1;
      currentTimestamp := currentTimestamp + segmentDurationDts;
    }
    var closing := Segment(Interval(interval.timeBase, currentTimestamp, interval.end), segmentId);
    OneMoreSegment(session, closing, interval, segmentDurationDts, SEGMENTS_PER_SESSION * |sessions|);
    session := session + [closing];
    sessions := sessions + [session];
  }

  /** Segments abut, and the closing one never has a positive length: it starts at or after the
      interval's end, less than a segment past it.  It is not negative exactly when the interval is a
      whole number of segments long. */
  lemma ClosingSegment(interval: Interval, ticks: int)
    requires ticks > 0 && interval.start <= interval.end
    ensures var n := StepsToEnd(interval, ticks);
            var closing := AudioSegment(interval, ticks, n).interval;
            && closing.end == interval.end
            && closing.end <= closing.start < closing.end + ticks
            && (closing.start == closing.end <==> (interval.end - interval.start) % ticks == 0)
            && (forall id: nat :: id < n ==>
                  AudioSegment(interval, ticks, id).interval.end ==
                      AudioSegment(interval, ticks, id + 1).interval.start)
  {
    var n, gap := StepsToEnd(interval, ticks), interval.end - interval.start;
    SteppedExactly(interval.start, ticks, n);
    StepsReachEnd(interval, ticks, n);
    if n > 0 {
      StepsReachEnd(interval, ticks, n - 1);
      assert (n - 1) * ticks == n * ticks - ticks;
    }
    MultipleExactly(gap, n, ticks);
  }

  /** The least multiple of `d` that is not below `gap` equals it exactly if `d` divides it. */
  lemma MultipleExactly(gap: nat, n: nat, d: int)
    requires d > 0 && gap <= n * d < gap + d
    ensures n * d == gap <==> gap % d == 0
  {
    var q, r := gap / d, gap % d;
    assert gap == q * d + r;
    if n <= q {
      MulOrder(n, q, d);
    } else {
      MulOrder(q + 1, n, d);
      assert (q + 1) * d == q * d + d;
    }
  }
}
