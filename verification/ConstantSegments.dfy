/** ffmpeg/util.go (BuildConstantSegmentDurations) and ffmpeg/ffmpeg.go (ComputeSegmentDurations). */
module ConstantSegments {
  import opened Segments

  function FullSegments(interval: Interval, segmentDuration: int): int
    requires interval.timeBase > 0 && segmentDuration > 0
  {
    Truncate(interval.Duration(), segmentDuration)
  }

  /** `n` segments of exactly one segment duration from the interval's start, then a closing segment
      up to the interval's end, under consecutive ids. */
  ghost function Cut(interval: Interval, n: nat, ticks: int, firstId: int): (segments: seq<Segment>)
    ensures |segments| == n + 1
  {
    seq(n + 1, i requires 0 <= i < n + 1 =>
      Segment(Interval(interval.timeBase,
                       interval.start + i * ticks,
                       if i < n then interval.start + (i + 1) * ticks else interval.end),
              firstId + i))
  }

  ghost function ConstantList(interval: Interval, segmentDuration: int, firstId: int): seq<Segment>
    requires interval.timeBase > 0 && segmentDuration > 0 && FullSegments(interval, segmentDuration) >= 0
  {
    Cut(interval, FullSegments(interval, segmentDuration), ToTicks(segmentDuration, interval.timeBase), firstId)
  }

  method BuildConstantSegmentDurations(interval: Interval, segmentDuration: int, startSegmentIndex: int)
    returns (session: seq<Segment>)
    // the source divides by both numbers, and panics when the interval ends a segment duration before it starts
    requires interval.timeBase > 0 && segmentDuration > 0 && FullSegments(interval, segmentDuration) >= 0
    ensures session == ConstantList(interval, segmentDuration, startSegmentIndex)
  {
    var timeBase := interval.timeBase;
    var totalDuration := interval.Duration();
    var segmentDurationDts := ToTicks(segmentDuration, timeBase);
    var numFullSegments := Truncate(totalDuration, segmentDuration);
    ghost var list := ConstantList(interval, segmentDuration, startSegmentIndex);
    session := [];
    for i := 0 to numFullSegments
      invariant |session| == i
      invariant forall k :: 0 <= k < i ==> session[k] == list[k]
    {
      session := session + [
        Segment(Interval(timeBase,
                         interval.start + i * segmentDurationDts,
                         interval.start + (i + 1) * segmentDurationDts),
                startSegmentIndex + i)];
    }
    if numFullSegments == 0 {
      session := session + [
        Segment(Interval(timeBase, interval.start, interval.end), startSegmentIndex + numFullSegments)];
    } else {
      session := session + [
        Segment(Interval(timeBase, session[|session| - 1].interval.end, interval.end),
                startSegmentIndex + numFullSegments)];
    }
  }

  lemma ListTiles(interval: Interval, segmentDuration: int, firstId: int)
    requires interval.timeBase > 0 && segmentDuration > 0 && FullSegments(interval, segmentDuration) >= 0
    ensures var segments := ConstantList(interval, segmentDuration, firstId);
            && |segments| == FullSegments(interval, segmentDuration) + 1
            && Abut(segments)
            && segments[0].interval.start == interval.start
            && segments[|segments| - 1].interval.end == interval.end
            && (forall i :: 0 <= i < |segments| ==>
                  segments[i].id == firstId + i && segments[i].interval.timeBase == interval.timeBase)
            && (forall i :: 0 <= i < |segments| - 1 ==>
                  segments[i].interval.end - segments[i].interval.start == ToTicks(segmentDuration, interval.timeBase))
  {
    var segments := ConstantList(interval, segmentDuration, firstId);
    var ticks := ToTicks(segmentDuration, interval.timeBase);
    forall i | 0 < i < |segments| ensures segments[i].interval.start == segments[i - 1].interval.end {
    }
    forall i | 0 <= i < |segments| - 1 ensures segments[i].interval.end - segments[i].interval.start == ticks {
      assert (i + 1) * ticks == i * ticks + ticks;
    }
  }

  // ----- truncation never overruns -----

  /** The closing segment starts no later than the interval ends. */
  ghost predicate NoOverrun(interval: Interval, segmentDuration: int)
    requires interval.timeBase > 0 && segmentDuration > 0 && FullSegments(interval, segmentDuration) >= 0
  {
    var segments := ConstantList(interval, segmentDuration, 0);
    segments[|segments| - 1].interval.start <= interval.end
  }

  /** A truncated duration exceeds the exact one by less than a nanosecond. */
  lemma DurationBounds(interval: Interval)
    requires interval.timeBase > 0 && interval.start <= interval.end
    ensures 0 <= interval.Duration()
    ensures interval.Duration() * interval.timeBase < SECOND * (interval.end - interval.start) + interval.timeBase
  {
    var tb, s, e := interval.timeBase, interval.StartDuration(), interval.EndDuration();
    assert (e - s) * tb == e * tb - s * tb;
    if e < s {
      TruncateMonotone(SECOND * interval.start, SECOND * interval.end, tb);
    }
  }

  lemma TruncateMonotone(m: int, n: int, d: int)
    requires m <= n && d > 0
    ensures Truncate(m, d) <= Truncate(n, d)
  {
    var p, q := Truncate(m, d), Truncate(n, d);
    assert (q + 1) * d == q * d + d && (p - 1) * d == p * d - d;
    if q < p && n >= 0 {
      MulOrder(q + 1, p, d);
    } else if q < p {
      MulOrder(q, p - 1, d);
    }
  }

  lemma FullSegmentsBound(interval: Interval, segmentDuration: int)
    requires interval.timeBase > 0 && segmentDuration > 0 && interval.start <= interval.end
    ensures var n := FullSegments(interval, segmentDuration);
            n >= 0 && n * segmentDuration <= interval.Duration() < n * segmentDuration + segmentDuration
  {
    DurationBounds(interval);
  }

  /** `n` segments of at most `segmentDuration` that fit in `duration`, in nanoseconds, fit in `length`
      ticks as well, when the duration exceeds that length by less than a nanosecond. */
  lemma WholeSegmentsFit(n: nat, ticks: int, segmentDuration: int, timeBase: int, duration: int, length: int)
    requires 0 < timeBase <= SECOND && ticks * SECOND <= segmentDuration * timeBase
    requires n * segmentDuration <= duration && duration * timeBase < SECOND * length + timeBase
    ensures n * ticks <= length
  {
    MulOrder(ticks * SECOND, segmentDuration * timeBase, n);
    MulOrder(n * segmentDuration, duration, timeBase);
    Regroup(n, segmentDuration, timeBase);
    Regroup(n, ticks, SECOND);
  }

  lemma Regroup(n: int, x: int, d: int)
    ensures (x * d) * n == (n * x) * d
  {
  }

  lemma SmallTimeBaseNeverOverruns(interval: Interval, segmentDuration: int)
    requires 0 < interval.timeBase <= SECOND && segmentDuration > 0 && interval.start <= interval.end
    ensures FullSegments(interval, segmentDuration) >= 0 && NoOverrun(interval, segmentDuration)
  {
    var tb, n := interval.timeBase, FullSegments(interval, segmentDuration);
    var ticks := ToTicks(segmentDuration, tb);
    DurationBounds(interval);
    FullSegmentsBound(interval, segmentDuration);
    MulOrder(0, segmentDuration, tb);
    WholeSegmentsFit(n, ticks, segmentDuration, tb, interval.Duration(), interval.end - interval.start);
  }

  /** With a time base above 10^9, the interval [1, timeBase) cut into seconds overruns by one tick. */
  lemma LargeTimeBaseOverruns(timeBase: int)
    requires timeBase > SECOND
    ensures var interval := Interval(timeBase, 1, timeBase);
            FullSegments(interval, SECOND) == 1 && !NoOverrun(interval, SECOND)
  {
    var interval := Interval(timeBase, 1, timeBase);
    TruncateExact(SECOND, timeBase);
    TruncateExact(timeBase, SECOND);
    assert SECOND * 1 / timeBase == 0;
    TruncateExact(1, SECOND);
  }

  /** The exact condition: the time bases of which no interval overruns, whatever the segment
      duration, are those of at most 10^9 ticks per second. */
  lemma NeverOverrunsExactly(timeBase: int)
    requires timeBase > 0
    ensures timeBase <= SECOND <==>
            forall start: int, end: int, segmentDuration: int ::
              start <= end && segmentDuration > 0
                  && FullSegments(Interval(timeBase, start, end), segmentDuration) >= 0 ==>
                NoOverrun(Interval(timeBase, start, end), segmentDuration)
  {
    if timeBase <= SECOND {
      forall start: int, end: int, segmentDuration: int
        | start <= end && segmentDuration > 0 && FullSegments(Interval(timeBase, start, end), segmentDuration) >= 0
        ensures NoOverrun(Interval(timeBase, start, end), segmentDuration)
      {
        SmallTimeBaseNeverOverruns(Interval(timeBase, start, end), segmentDuration);
      }
    } else {
      LargeTimeBaseOverruns(timeBase);
      assert FullSegments(Interval(timeBase, 1, timeBase), SECOND) >= 0;
    }
  }

  // ----- durations -----

  ghost function Flatten<T>(ss: seq<seq<T>>): seq<T> {
    if ss == [] then [] else Flatten(ss[..|ss| - 1]) + ss[|ss| - 1]
  }

  predicate PositiveTimeBases(segments: seq<Segment>) {
    forall i :: 0 <= i < |segments| ==> segments[i].interval.timeBase > 0
  }

  ghost function Durations(segments: seq<Segment>): seq<int>
    requires PositiveTimeBases(segments)
  {
    seq(|segments|, i requires 0 <= i < |segments| => segments[i].interval.Duration())
  }

  lemma DurationsConcat(a: seq<Segment>, b: seq<Segment>)
    requires PositiveTimeBases(a) && PositiveTimeBases(b)
    ensures PositiveTimeBases(a + b) && Durations(a + b) == Durations(a) + Durations(b)
  {
  }

  /** Flattening is what the nested loops do: one list after the other. */
  lemma {:induction false} FlattenConcat<T>(a: seq<seq<T>>, b: seq<seq<T>>)
    ensures Flatten(a + b) == Flatten(a) + Flatten(b)
  {
    if b == [] {
      assert a + b == a;
    } else {
      var n := |b| - 1;
      FlattenConcat(a, b[..n]);
      assert (a + b)[..|a + b| - 1] == a + b[..n] && (a + b)[|a + b| - 1] == b[n];
      assert (Flatten(a) + Flatten(b[..n])) + b[n] == Flatten(a) + (Flatten(b[..n]) + b[n]);
    }
  }

  lemma FlattenOne<T>(s: seq<T>)
    ensures Flatten([s]) == s && Flatten<T>([]) == []
  {
    assert [s][..0] == [];
  }

  lemma FlattenPrefix(sessions: seq<seq<Segment>>, i: nat)
    requires i < |sessions|
    ensures Flatten(sessions[..i + 1]) == Flatten(sessions[..i]) + sessions[i]
  {
    assert sessions[..i + 1][..i] == sessions[..i];
  }

  method ComputeSegmentDurations(sessions: seq<seq<Segment>>) returns (segmentDurations: seq<int>)
    requires forall i :: 0 <= i < |sessions| ==> PositiveTimeBases(sessions[i])  // divisors
    ensures PositiveTimeBases(Flatten(sessions)) && segmentDurations == Durations(Flatten(sessions))
  {
    segmentDurations := [];
    for i := 0 to |sessions|
      invariant PositiveTimeBases(Flatten(sessions[..i])) && segmentDurations == Durations(Flatten(sessions[..i]))
    {
      var session := sessions[i];
      FlattenPrefix(sessions, i);
      DurationsConcat(Flatten(sessions[..i]), session);
      ghost var before := segmentDurations;
      for j := 0 to |session|
        invariant segmentDurations == before + Durations(session)[..j]
      {
        segmentDurations := segmentDurations + [session[j].interval.Duration()];
      }
    }
    assert sessions[..|sessions|] == sessions;
  }

  ghost function Sum(xs: seq<int>): int {
    if xs == [] then 0 else Sum(xs[..|xs| - 1]) + xs[|xs| - 1]
  }

  lemma {:induction false} SumConcat(xs: seq<int>, ys: seq<int>)
    ensures Sum(xs + ys) == Sum(xs) + Sum(ys)
    ensures forall x :: Sum([x]) == x
  {
    forall x ensures Sum([x]) == x {
      assert [x][..0] == [];
    }
    if ys == [] {
      assert xs + ys == xs;
    } else {
      var n := |ys| - 1;
      SumConcat(xs, ys[..n]);
      assert (xs + ys)[..|xs + ys| - 1] == xs + ys[..n];
    }
  }

  /** Truncation errors cancel: the durations before segment i sum to the distance of the truncated
      start times, so no rounding drift accumulates. */
  lemma {:induction false} DurationsTelescope(segments: seq<Segment>, i: nat)
    requires i <= |segments| && segments != [] && PositiveTimeBases(segments) && Abut(segments)
    requires forall k :: 0 <= k < |segments| ==> segments[k].interval.timeBase == segments[0].interval.timeBase
    ensures Sum(Durations(segments)[..i]) ==
            (if i < |segments| then segments[i].interval.StartDuration()
             else segments[i - 1].interval.EndDuration()) - segments[0].interval.StartDuration()
  {
    if i > 0 {
      DurationsTelescope(segments, i - 1);
      assert Durations(segments)[..i][..i - 1] == Durations(segments)[..i - 1];
    }
  }
}
