/** ffmpeg/transmux.go (guessTransmuxedSegmentList) on the output of ffmpeg/util.go (buildIntervals). */
module Transmux {
  import opened Segments

  // ----- keyframe intervals -----

  /** Interval i runs from timestamp i to timestamp i+1, the last one to the total duration. */
  ghost function KeyframeIntervals(timestamps: seq<int>, total: int, timeBase: int): (ivs: seq<Interval>)
    ensures |ivs| == |timestamps|
  {
    seq(|timestamps|, i requires 0 <= i < |timestamps| =>
      Interval(timeBase, timestamps[i], if i + 1 < |timestamps| then timestamps[i + 1] else total))
  }

  method BuildIntervals(timestamps: seq<int>, total: int, timeBase: int) returns (ivs: seq<Interval>)
    requires timestamps != []  // the source panics on an empty list
    ensures ivs == KeyframeIntervals(timestamps, total, timeBase)
    ensures |ivs| == |timestamps|
    ensures forall i :: 0 <= i < |ivs| ==>
              && ivs[i].timeBase == timeBase && ivs[i].start == timestamps[i]
              && ivs[i].end == if i < |ivs| - 1 then timestamps[i + 1] else total
  {
    ivs := [];
    for i := 1 to |timestamps|
      invariant ivs == KeyframeIntervals(timestamps, total, timeBase)[..i - 1]
    {
      ivs := ivs + [Interval(timeBase, timestamps[i - 1], timestamps[i])];
    }
    ivs := ivs + [Interval(timeBase, timestamps[|timestamps| - 1], total)];
  }

  /** Consecutive, non-empty intervals in one positive time base. */
  ghost predicate Chain(ivs: seq<Interval>) {
    && ivs != []
    && ivs[0].timeBase > 0
    && (forall i :: 0 <= i < |ivs| ==> ivs[i].timeBase == ivs[0].timeBase && ivs[i].start < ivs[i].end)
    && (forall i :: 0 < i < |ivs| ==> ivs[i].start == ivs[i - 1].end)
  }

  /** The k-th keyframe boundary: where the intervals before the k-th end. */
  ghost function Boundary(ivs: seq<Interval>, k: nat): int
    requires ivs != [] && k <= |ivs|
  {
    if k == 0 then ivs[0].start else ivs[k - 1].end
  }

  ghost predicate IsBoundary(ivs: seq<Interval>, ts: int)
    requires ivs != []
  {
    exists k: nat :: k <= |ivs| && Boundary(ivs, k) == ts
  }

  lemma {:induction false} BoundariesIncrease(ivs: seq<Interval>, j: nat, k: nat)
    requires Chain(ivs) && j < k <= |ivs|
    ensures Boundary(ivs, j) < Boundary(ivs, k)
  {
    if j + 1 < k {
      BoundariesIncrease(ivs, j, k - 1);
    }
    assert Boundary(ivs, k - 1) < Boundary(ivs, k);
  }

  lemma IncreasingTimestampsChain(timestamps: seq<int>, total: int, timeBase: int)
    requires timestamps != [] && timeBase > 0
    requires forall i :: 0 < i < |timestamps| ==> timestamps[i - 1] < timestamps[i]
    requires timestamps[|timestamps| - 1] < total
    ensures var ivs := KeyframeIntervals(timestamps, total, timeBase);
            && Chain(ivs) && Boundary(ivs, 0) == timestamps[0] && Boundary(ivs, |ivs|) == total
  {
  }

  // ----- the cutting loop -----

  /** The loop's variables: closed sessions, the open one, the next id and the next threshold. */
  datatype Cutting = Cutting(closed: seq<seq<Segment>>, open: seq<Segment>, nextId: int, earliestNextCut: int)

  function Opened(closed: seq<seq<Segment>>, at: int, timeBase: int, id: int, ticks: int): Cutting {
    Cutting(closed, [Segment(Interval(timeBase, at, at), id)], id + 1, at + ticks)
  }

  function EndOf(session: seq<Segment>): int
    requires session != []
  {
    session[|session| - 1].interval.end
  }

  function WithEnd(session: seq<Segment>, end: int): seq<Segment>
    requires session != []
  {
    var last := session[|session| - 1];
    session[|session| - 1 := last.(interval := last.interval.(end := end))]
  }

  /** First half of an iteration: start a new segment past the threshold, else extend the last one. */
  function CutOrExtend(c: Cutting, iv: Interval, timeBase: int, ticks: int): (c': Cutting)
    requires c.open != []
    ensures c'.open != []
  {
    if EndOf(c.open) >= c.earliestNextCut then
      c.(open := c.open + [Segment(Interval(timeBase, iv.start, iv.end), c.nextId)],
         nextId := c.nextId + 1,
         earliestNextCut := c.earliestNextCut + ticks)
    else
      c.(open := WithEnd(c.open, iv.end))
  }

  /** Second half: a full session is closed and the next one opened where it ends. */
  function CloseIfFull(c: Cutting, iv: Interval, timeBase: int, ticks: int): (c': Cutting)
    requires c.open != []
    ensures c'.open != []
  {
    if |c.open| >= SEGMENTS_PER_SESSION then Opened(c.closed + [c.open], iv.end, timeBase, c.nextId, ticks) else c
  }

  function CutUpTo(ivs: seq<Interval>, k: nat): (c: Cutting)
    requires ivs != [] && k <= |ivs|
    ensures c.open != []
  {
    var tb := ivs[0].timeBase;
    var ticks := ToTicks(SEGMENT_DURATION, tb);
    if k == 0 then Opened([], ivs[0].start, tb, 0, ticks)
    else CloseIfFull(CutOrExtend(CutUpTo(ivs, k - 1), ivs[k - 1], tb, ticks), ivs[k - 1], tb, ticks)
  }

  function SegmentList(ivs: seq<Interval>): seq<seq<Segment>>
    requires ivs != []
  {
    var c := CutUpTo(ivs, |ivs|);
    c.closed + [c.open]
  }

  method GuessTransmuxedSegmentList(keyframeIntervals: seq<Interval>) returns (sessions: seq<seq<Segment>>)
    requires keyframeIntervals != []  // the source indexes the first interval
    ensures sessions == SegmentList(keyframeIntervals)
  {
    var segmentId := 0;
    sessions := [];
    var timeBase := keyframeIntervals[0].timeBase;
    var segDurationTs := ToTicks(SEGMENT_DURATION, timeBase);
    var earliestNextCut := keyframeIntervals[0].start + segDurationTs;
    var session := [
      Segment(Interval(timeBase, keyframeIntervals[0].start, keyframeIntervals[0].start), segmentId)];
    segmentId := segmentId + 1;
    for i := 0 to |keyframeIntervals|
      invariant session != []
      invariant Cutting(sessions, session, segmentId, earliestNextCut) == CutUpTo(keyframeIntervals, i)
    {
      var keyframeInterval := keyframeIntervals[i];
      if session[|session| - 1].interval.end >= earliestNextCut {
        session := session + [
          Segment(Interval(timeBase, keyframeInterval.start, keyframeInterval.end), segmentId)];
        segmentId := segmentId + 1;
        earliestNextCut := earliestNextCut + segDurationTs;
      } else {
        var last := session[|session| - 1];
        session := session[|session| - 1 := last.(interval := last.interval.(end := keyframeInterval.end))];
      }
      if |session| >= SEGMENTS_PER_SESSION {
        sessions := sessions + [session];
        session := [Segment(Interval(timeBase, keyframeInterval.end, keyframeInterval.end), segmentId)];
        segmentId := segmentId + 1;
        earliestNextCut := keyframeInterval.end + segDurationTs;
      }
    }
    sessions := sessions + [session];
  }

  // ----- properties of one segment -----

  /** Where the m-th segment of a session starting at `start` may be cut at the earliest. */
  ghost function Threshold(start: int, m: nat, ticks: int): int {
    if m == 0 then start + ticks else Threshold(start, m - 1, ticks) + ticks
  }

  /** By how much the end of the m-th segment stays below its threshold plus this, when no interval is
      longer than `longest`. */
  ghost function Slack(longest: int, m: nat, ticks: int): int {
    if m == 0 then longest else Slack(longest, m - 1, ticks) + Over(longest, ticks)
  }

  function Over(longest: int, ticks: int): int {
    if longest > ticks then longest - ticks else 0
  }

  lemma {:induction false} ThresholdExactly(start: int, m: nat, ticks: int)
    ensures Threshold(start, m, ticks) == start + (m + 1) * ticks
  {
    if m > 0 {
      ThresholdExactly(start, m - 1, ticks);
    }
  }

  lemma {:induction false} SlackExactly(longest: int, m: nat, ticks: int)
    ensures Slack(longest, m, ticks) == longest + m * Over(longest, ticks)
    ensures longest <= Slack(longest, m, ticks)
  {
    if m > 0 {
      SlackExactly(longest, m - 1, ticks);
    }
  }

  ghost predicate OnBoundaries(seg: Segment, ivs: seq<Interval>)
    requires ivs != []
  {
    && seg.interval.timeBase == ivs[0].timeBase
    && IsBoundary(ivs, seg.interval.start)
    && IsBoundary(ivs, seg.interval.end)
  }

  /** No keyframe boundary strictly inside the segment reaches the threshold. */
  ghost predicate NoLateBoundary(seg: Segment, threshold: int, ivs: seq<Interval>)
    requires ivs != []
  {
    forall k: nat :: k <= |ivs| && seg.interval.start < Boundary(ivs, k) < seg.interval.end ==>
      Boundary(ivs, k) < threshold
  }

  ghost predicate NoneLonger(ivs: seq<Interval>, longest: int) {
    forall i :: 0 <= i < |ivs| ==> ivs[i].end - ivs[i].start <= longest
  }

  /** What holds of the m-th segment of a session starting at `start`, cut or not. */
  ghost predicate Plausible(seg: Segment, start: int, m: nat, ivs: seq<Interval>)
    requires ivs != []
  {
    var ticks := 5 * ivs[0].timeBase;
    && OnBoundaries(seg, ivs)
    && NoLateBoundary(seg, Threshold(start, m, ticks), ivs)
    && (forall longest :: NoneLonger(ivs, longest) ==>
          seg.interval.end < Threshold(start, m, ticks) + Slack(longest, m, ticks))
  }

  // ----- sessions, from left to right -----

  /** The session starts at `start`, its segments abut and carry consecutive ids, and each segment
      before the last is non-empty and reaches its threshold. */
  ghost predicate Built(session: seq<Segment>, start: int, firstId: int, ivs: seq<Interval>)
    requires ivs != []
    decreases |session|
  {
    && session != []
    && var n, ticks := |session| - 1, 5 * ivs[0].timeBase;
    && session[n].id == firstId + n
    && Plausible(session[n], start, n, ivs)
    && if n == 0 then session[0].interval.start == start
       else
         && Built(session[..n], start, firstId, ivs)
         && session[n - 1].interval.start < session[n - 1].interval.end == session[n].interval.start
         && Threshold(start, n - 1, ticks) <= session[n - 1].interval.end
  }

  ghost function StartOfNext(closed: seq<seq<Segment>>, ivs: seq<Interval>): int
    requires ivs != []
  {
    if closed == [] || closed[|closed| - 1] == [] then ivs[0].start else EndOf(closed[|closed| - 1])
  }

  ghost predicate IsOneOf(ivs: seq<Interval>, iv: Interval) {
    exists k: nat :: k < |ivs| && ivs[k] == iv
  }

  /** Full sessions of twelve non-empty segments, each starting where the one before ended. */
  ghost predicate AllClosed(closed: seq<seq<Segment>>, ivs: seq<Interval>)
    requires ivs != []
    decreases |closed|
  {
    closed == [] ||
    var n := |closed| - 1;
    && AllClosed(closed[..n], ivs)
    && |closed[n]| == SEGMENTS_PER_SESSION
    && Built(closed[n], StartOfNext(closed[..n], ivs), SEGMENTS_PER_SESSION * n, ivs)
    && closed[n][SEGMENTS_PER_SESSION - 1].interval.start < EndOf(closed[n])
    && IsOneOf(ivs, closed[n][SEGMENTS_PER_SESSION - 1].interval)
  }

  // ----- one iteration -----

  /** The open session after k intervals: it may still be the single empty segment it starts as. */
  ghost predicate UpTo(session: seq<Segment>, start: int, ivs: seq<Interval>, k: nat)
    requires ivs != [] && session != [] && k <= |ivs|
  {
    && EndOf(session) == Boundary(ivs, k)
    && (session[|session| - 1].interval.start < EndOf(session) || (|session| == 1 && start == EndOf(session)))
  }

  lemma NoBoundaryBetween(ivs: seq<Interval>, k: nat, j: nat)
    requires Chain(ivs) && k < |ivs| && j <= |ivs|
    ensures Boundary(ivs, j) <= Boundary(ivs, k) || Boundary(ivs, k + 1) <= Boundary(ivs, j)
  {
    if j < k {
      BoundariesIncrease(ivs, j, k);
    } else if k + 1 < j {
      BoundariesIncrease(ivs, k + 1, j);
    }
  }

  lemma OpenedSession(ivs: seq<Interval>, k: nat, id: int)
    requires Chain(ivs) && k <= |ivs|
    ensures var at := Boundary(ivs, k);
            Built(Opened([], at, ivs[0].timeBase, id, 5 * ivs[0].timeBase).open, at, id, ivs)
  {
    assert IsBoundary(ivs, Boundary(ivs, k));
  }

  lemma ExtendedSegment(seg: Segment, start: int, m: nat, ivs: seq<Interval>, k: nat)
    requires Chain(ivs) && k < |ivs| && Plausible(seg, start, m, ivs)
    requires seg.interval.end == Boundary(ivs, k) < Threshold(start, m, 5 * ivs[0].timeBase)
    ensures Plausible(seg.(interval := seg.interval.(end := ivs[k].end)), start, m, ivs)
  {
    assert IsBoundary(ivs, Boundary(ivs, k + 1));
    var seg', ticks := seg.(interval := seg.interval.(end := ivs[k].end)), 5 * ivs[0].timeBase;
    forall j: nat | j <= |ivs| && seg'.interval.start < Boundary(ivs, j) < seg'.interval.end
      ensures Boundary(ivs, j) < Threshold(start, m, ticks)
    {
      NoBoundaryBetween(ivs, k, j);
    }
    forall longest | NoneLonger(ivs, longest)
      ensures ivs[k].end < Threshold(start, m, ticks) + Slack(longest, m, ticks)
    {
      SlackExactly(longest, m, ticks);
    }
  }

  /** A segment cut from one interval, right after the segment `prev`. */
  lemma AppendedSegment(prev: Segment, seg: Segment, start: int, m: nat, ivs: seq<Interval>, k: nat)
    requires Chain(ivs) && k < |ivs| && Plausible(prev, start, m, ivs)
    requires prev.interval.end == Boundary(ivs, k) && seg.interval == ivs[k]
    ensures Plausible(seg, start, m + 1, ivs)
  {
    assert IsBoundary(ivs, Boundary(ivs, k)) && IsBoundary(ivs, Boundary(ivs, k + 1));
    forall j: nat | j <= |ivs| ensures !(seg.interval.start < Boundary(ivs, j) < seg.interval.end) {
      NoBoundaryBetween(ivs, k, j);
    }
    forall longest | NoneLonger(ivs, longest)
      ensures var ticks := 5 * ivs[0].timeBase;
              seg.interval.end < Threshold(start, m + 1, ticks) + Slack(longest, m + 1, ticks)
    {
      assert prev.interval.end < Threshold(start, m, 5 * ivs[0].timeBase) + Slack(longest, m, 5 * ivs[0].timeBase);
      assert seg.interval.end - prev.interval.end <= longest;
    }
  }

  lemma ExtendedSession(session: seq<Segment>, start: int, firstId: int, ivs: seq<Interval>, k: nat)
    requires Chain(ivs) && k < |ivs| && Built(session, start, firstId, ivs) && UpTo(session, start, ivs, k)
    requires EndOf(session) < Threshold(start, |session| - 1, 5 * ivs[0].timeBase)
    ensures Built(WithEnd(session, ivs[k].end), start, firstId, ivs)
    ensures UpTo(WithEnd(session, ivs[k].end), start, ivs, k + 1)
  {
    var n := |session| - 1;
    ExtendedSegment(session[n], start, n, ivs, k);
    assert WithEnd(session, ivs[k].end)[..n] == session[..n];
    assert Boundary(ivs, k) < Boundary(ivs, k + 1);
  }

  lemma {:induction false} StartBeforeThreshold(start: int, m: nat, ticks: int)
    requires ticks > 0
    ensures start < Threshold(start, m, ticks)
  {
    if m > 0 {
      StartBeforeThreshold(start, m - 1, ticks);
    }
  }

  lemma BuiltThen(session: seq<Segment>, start: int, firstId: int, seg: Segment, ivs: seq<Interval>)
    requires ivs != [] && Built(session, start, firstId, ivs)
    requires seg.id == firstId + |session| && Plausible(seg, start, |session|, ivs)
    requires session[|session| - 1].interval.start < EndOf(session) == seg.interval.start
    requires Threshold(start, |session| - 1, 5 * ivs[0].timeBase) <= EndOf(session)
    ensures Built(session + [seg], start, firstId, ivs)
  {
    assert (session + [seg])[..|session|] == session;
  }

  lemma AppendedSession(session: seq<Segment>, start: int, firstId: int, seg: Segment, ivs: seq<Interval>, k: nat)
    requires Chain(ivs) && k < |ivs| && Built(session, start, firstId, ivs) && UpTo(session, start, ivs, k)
    requires EndOf(session) >= Threshold(start, |session| - 1, 5 * ivs[0].timeBase)
    requires seg.interval == ivs[k] && seg.id == firstId + |session|
    ensures Built(session + [seg], start, firstId, ivs)
    ensures UpTo(session + [seg], start, ivs, k + 1)
  {
    var n, ticks := |session|, 5 * ivs[0].timeBase;
    AppendedSegment(session[n - 1], seg, start, n - 1, ivs, k);
    StartBeforeThreshold(start, n - 1, ticks);
    BuiltThen(session, start, firstId, seg, ivs);
  }

  // ----- the loop invariant -----

  ghost predicate WellCut(c: Cutting, ivs: seq<Interval>, k: nat, maxOpen: nat)
    requires ivs != [] && k <= |ivs|
  {
    var start, firstId := StartOfNext(c.closed, ivs), SEGMENTS_PER_SESSION * |c.closed|;
    && AllClosed(c.closed, ivs)
    && 1 <= |c.open| <= maxOpen
    && Built(c.open, start, firstId, ivs)
    && UpTo(c.open, start, ivs, k)
    && (|c.open| == SEGMENTS_PER_SESSION ==> IsOneOf(ivs, c.open[SEGMENTS_PER_SESSION - 1].interval))
    && c.nextId == firstId + |c.open|
    && c.earliestNextCut == Threshold(start, |c.open| - 1, 5 * ivs[0].timeBase)
  }

  lemma CutKeeps(c: Cutting, ivs: seq<Interval>, k: nat, seg: Segment)
    requires Chain(ivs) && k < |ivs| && WellCut(c, ivs, k, SEGMENTS_PER_SESSION - 1)
             && EndOf(c.open) >= c.earliestNextCut
    requires seg == Segment(ivs[k], c.nextId)
    ensures WellCut(Cutting(c.closed, c.open + [seg], c.nextId + 1, c.earliestNextCut + 5 * ivs[0].timeBase),
                    ivs, k + 1, SEGMENTS_PER_SESSION)
  {
    AppendedSession(c.open, StartOfNext(c.closed, ivs), SEGMENTS_PER_SESSION * |c.closed|, seg, ivs, k);
  }

  lemma ExtendKeeps(c: Cutting, ivs: seq<Interval>, k: nat)
    requires Chain(ivs) && k < |ivs| && WellCut(c, ivs, k, SEGMENTS_PER_SESSION - 1)
             && EndOf(c.open) < c.earliestNextCut
    ensures WellCut(c.(open := WithEnd(c.open, ivs[k].end)), ivs, k + 1, SEGMENTS_PER_SESSION)
  {
    ExtendedSession(c.open, StartOfNext(c.closed, ivs), SEGMENTS_PER_SESSION * |c.closed|, ivs, k);
    assert |WithEnd(c.open, ivs[k].end)| == |c.open|;
  }

  lemma CutOrExtendKeeps(c: Cutting, ivs: seq<Interval>, k: nat)
    requires Chain(ivs) && k < |ivs| && WellCut(c, ivs, k, SEGMENTS_PER_SESSION - 1)
    ensures WellCut(CutOrExtend(c, ivs[k], ivs[0].timeBase, 5 * ivs[0].timeBase), ivs, k + 1, SEGMENTS_PER_SESSION)
  {
    if EndOf(c.open) >= c.earliestNextCut {
      CutKeeps(c, ivs, k, Segment(Interval(ivs[0].timeBase, ivs[k].start, ivs[k].end), c.nextId));
    } else {
      ExtendKeeps(c, ivs, k);
    }
  }

  lemma ClosedSession(closed: seq<seq<Segment>>, open: seq<Segment>, ivs: seq<Interval>)
    requires ivs != [] && AllClosed(closed, ivs) && |open| == SEGMENTS_PER_SESSION
    requires Built(open, StartOfNext(closed, ivs), SEGMENTS_PER_SESSION * |closed|, ivs)
    requires open[SEGMENTS_PER_SESSION - 1].interval.start < EndOf(open)
    requires IsOneOf(ivs, open[SEGMENTS_PER_SESSION - 1].interval)
    ensures AllClosed(closed + [open], ivs) && StartOfNext(closed + [open], ivs) == EndOf(open)
  {
    assert (closed + [open])[..|closed|] == closed;
  }

  lemma CloseIfFullKeeps(c: Cutting, ivs: seq<Interval>, k: nat)
    requires Chain(ivs) && k < |ivs| && WellCut(c, ivs, k + 1, SEGMENTS_PER_SESSION)
    ensures WellCut(CloseIfFull(c, ivs[k], ivs[0].timeBase, 5 * ivs[0].timeBase), ivs, k + 1, SEGMENTS_PER_SESSION - 1)
  {
    if |c.open| >= SEGMENTS_PER_SESSION {
      ClosedSession(c.closed, c.open, ivs);
      OpenedSession(ivs, k + 1, c.nextId);
    }
  }

  lemma {:induction false} CutUpToWellCut(ivs: seq<Interval>, k: nat)
    requires Chain(ivs) && k <= |ivs|
    ensures WellCut(CutUpTo(ivs, k), ivs, k, SEGMENTS_PER_SESSION - 1)
  {
    SegmentTicks(ivs[0].timeBase);
    if k == 0 {
      OpenedSession(ivs, 0, 0);
    } else {
      CutUpToWellCut(ivs, k - 1);
      CutOrExtendKeeps(CutUpTo(ivs, k - 1), ivs, k - 1);
      CloseIfFullKeeps(CutOrExtend(CutUpTo(ivs, k - 1), ivs[k - 1], ivs[0].timeBase, 5 * ivs[0].timeBase), ivs, k - 1);
    }
  }

  // ----- the results, segment by segment -----

  lemma {:induction false} BuiltAt(session: seq<Segment>, start: int, firstId: int, ivs: seq<Interval>, m: nat)
    requires ivs != [] && Built(session, start, firstId, ivs) && m < |session|
    ensures session[0].interval.start == start
    ensures session[m].id == firstId + m
    ensures Plausible(session[m], start, m, ivs)
    ensures m > 0 ==> session[m].interval.start == session[m - 1].interval.end
    ensures m < |session| - 1 ==>
              && session[m].interval.start < session[m].interval.end
              && Threshold(start, m, 5 * ivs[0].timeBase) <= session[m].interval.end
    decreases |session|
  {
    var n := |session| - 1;
    if n > 0 {
      BuiltAt(session[..n], start, firstId, ivs, if m < n then m else n - 1);
    }
  }

  lemma {:induction false} AllClosedAt(closed: seq<seq<Segment>>, ivs: seq<Interval>, i: nat)
    requires ivs != [] && AllClosed(closed, ivs) && i < |closed|
    ensures |closed[i]| == SEGMENTS_PER_SESSION
    ensures Built(closed[i], StartOfNext(closed[..i], ivs), SEGMENTS_PER_SESSION * i, ivs)
    ensures closed[i][SEGMENTS_PER_SESSION - 1].interval.start < EndOf(closed[i])
    ensures IsOneOf(ivs, closed[i][SEGMENTS_PER_SESSION - 1].interval)
    decreases |closed|
  {
    var n := |closed| - 1;
    if i < n {
      AllClosedAt(closed[..n], ivs, i);
      assert closed[..n][..i] == closed[..i];
    }
  }

  lemma ClosedAt(ivs: seq<Interval>, i: nat)
    requires Chain(ivs) && i < |CutUpTo(ivs, |ivs|).closed|
    ensures var closed := CutUpTo(ivs, |ivs|).closed;
            && |closed[i]| == SEGMENTS_PER_SESSION
            && Built(closed[i], StartOfNext(closed[..i], ivs), SEGMENTS_PER_SESSION * i, ivs)
            && closed[i][SEGMENTS_PER_SESSION - 1].interval.start < EndOf(closed[i])
            && IsOneOf(ivs, closed[i][SEGMENTS_PER_SESSION - 1].interval)
  {
    CutUpToWellCut(ivs, |ivs|);
    AllClosedAt(CutUpTo(ivs, |ivs|).closed, ivs, i);
  }

  /** The i-th session of the list is built from where the session before it ends. */
  lemma SessionOfList(ivs: seq<Interval>, i: nat)
    requires Chain(ivs) && i < |SegmentList(ivs)|
    ensures var sessions := SegmentList(ivs);
            && Built(sessions[i], StartOfNext(sessions[..i], ivs), SEGMENTS_PER_SESSION * i, ivs)
            && (if i < |sessions| - 1 then
                  && |sessions[i]| == SEGMENTS_PER_SESSION
                  && sessions[i][SEGMENTS_PER_SESSION - 1].interval.start < EndOf(sessions[i])
                  && IsOneOf(ivs, sessions[i][SEGMENTS_PER_SESSION - 1].interval)
                else
                  1 <= |sessions[i]| < SEGMENTS_PER_SESSION && EndOf(sessions[i]) == Boundary(ivs, |ivs|))
  {
    var c, sessions := CutUpTo(ivs, |ivs|), SegmentList(ivs);
    assert sessions == c.closed + [c.open];
    if i < |c.closed| {
      ClosedAt(ivs, i);
      assert sessions[..i] == c.closed[..i] && sessions[i] == c.closed[i];
    } else {
      CutUpToWellCut(ivs, |ivs|);
      assert sessions[..i] == c.closed && sessions[i] == c.open;
    }
  }

  /** A session is closed as soon as it has its twelfth segment, so that one is a single keyframe interval. */
  lemma LastOfFullSession(ivs: seq<Interval>, i: nat)
    requires Chain(ivs) && i < |SegmentList(ivs)| - 1
    ensures |SegmentList(ivs)[i]| == 12
    ensures exists k: nat :: k < |ivs| && ivs[k] == SegmentList(ivs)[i][11].interval
  {
    SessionOfList(ivs, i);
  }

  /** All sessions but the last hold exactly twelve segments and the last holds 1 to 11. */
  lemma SessionSizes(ivs: seq<Interval>)
    requires Chain(ivs)
    ensures var sessions := SegmentList(ivs);
            && sessions != []
            && (forall i :: 0 <= i < |sessions| - 1 ==> |sessions[i]| == 12)
            && 1 <= |sessions[|sessions| - 1]| <= 11
  {
    forall i: nat | i < |SegmentList(ivs)| ensures |SegmentList(ivs)[i]| > 0 {
      SessionOfList(ivs, i);
    }
    SessionOfList(ivs, |SegmentList(ivs)| - 1);
    forall i: nat | i < |SegmentList(ivs)| - 1 ensures |SegmentList(ivs)[i]| == SEGMENTS_PER_SESSION {
      SessionOfList(ivs, i);
    }
  }

  /** The segment before segment m of session i in playing order ends where this one starts; the very
      first starts at `first`, the very last ends at `last`, and only that one may be empty. */
  ghost predicate TilesAt(sessions: seq<seq<Segment>>, first: int, last: int, i: nat, m: nat)
    requires forall j :: 0 <= j < |sessions| ==> sessions[j] != []
    requires i < |sessions| && m < |sessions[i]|
  {
    var seg := sessions[i][m];
    && seg.interval.start ==
       (if m > 0 then sessions[i][m - 1].interval.end else if i > 0 then EndOf(sessions[i - 1]) else first)
    && if i == |sessions| - 1 && m == |sessions[i]| - 1 then seg.interval.start <= seg.interval.end == last
       else seg.interval.start < seg.interval.end
  }

  /** The last segment of a session is never negative. */
  lemma LastSegmentOrder(ivs: seq<Interval>, i: nat)
    requires Chain(ivs) && i < |SegmentList(ivs)|
    ensures var s := SegmentList(ivs)[i];
            s != [] && s[|s| - 1].interval.start <= EndOf(s)
  {
    SessionOfList(ivs, i);
    var c := CutUpTo(ivs, |ivs|);
    CutUpToWellCut(ivs, |ivs|);
    if i == |c.closed| {
      BuiltAt(c.open, StartOfNext(c.closed, ivs), SEGMENTS_PER_SESSION * i, ivs, |c.open| - 1);
    }
  }

  lemma SegmentOfList(ivs: seq<Interval>, i: nat, m: nat)
    requires Chain(ivs) && i < |SegmentList(ivs)| && m < |SegmentList(ivs)[i]|
    ensures var sessions := SegmentList(ivs);
            && (forall j :: 0 <= j < |sessions| ==> sessions[j] != [])
            && TilesAt(sessions, Boundary(ivs, 0), Boundary(ivs, |ivs|), i, m)
            && sessions[i][m].id == SEGMENTS_PER_SESSION * i + m
            && OnBoundaries(sessions[i][m], ivs)
  {
    var sessions := SegmentList(ivs);
    SessionSizes(ivs);
    SessionOfList(ivs, i);
    var start := StartOfNext(sessions[..i], ivs);
    BuiltAt(sessions[i], start, SEGMENTS_PER_SESSION * i, ivs, m);
    LastSegmentOrder(ivs, i);
    if i > 0 {
      assert sessions[..i][i - 1] == sessions[i - 1] != [];
    }
  }

  lemma BoundaryIsTimestamp(timestamps: seq<int>, total: int, timeBase: int, ts: int)
    requires timestamps != [] && IsBoundary(KeyframeIntervals(timestamps, total, timeBase), ts)
    ensures ts in timestamps || ts == total
  {
    var ivs := KeyframeIntervals(timestamps, total, timeBase);
    var k: nat :| k <= |ivs| && Boundary(ivs, k) == ts;
    assert k < |timestamps| ==> timestamps[k] == ts;
  }

  /** On increasing timestamps the segments tile [first timestamp, total duration) across session
      borders, are numbered 0, 1, 2, ... and begin and end at keyframes. */
  lemma TransmuxedListTiles(timestamps: seq<int>, total: int, timeBase: int, i: nat, m: nat)
    requires timestamps != [] && timeBase > 0
    requires forall j :: 0 < j < |timestamps| ==> timestamps[j - 1] < timestamps[j]
    requires timestamps[|timestamps| - 1] < total
    requires var sessions := SegmentList(KeyframeIntervals(timestamps, total, timeBase));
             i < |sessions| && m < |sessions[i]|
    ensures var sessions := SegmentList(KeyframeIntervals(timestamps, total, timeBase));
            && (forall j :: 0 <= j < |sessions| ==> sessions[j] != [])
            && TilesAt(sessions, timestamps[0], total, i, m)
            && sessions[i][m].id == 12 * i + m && sessions[i][m].interval.timeBase == timeBase
            && (sessions[i][m].interval.start in timestamps || sessions[i][m].interval.start == total)
            && (sessions[i][m].interval.end in timestamps || sessions[i][m].interval.end == total)
  {
    var ivs := KeyframeIntervals(timestamps, total, timeBase);
    IncreasingTimestampsChain(timestamps, total, timeBase);
    SegmentOfList(ivs, i, m);
    var seg := SegmentList(ivs)[i][m];
    BoundaryIsTimestamp(timestamps, total, timeBase, seg.interval.start);
    BoundaryIsTimestamp(timestamps, total, timeBase, seg.interval.end);
  }

  /** The drift bound.  In a session starting at S with segment duration D, segment m is cut at the
      first keyframe boundary at or past S + (m+1)*D, unless the session is full or the input ends; and
      when no interval is longer than L it ends before S + (m+1)*D + L, and m times what L exceeds D. */
  lemma DriftBound(ivs: seq<Interval>, i: nat, m: nat)
    requires Chain(ivs) && i < |SegmentList(ivs)| && m < |SegmentList(ivs)[i]|
    ensures var s, ticks := SegmentList(ivs)[i], ToTicks(SEGMENT_DURATION, ivs[0].timeBase);
            var threshold := s[0].interval.start + (m + 1) * ticks;
            && (m < |s| - 1 ==> threshold <= s[m].interval.end)
            && NoLateBoundary(s[m], threshold, ivs)
            && (forall longest :: NoneLonger(ivs, longest) ==>
                  s[m].interval.end < threshold + longest + m * Over(longest, ticks))
  {
    var s, ticks := SegmentList(ivs)[i], 5 * ivs[0].timeBase;
    SessionOfList(ivs, i);
    SegmentTicks(ivs[0].timeBase);
    BuiltAt(s, StartOfNext(SegmentList(ivs)[..i], ivs), SEGMENTS_PER_SESSION * i, ivs, m);
    ThresholdExactly(s[0].interval.start, m, ticks);
    forall longest | NoneLonger(ivs, longest)
      ensures s[m].interval.end < s[0].interval.start + (m + 1) * ticks + longest + m * Over(longest, ticks)
    {
      SlackExactly(longest, m, ticks);
    }
  }

  // ----- the length of a segment -----

  /** One segment duration after the segment before it could be cut, or after the session's start. */
  lemma StartOfSegment(ivs: seq<Interval>, i: nat, m: nat)
    requires Chain(ivs) && i < |SegmentList(ivs)| && m < |SegmentList(ivs)[i]|
    ensures var s, ticks := SegmentList(ivs)[i], 5 * ivs[0].timeBase;
            && s[0].interval.start + m * ticks <= s[m].interval.start
            && (m == 0 ==> s[m].interval.start == s[0].interval.start)
  {
    if m > 0 {
      SegmentTicks(ivs[0].timeBase);
      DriftBound(ivs, i, m - 1);
      SegmentOfList(ivs, i, m);
    }
  }

  /** The last keyframe boundary before a segment's end. */
  lemma LastInterval(ivs: seq<Interval>, seg: Segment) returns (k: nat)
    requires Chain(ivs) && OnBoundaries(seg, ivs) && seg.interval.start < seg.interval.end
    ensures k < |ivs| && seg.interval.start <= Boundary(ivs, k) < seg.interval.end == Boundary(ivs, k + 1)
  {
    var j: nat :| j <= |ivs| && Boundary(ivs, j) == seg.interval.start;
    var e: nat :| e <= |ivs| && Boundary(ivs, e) == seg.interval.end;
    if e <= j {
      if e < j { BoundariesIncrease(ivs, e, j); }
      assert false;
    }
    k := e - 1;
    BoundariesIncrease(ivs, k, e);
    if j < k { BoundariesIncrease(ivs, j, k); }
  }

  /** What the threshold rule leaves of "segments last at least five seconds": a segment before the
      session's last is less than `longest` shorter, or longer, than that, and the first is not shorter. */
  lemma SegmentLengths(ivs: seq<Interval>, longest: int, i: nat, m: nat)
    requires Chain(ivs) && NoneLonger(ivs, longest)
    requires i < |SegmentList(ivs)| && m < |SegmentList(ivs)[i]| - 1
    ensures var seg, ticks := SegmentList(ivs)[i][m].interval, 5 * ivs[0].timeBase;
            && ticks - longest < seg.end - seg.start < ticks + longest
            && (m == 0 ==> ticks <= seg.end - seg.start)
  {
    var s, ticks := SegmentList(ivs)[i], 5 * ivs[0].timeBase;
    SegmentTicks(ivs[0].timeBase);
    DriftBound(ivs, i, m);
    SegmentOfList(ivs, i, m);
    StartOfSegment(ivs, i, m);
    var k := LastInterval(ivs, s[m]);
    assert (m + 1) * ticks == m * ticks + ticks;
    if longest <= ticks && m > 0 {
      DriftBound(ivs, i, m - 1);
    }
  }

  /** Exactly when a segment before the session's last does last the segment duration D: when no keyframe
      at or past its threshold comes within D of its start. */
  lemma LastsMinimumExactly(ivs: seq<Interval>, i: nat, m: nat)
    requires Chain(ivs) && i < |SegmentList(ivs)| && m < |SegmentList(ivs)[i]| - 1
    ensures var s, ticks := SegmentList(ivs)[i], 5 * ivs[0].timeBase;
            ticks <= s[m].interval.end - s[m].interval.start <==>
            !exists k: nat :: k <= |ivs| && s[m].interval.start < Boundary(ivs, k)
                              && s[0].interval.start + (m + 1) * ticks <= Boundary(ivs, k) < s[m].interval.start + ticks
  {
    SegmentTicks(ivs[0].timeBase);
    DriftBound(ivs, i, m);
    SegmentOfList(ivs, i, m);
    var k := LastInterval(ivs, SegmentList(ivs)[i][m]);
    assert Boundary(ivs, k + 1) == SegmentList(ivs)[i][m].interval.end;
  }

  ghost predicate NoneShorter(ivs: seq<Interval>, shortest: int) {
    forall i :: 0 <= i < |ivs| ==> shortest <= ivs[i].end - ivs[i].start
  }

  /** Every segment but the very last of the list lasts at least the segment duration. */
  ghost predicate AllLastMinimum(ivs: seq<Interval>)
    requires ivs != []
  {
    var sessions: seq<seq<Segment>> := SegmentList(ivs);
    forall i: nat, m: nat :: i < |sessions| && m < |sessions[i]| && !(i == |sessions| - 1 && m == |sessions[i]| - 1) ==>
      5 * ivs[0].timeBase <= sessions[i][m].interval.end - sessions[i][m].interval.start
  }

  lemma LongIntervalsLast(ivs: seq<Interval>, shortest: int)
    requires Chain(ivs) && NoneShorter(ivs, shortest) && shortest >= 5 * ivs[0].timeBase
    ensures AllLastMinimum(ivs)
  {
    var sessions: seq<seq<Segment>> := SegmentList(ivs);
    forall i: nat, m: nat | i < |sessions| && m < |sessions[i]| && !(i == |sessions| - 1 && m == |sessions[i]| - 1)
      ensures 5 * ivs[0].timeBase <= sessions[i][m].interval.end - sessions[i][m].interval.start
    {
      SegmentOfList(ivs, i, m);
      var k := LastInterval(ivs, sessions[i][m]);
      assert Boundary(ivs, k + 1) - Boundary(ivs, k) >= shortest;
    }
  }

  /** Keyframes that make a segment as short as the shortest interval, whatever that is below the segment
      duration D: a late cut is followed by a cut one threshold, and not one D, later. */
  lemma ShortSegment(timeBase: int, shortest: int) returns (ivs: seq<Interval>)
    requires 0 < shortest < 5 * timeBase
    ensures var ticks := 5 * timeBase;
            && ivs == KeyframeIntervals([0, 2 * ticks - shortest, 2 * ticks], 3 * ticks, timeBase)
            && Chain(ivs) && NoneShorter(ivs, shortest)
            && SegmentList(ivs) == [[Segment(Interval(timeBase, 0, 2 * ticks - shortest), 0),
                                     Segment(Interval(timeBase, 2 * ticks - shortest, 2 * ticks), 1),
                                     Segment(Interval(timeBase, 2 * ticks, 3 * ticks), 2)]]
            && !AllLastMinimum(ivs)
  {
    var ticks, tb := 5 * timeBase, timeBase;
    ivs := KeyframeIntervals([0, 2 * ticks - shortest, 2 * ticks], 3 * ticks, tb);
    SegmentTicks(tb);
    var first := Segment(Interval(tb, 0, 2 * ticks - shortest), 0);
    var second := Segment(Interval(tb, 2 * ticks - shortest, 2 * ticks), 1);
    var third := Segment(Interval(tb, 2 * ticks, 3 * ticks), 2);
    assert CutUpTo(ivs, 0) == Cutting([], [Segment(Interval(tb, 0, 0), 0)], 1, ticks);
    assert CutUpTo(ivs, 1) == Cutting([], [first], 1, ticks);
    assert CutUpTo(ivs, 2) == Cutting([], [first, second], 2, 2 * ticks);
    assert CutUpTo(ivs, 3) == Cutting([], [first, second, third], 3, 3 * ticks);
    assert SegmentList(ivs) == [] + [[first, second, third]];
    assert SegmentList(ivs)[0][1] == second;
  }

  /** ffmpeg/ffmpeg.go calls the segment duration a minimum for transmuxing.  For each time base it is one,
      for all streams without a keyframe interval below `shortest`, exactly if `shortest` itself is at
      least the segment duration. */
  lemma MinimumExactly(timeBase: int, shortest: int)
    requires timeBase > 0 && shortest > 0
    ensures shortest >= 5 * timeBase <==>
            forall ivs: seq<Interval> :: Chain(ivs) && ivs[0].timeBase == timeBase && NoneShorter(ivs, shortest) ==>
                AllLastMinimum(ivs)
  {
    if shortest >= 5 * timeBase {
      forall ivs: seq<Interval> | Chain(ivs) && ivs[0].timeBase == timeBase && NoneShorter(ivs, shortest)
        ensures AllLastMinimum(ivs)
      {
        LongIntervalsLast(ivs, shortest);
      }
    } else {
      var ivs := ShortSegment(timeBase, shortest);
    }
  }

  /** For example, keyframes at 0, 6 and 10 s of 15 s cut a segment of 4 s. */
  lemma SegmentDurationIsNoMinimum()
    ensures var ivs := KeyframeIntervals([0, 6, 10], 15, 1);
            && Chain(ivs)
            && SegmentList(ivs) == [[Segment(Interval(1, 0, 6), 0), Segment(Interval(1, 6, 10), 1),
                                     Segment(Interval(1, 10, 15), 2)]]
  {
    var ivs := ShortSegment(1, 4);
  }
}
