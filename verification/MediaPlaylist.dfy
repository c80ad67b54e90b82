/** hls/manifest.go (BuildTranscodingMediaPlaylistFromFile, without the text template) and the start
    time of ffmpeg/ffmpeg.go (NewTranscodingSession). */
module MediaPlaylist {
  import opened Segments
  import opened ConstantSegments

  /** EXT-X-TARGETDURATION of the media playlist template, in seconds. */
  const TARGET_DURATION: int := 1000

  function TotalInterval(timeBase: int, totalDurationDts: int): Interval {
    Interval(timeBase, 0, totalDurationDts)
  }

  /** The EXTINF durations in nanoseconds, in playlist order. */
  ghost function Entries(timeBase: int, totalDurationDts: int): seq<int>
    requires timeBase > 0 && FullSegments(TotalInterval(timeBase, totalDurationDts), SEGMENT_DURATION) >= 0
  {
    Durations(ConstantList(TotalInterval(timeBase, totalDurationDts), SEGMENT_DURATION, 0))
  }

  /** time.Duration.Seconds, with exact rationals in place of float64. */
  function Seconds(duration: int): (seconds: real)
    ensures seconds * 1_000_000_000.0 == duration as real
  {
    duration as real / SECOND as real
  }

  /** Where ffmpeg seeks to when a session starts at the given segment. */
  function StartTime(segmentStartIndex: int): int {
    segmentStartIndex * SEGMENT_DURATION
  }

  lemma StartIsExact(timeBase: int, i: int)
    requires timeBase > 0
    ensures Truncate(SECOND * (i * (5 * timeBase)), timeBase) == i * SEGMENT_DURATION
  {
    assert SECOND * (i * (5 * timeBase)) == (i * SEGMENT_DURATION) * timeBase;
    TruncateExact(i * SEGMENT_DURATION, timeBase);
  }

  lemma TruncateZero(timeBase: int)
    requires timeBase > 0
    ensures Truncate(SECOND * 0, timeBase) == 0
  {
    TruncateExact(0, timeBase);
  }

  /** Every full entry is exactly five seconds, and the closing one is what remains of the total. */
  lemma EntryDurations(timeBase: int, totalDurationDts: int, i: nat)
    requires timeBase > 0 && totalDurationDts >= 0
    ensures FullSegments(TotalInterval(timeBase, totalDurationDts), SEGMENT_DURATION) >= 0
    ensures var entries, total := Entries(timeBase, totalDurationDts),
              TotalInterval(timeBase, totalDurationDts).EndDuration();
            var n := |entries| - 1;
            && n * SEGMENT_DURATION <= total < (n + 1) * SEGMENT_DURATION
            && (i < n ==> entries[i] == SEGMENT_DURATION)
            && (i == n ==> entries[i] == total - n * SEGMENT_DURATION)
  {
    var interval := TotalInterval(timeBase, totalDurationDts);
    FullSegmentsBound(interval, SEGMENT_DURATION);
    SegmentTicks(timeBase);
    TruncateZero(timeBase);
    StartIsExact(timeBase, i);
    StartIsExact(timeBase, i + 1);
  }

  /** The playlist's numbers: 5 for each full entry, and what remains, less than 5, for the closing one. */
  lemma InSeconds(timeBase: int, totalDurationDts: int, seconds: seq<real>)
    requires timeBase > 0 && totalDurationDts >= 0
    requires FullSegments(TotalInterval(timeBase, totalDurationDts), SEGMENT_DURATION) >= 0
    requires |seconds| == |Entries(timeBase, totalDurationDts)|
    requires forall i :: 0 <= i < |seconds| ==>
               seconds[i] * 1_000_000_000.0 == Entries(timeBase, totalDurationDts)[i] as real
    ensures forall i :: 0 <= i < |seconds| - 1 ==> seconds[i] == 5.0
    ensures 0.0 <= seconds[|seconds| - 1] < 5.0
  {
    forall i: nat | i < |seconds| - 1 ensures seconds[i] == 5.0 {
      EntryDurations(timeBase, totalDurationDts, i);
    }
    EntryDurations(timeBase, totalDurationDts, |seconds| - 1);
  }

  method BuildTranscodingMediaPlaylist(timeBase: int, totalDurationDts: int)
    returns (segmentDurationsSeconds: seq<real>)
    requires timeBase > 0 && FullSegments(TotalInterval(timeBase, totalDurationDts), SEGMENT_DURATION) >= 0
    ensures |segmentDurationsSeconds| == |Entries(timeBase, totalDurationDts)|
    ensures forall i :: 0 <= i < |segmentDurationsSeconds| ==>
              segmentDurationsSeconds[i] * 1_000_000_000.0 == Entries(timeBase, totalDurationDts)[i] as real
    ensures totalDurationDts >= 0 ==>
              && (forall i :: 0 <= i < |segmentDurationsSeconds| - 1 ==> segmentDurationsSeconds[i] == 5.0)
              && 0.0 <= segmentDurationsSeconds[|segmentDurationsSeconds| - 1] < 5.0
  {
    var segments := BuildConstantSegmentDurations(TotalInterval(timeBase, totalDurationDts), SEGMENT_DURATION, 0);
    var segmentDurations := ComputeSegmentDurations([segments]);
    assert Flatten([segments]) == segments by {
      assert Flatten([segments][..0]) + segments == segments;
    }
    segmentDurationsSeconds := [];
    for i := 0 to |segmentDurations|
      invariant |segmentDurationsSeconds| == i
      invariant forall k :: 0 <= k < i ==> segmentDurationsSeconds[k] == Seconds(segmentDurations[k])
    {
      segmentDurationsSeconds := segmentDurationsSeconds + [Seconds(segmentDurations[i])];
    }
    if totalDurationDts >= 0 {
      InSeconds(timeBase, totalDurationDts, segmentDurationsSeconds);
    }
  }

  /** Seeking and the playlist agree: the entries before entry i add up to exactly the time ffmpeg is
      started at for segment i, and all of them to the stream's total duration. */
  lemma SeekMatchesPlaylist(timeBase: int, totalDurationDts: int, i: nat)
    requires timeBase > 0 && totalDurationDts >= 0
    ensures FullSegments(TotalInterval(timeBase, totalDurationDts), SEGMENT_DURATION) >= 0
    ensures var entries := Entries(timeBase, totalDurationDts);
            && (i < |entries| ==> Sum(entries[..i]) == StartTime(i))
            && Sum(entries) == TotalInterval(timeBase, totalDurationDts).EndDuration()
  {
    EntryDurations(timeBase, totalDurationDts, i);
    var segments := ConstantList(TotalInterval(timeBase, totalDurationDts), SEGMENT_DURATION, 0);
    var entries := Durations(segments);
    ListTiles(TotalInterval(timeBase, totalDurationDts), SEGMENT_DURATION, 0);
    SegmentTicks(timeBase);
    TruncateZero(timeBase);
    DurationsTelescope(segments, |segments|);
    assert entries[..|entries|] == entries;
    if i < |entries| {
      DurationsTelescope(segments, i);
      StartIsExact(timeBase, i);
    }
  }

  // ----- the target duration rule, section 4.3.3.1 of RFC 8216 -----

  /** A duration rounded to the nearest whole number of seconds. */
  function Rounded(duration: int): (seconds: int)
    ensures 2 * duration - 1_000_000_000 < 2 * seconds * 1_000_000_000 <= 2 * duration + 1_000_000_000
  {
    (duration + SECOND / 2) / SECOND
  }

  lemma TargetDurationRule(timeBase: int, totalDurationDts: int, i: nat)
    requires timeBase > 0 && totalDurationDts >= 0
    ensures FullSegments(TotalInterval(timeBase, totalDurationDts), SEGMENT_DURATION) >= 0
    ensures i < |Entries(timeBase, totalDurationDts)| ==>
              0 <= Rounded(Entries(timeBase, totalDurationDts)[i]) <= 5 < 1000 == TARGET_DURATION
  {
    EntryDurations(timeBase, totalDurationDts, i);
  }

  lemma MillisecondTotal(totalMs: nat)
    ensures TotalInterval(1000, totalMs).EndDuration() == totalMs * 1_000_000
  {
    assert SECOND * totalMs == (totalMs * 1_000_000) * 1000;
    TruncateExact(totalMs * 1_000_000, 1000);
  }

  lemma SubtitleEntry(totalMs: nat, i: nat)
    ensures FullSegments(TotalInterval(1000, totalMs), SEGMENT_DURATION) >= 0
    ensures i < |Entries(1000, totalMs)| ==> Rounded(Entries(1000, totalMs)[i]) <= 5
  {
    MillisecondTotal(totalMs);
    EntryDurations(1000, totalMs, i);
  }

  /** A subtitle playlist has one entry exactly if the stream is shorter than a segment. */
  lemma SubtitleSingleEntry(totalMs: nat)
    ensures FullSegments(TotalInterval(1000, totalMs), SEGMENT_DURATION) >= 0
    ensures |Entries(1000, totalMs)| == 1 <==> totalMs < 5000
    ensures totalMs < 5000 ==> Entries(1000, totalMs)[0] == totalMs * 1_000_000
  {
    MillisecondTotal(totalMs);
    EntryDurations(1000, totalMs, 0);
  }

  lemma RoundsDown(totalMs: nat, totalDuration: int)
    requires totalMs * 1_000_000 <= totalDuration < (totalMs + 1) * 1_000_000
    ensures Rounded(totalMs * 1_000_000) * SECOND <= totalDuration <==> totalMs % 1000 < 500
  {
    var q, r, n := totalMs / 1000, totalMs % 1000, Rounded(totalMs * 1_000_000);
    assert totalMs == 1000 * q + r;
    assert n == if r < 500 then q else q + 1;
  }

  /** The subtitle playlist announces its total duration as target duration; the stream holds that
      duration in milliseconds (time base 1000) and in nanoseconds.  The rule holds for it exactly
      when the stream lasts five seconds or its last fraction of a second rounds down. */
  lemma SubtitleTargetDuration(totalMs: nat, totalDuration: int)
    requires totalMs * 1_000_000 <= totalDuration < (totalMs + 1) * 1_000_000
    ensures FullSegments(TotalInterval(1000, totalMs), SEGMENT_DURATION) >= 0
    ensures (totalMs >= 5000 || totalMs % 1000 < 500) <==>
            forall i :: 0 <= i < |Entries(1000, totalMs)| ==>
                Rounded(Entries(1000, totalMs)[i]) * SECOND <= totalDuration
  {
    SubtitleSingleEntry(totalMs);
    RoundsDown(totalMs, totalDuration);
    if totalMs >= 5000 {
      forall i: nat | i < |Entries(1000, totalMs)|
        ensures Rounded(Entries(1000, totalMs)[i]) * SECOND <= totalDuration
      {
        SubtitleEntry(totalMs, i);
      }
    }
  }
}
