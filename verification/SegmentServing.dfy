/** ffmpeg/session.go (AvailableSegments), the throttle decision of streaming/session.go and
    streaming/ffmpeg_feedback.go, and a single client of streaming/segments.go. */
module SegmentServing {
  import opened SessionTable

  // ----- which files are available -----

  datatype MediaFile = InitSegment | MediaSegment(number: nat)

  /** The newest media segment is left out while ffmpeg may still be writing to it. */
  predicate IsAvailable(initReady: bool, numbers: set<nat>, terminated: bool, idx: int) {
    || (idx == INIT_SEGMENT_IDX && initReady)
    || (idx >= 0 && idx in numbers && (terminated || exists m :: m in numbers && m > idx))
  }

  function NumberSet(numbers: seq<nat>): set<nat> {
    set n | n in numbers
  }

  /** `numbers` are the numbers of the segment files in the output directory, in directory order. */
  method AvailableSegments(initReady: bool, numbers: seq<nat>, terminated: bool) returns (res: map<int, MediaFile>)
    ensures forall idx :: idx in res <==> IsAvailable(initReady, NumberSet(numbers), terminated, idx)
    ensures -1 in res <==> initReady
    ensures terminated ==> forall n: nat :: n in res <==> n in numbers
    ensures !terminated ==> forall n: nat :: n in res <==> n in numbers && exists m :: m in numbers && m > n
    ensures forall idx :: idx in res ==> res[idx] == if idx == INIT_SEGMENT_IDX then InitSegment else MediaSegment(idx)
  {
    res := map[];
    if initReady {
      res := res[INIT_SEGMENT_IDX := InitSegment];
    }
    var maxSegmentID: nat := 0;
    for i := 0 to |numbers|
      invariant forall idx :: idx in res <==>
                  (idx == INIT_SEGMENT_IDX && initReady) || (idx >= 0 && idx in numbers[..i])
      invariant forall idx :: idx in res ==>
                  res[idx] == if idx == INIT_SEGMENT_IDX then InitSegment else MediaSegment(idx)
      invariant forall n :: n in numbers[..i] ==> n <= maxSegmentID
      invariant maxSegmentID == 0 || maxSegmentID in numbers[..i]
    {
      res := res[numbers[i] := MediaSegment(numbers[i])];
      if numbers[i] > maxSegmentID {
        maxSegmentID := numbers[i];
      }
      assert numbers[..i + 1] == numbers[..i] + [numbers[i]];
    }
    assert numbers[..|numbers|] == numbers;
    ghost var ns := NumberSet(numbers);
    if |res| > 0 && !terminated {
      forall idx: nat | idx in numbers ensures idx != maxSegmentID <==> exists m :: m in ns && m > idx {
        if idx != maxSegmentID {
          assert maxSegmentID in ns;
        }
      }
      res := res - {maxSegmentID};
    } else if !terminated {
      assert forall n :: n in ns ==> n in numbers;
    }
  }

  /** Whether the transcoder is ten segments ahead of what was served. */
  predicate TooFarAhead(available: set<int>, lastServed: int) {
    -1 >= lastServed + 10 || exists idx :: idx in available && idx >= lastServed + 10
  }

  lemma Element<T>(s: set<T>) returns (x: T)
    requires s != {}
    ensures x in s
  {
    x :| x in s;
  }

  method ShouldThrottle(segments: map<int, MediaFile>, lastServedSegmentIdx: int) returns (throttle: bool)
    ensures throttle <==>
            lastServedSegmentIdx <= -11 || exists idx :: idx in segments.Keys && idx >= lastServedSegmentIdx + 10
    ensures throttle <==> TooFarAhead(segments.Keys, lastServedSegmentIdx)
  {
    var maxSegmentIdx := -1;
    var rest := segments.Keys;
    while rest != {}
      invariant forall idx :: idx in segments.Keys && idx !in rest ==> idx <= maxSegmentIdx
      invariant forall idx :: idx in rest ==> idx in segments.Keys
      invariant maxSegmentIdx == -1 || maxSegmentIdx in segments.Keys
      decreases rest
    {
      ghost var element := Element(rest);
      var segmentIdx: int :| segmentIdx in rest;
      if segmentIdx > maxSegmentIdx {
        maxSegmentIdx := segmentIdx;
      }
      rest := rest - {segmentIdx};
    }
    return maxSegmentIdx >= lastServedSegmentIdx + 10;
  }

  // ----- a producer that obeys the throttle -----

  /** A session from index `start` whose transcoder has written the segment files start..newest. */
  datatype Stream = Stream(info: Info, newest: int, terminated: bool)

  datatype Action =
    | Produce                      // ffmpeg asks for feedback, is not throttled and starts the next file
    | Exit                         // ffmpeg has ended
    | Answer(idx: int, now: int)   // some handler's request is answered

  /** With the files start..newest, what AvailableSegments lists; see ReadyIsAvailable. */
  predicate Ready(s: Stream, idx: int) {
    s.info.start <= idx <= s.newest && (s.terminated || idx < s.newest)
  }

  /** Of consecutive files all but the newest are available, or all once ffmpeg has ended, and besides
      them the init segment when it is there. */
  lemma ReadyIsAvailable(s: Stream, initReady: bool, numbers: set<nat>, idx: int)
    requires s.info.start >= 0 && forall n: nat :: n in numbers <==> s.info.start <= n <= s.newest
    ensures IsAvailable(initReady, numbers, s.terminated, idx) <==> (idx == -1 && initReady) || Ready(s, idx)
    ensures Ready(s, idx) <==> s.info.start <= idx <= if s.terminated then s.newest else s.newest - 1
  {
    if s.info.start <= idx < s.newest {
      var m: nat := s.newest;
      assert m in numbers;
    }
  }

  function ReadySet(s: Stream): set<int> {
    set idx: int | s.info.start <= idx <= s.newest && Ready(s, idx)
  }

  predicate Throttled(s: Stream) {
    TooFarAhead(ReadySet(s), s.info.served)
  }

  predicate CanAct(s: Stream, a: Action) {
    match a
    case Produce => !s.terminated && !Throttled(s)
    case Exit => !s.terminated
    case Answer(_, _) => Ready(s, s.info.served + 1)
  }

  function Act(s: Stream, a: Action): Stream {
    match a
    case Produce => s.(newest := s.newest + 1)
    case Exit => s.(terminated := true)
    case Answer(idx, now) => s.(info := Answered(s.info, idx, now))
  }

  /** A session just created for a media segment, with no file written yet. */
  predicate IsNew(s: Stream) {
    s.info.start >= 0 && s.info == NewInfo(s.info.key, s.info.id, s.info.start, s.info.accessed)
    && s.newest == s.info.start - 1 && !s.terminated
  }

  /** `s` is reached from a new session by the actions, each possible when it happens. */
  ghost predicate Reached(actions: seq<Action>, s: Stream)
    decreases |actions|
  {
    if actions == [] then IsNew(s)
    else
      var n := |actions| - 1;
      exists p :: Reached(actions[..n], p) && CanAct(p, actions[n]) && s == Act(p, actions[n])
  }

  lemma ThrottledAhead(s: Stream)
    requires s.info.start >= 0 && s.info.served >= -1
    ensures var last := s.newest - if s.terminated then 0 else 1;
            Throttled(s) <==> s.info.start <= last && last >= s.info.served + 10
  {
    var last := s.newest - if s.terminated then 0 else 1;
    if s.info.start <= last {
      assert Ready(s, last) && last in ReadySet(s);
    }
  }

  lemma {:induction false} ReachedBounds(actions: seq<Action>, s: Stream)
    requires Reached(actions, s)
    ensures s.info.start >= 0
    ensures s.info.start - 1 <= s.info.served <= s.newest <= s.info.served + 11
    decreases |actions|
  {
    if actions != [] {
      var n := |actions| - 1;
      var p :| Reached(actions[..n], p) && CanAct(p, actions[n]) && s == Act(p, actions[n]);
      ReachedBounds(actions[..n], p);
      ThrottledAhead(p);
    }
  }

  /** Throttling is bounded and never starves the client: the newest file is at most 11 ahead of the last
      index served, and whenever the producer is throttled the next index to serve is available. */
  lemma ThrottlingBoundedAndFair(actions: seq<Action>, s: Stream)
    requires Reached(actions, s)
    ensures s.newest <= s.info.served + 11
    ensures Throttled(s) ==> CanAct(s, Answer(s.info.requested + 1, 0))
  {
    ReachedBounds(actions, s);
    ThrottledAhead(s);
  }

  // ----- a client that sends one request at a time -----

  /** The requests of a client that waits for each answer, each within the window of the session. */
  ghost predicate OneAtATime(i: Info, requests: seq<int>, i': Info)
    decreases |requests|
  {
    if requests == [] then i' == i
    else
      var n := |requests| - 1;
      exists mid, now ::
        OneAtATime(i, requests[..n], mid) && requests[n] != INIT_SEGMENT_IDX && InWindow(mid.requested, requests[n])
        && i' == Answered(mid, requests[n], now)
  }

  /** Counted from the index before the session's start: what was served never overtakes what was
      requested, what was requested is at most four times what was served, and the client is served
      the indices in order, without gap or repetition. */
  lemma {:induction false} ClientProgress(key: Key, id: nat, start: int, now: int, requests: seq<int>, i: Info)
    requires OneAtATime(NewInfo(key, id, start, now), requests, i)
    ensures i.start == start && i.served - (start - 1) == |requests|
    ensures |requests| <= i.requested - (start - 1) <= 4 * |requests|
    ensures |i.trail| == |requests| && forall k :: 0 <= k < |i.trail| ==> i.trail[k] == start + k
    decreases |requests|
  {
    if requests != [] {
      var n := |requests| - 1;
      var mid, at :| OneAtATime(NewInfo(key, id, start, now), requests[..n], mid)
        && requests[n] != INIT_SEGMENT_IDX && InWindow(mid.requested, requests[n])
            && i == Answered(mid, requests[n], at);
      ClientProgress(key, id, start, now, requests[..n], mid);
    }
  }
}
