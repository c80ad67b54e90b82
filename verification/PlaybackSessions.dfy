/** streaming/session.go: the session objects and their manager, method by method, against the state
    machine of SessionTable. */
module PlaybackSessions {
  import opened SessionTable
  import opened SegmentServing

  predicate ListedIn(rounds: seq<map<int, MediaFile>>, idx: int) {
    exists i :: 0 <= i < |rounds| && idx in rounds[i]
  }

  class PlaybackSession {
    const key: Key
    const playbackSessionID: nat
    const start: int
    var lastRequestedSegmentIdx: int
    var lastServedSegmentIdx: int
    var referenceCount: int
    var lastAccessed: int
    var destroyed: nat         // calls of TranscodingSession.Destroy
    ghost var trail: seq<int>  // indices of the segments written to clients

    constructor (key: Key, playbackSessionID: nat, segmentIdx: int, now: int)
      ensures View() == NewInfo(key, playbackSessionID, segmentIdx, now)
    {
      this.key := key;
      this.playbackSessionID := playbackSessionID;
      start := segmentIdx;
      lastRequestedSegmentIdx := segmentIdx - 1;
      lastServedSegmentIdx := segmentIdx - 1;
      referenceCount := 1;
      lastAccessed := now;
      destroyed := 0;
      trail := [];
    }

    ghost function View(): Info
      reads this
    {
      Info(key, playbackSessionID, start, lastRequestedSegmentIdx, lastServedSegmentIdx, referenceCount,
           lastAccessed, destroyed, trail)
    }

    method CleanupIfRequired()
      modifies this
      ensures View() == old(View()).(destroyed := old(destroyed) + if referenceCount > 0 then 0 else 1)
    {
      if referenceCount > 0 {
        return;
      }
      destroyed := destroyed + 1;
    }

    method Release()
      modifies this
      ensures View() == Released(old(View()))
    {
      referenceCount := referenceCount - 1;
      CleanupIfRequired();
    }

    /** One round of the polling loop of serveSegment: if the next segment is there, it is served. */
    method TryServe(segmentIdx: int, availableSegments: map<int, MediaFile>, now: int) returns (done: bool)
      modifies this
      ensures done <==> old(lastServedSegmentIdx) + 1 in availableSegments
      ensures done ==> lastAccessed == now && trail == old(trail) + [old(lastServedSegmentIdx) + 1]
      ensures View() == if done then Answered(old(View()), segmentIdx, now) else old(View())
    {
      var segmentIdxToServe := lastServedSegmentIdx + 1;
      if segmentIdxToServe in availableSegments {
        trail := trail + [segmentIdxToServe];
        if lastRequestedSegmentIdx != segmentIdx {
          lastRequestedSegmentIdx := segmentIdx;
          lastServedSegmentIdx := lastServedSegmentIdx + 1;
        }
        lastAccessed := now;
        return true;
      }
      return false;
    }

    /** One round of the polling loop of serveInit: the init segment is served as soon as it is there. */
    method TryServeInit(availableSegments: map<int, MediaFile>, now: int) returns (done: bool)
      modifies this`lastAccessed
      ensures done <==> -1 in availableSegments
      ensures lastAccessed == if done then now else old(lastAccessed)
    {
      if INIT_SEGMENT_IDX in availableSegments {
        lastAccessed := now;
        return true;
      }
      return false;
    }

    /** The polling loop, undisturbed by other handlers.  `rounds` are the listings of available segments
        up to the first one that fails, which ends the loop as an answer does. */
    method Poll(segmentIdx: int, rounds: seq<map<int, MediaFile>>, now: int) returns (done: bool)
      modifies this
      ensures done <==> ListedIn(rounds, old(lastServedSegmentIdx) + 1)
      ensures View() == if done then Answered(old(View()), segmentIdx, now) else old(View())
    {
      ghost var before, next := View(), lastServedSegmentIdx + 1;
      for i := 0 to |rounds|
        invariant View() == before && !ListedIn(rounds[..i], next)
      {
        done := TryServe(segmentIdx, rounds[i], now);
        if done {
          assert next in rounds[i];
          return true;
        }
      }
      assert rounds[..|rounds|] == rounds;
      return false;
    }
  }

  /** Twenty minutes, in seconds; times are in seconds. */
  const PLAYBACK_SESSION_TIMEOUT: int := 20 * 60

  /** `got` is the state after a lookup from `st` that returned `s`: the session in the table or a new one. */
  ghost predicate Got<S>(st: State<S>, key: Key, idx: int, s: S, id: nat, now: int, got: State<S>) {
    && Inv(st)
    && (if Hit(st, key, idx) then s == st.table[key] else s !in st.info)
    && got == AfterGet(st, key, idx, s, id, now)
  }

  lemma UsedAndReleased<S>(st: State<S>, key: Key, idx: int, s: S, id: nat, now: int, got: State<S>, done: bool)
    requires Got(st, key, idx, s, id, now, got) && s in got.info
    ensures Inv(AfterRequest(got, s, done, idx, now))
  {
    RequestReturnsReference(st, key, idx, s, id, now, done);
  }

  datatype Group = Group(stream: StreamKey, userID: nat)

  function GroupOf(key: Key): Group {
    Group(key.stream, key.userID)
  }

  class PlaybackSessionManager {
    var sessions: map<Key, PlaybackSession>
    ghost var all: set<PlaybackSession>        // every session ever created
    ghost var held: multiset<PlaybackSession>  // the references handlers have not released yet

    constructor ()
      ensures View() == Empty() && Valid()
    {
      sessions := map[];
      all := {};
      held := multiset{};
    }

    ghost function View(): State<PlaybackSession>
      reads this, all
    {
      State(sessions, map s | s in all :: s.View(), held)
    }

    ghost predicate Valid()
      reads this, all
    {
      Inv(View())
    }

    /** One more reference to `s`, for a handler. */
    method Hold(s: PlaybackSession)
      requires s in all
      modifies this`held, s
      ensures View() == old(View()).(info := old(View()).info[s := Retained(old(View()).info[s])],
                                     held := old(held) + multiset{s})
    {
      ghost var info := View().info;
      s.referenceCount := s.referenceCount + 1;
      held := held + multiset{s};
      assert View().info == info[s := Retained(info[s])];
    }

    /** One reference to `s` less. */
    method LetGo(s: PlaybackSession)
      requires s in all
      modifies s
      ensures View() == old(View()).(info := old(View()).info[s := Released(old(View()).info[s])])
    {
      ghost var info := View().info;
      s.Release();
      assert View().info == info[s := Released(info[s])];
    }

    /** NewPlaybackSession and its entry in the table, with the reference of the handler that asked for it. */
    method Create(key: Key, id: nat, segmentIdx: int, now: int) returns (s: PlaybackSession)
      modifies this
      ensures fresh(s) && all == old(all) + {s}
      ensures View() == State(old(sessions)[key := s],
                              old(View()).info[s := Retained(NewInfo(key, id, segmentIdx, now))],
                              old(held) + multiset{s})
    {
      ghost var info := View().info;
      s := new PlaybackSession(key, id, segmentIdx, now);
      sessions := sessions[key := s];
      all := all + {s};
      s.referenceCount := s.referenceCount + 1;
      held := held + multiset{s};
      assert View().info == info[s := Retained(NewInfo(key, id, segmentIdx, now))];
    }

    /** Lookup, or replacement by a new session.  `creates` says whether NewPlaybackSession succeeds. */
    method GetPlaybackSession(key: Key, segmentIdx: int, creates: bool, id: nat, now: int) returns (s: PlaybackSession?)
      requires Valid()
      modifies this, all
      ensures s != null ==> s in all && Got(old(View()), key, segmentIdx, s, id, now, View()) && Valid()
      ensures s == null <==> !creates && !Hit(old(View()), key, segmentIdx)
      ensures s == null ==> View() == AfterFailedGet(old(View()), key)
      ensures forall x :: x in all && x !in old(all) ==> fresh(x)
    {
      ghost var st := View();
      s := if key in sessions then sessions[key] else null;
      assert s != null ==> s in st.info;
      if (segmentIdx == INIT_SEGMENT_IDX && s != null)
         || (s != null && segmentIdx > s.lastRequestedSegmentIdx && segmentIdx < s.lastRequestedSegmentIdx + 5)
      {
        assert Hit(st, key, segmentIdx);
        Hold(s);
        GetKeeps(st, key, segmentIdx, s, id, now);
        return s;
      }
      assert !Hit(st, key, segmentIdx);
      if s != null {
        LetGo(s);
      }
      assert View() == AfterFailedGet(st, key);
      var startAtSegmentIdx := if segmentIdx == INIT_SEGMENT_IDX then 0 else segmentIdx;
      if !creates {
        return null;
      }
      s := Create(key, id, startAtSegmentIdx, now);
      GetKeeps(st, key, segmentIdx, s, id, now);
    }

    /** The session with the given ID, if the table has one. */
    method GetPlaybackSessionByID(playbackSessionID: nat) returns (s: PlaybackSession?)
      requires Valid()
      modifies this, all
      ensures s == null ==> View() == old(View())
      ensures s == null ==> forall k :: k in sessions ==> sessions[k].playbackSessionID != playbackSessionID
      ensures s != null ==>
                && s in old(all) && s.playbackSessionID == playbackSessionID
                && Enabled(old(View()), GetByID(s)) && View() == Apply(old(View()), GetByID(s)) && Valid()
    {
      ghost var st := View();
      s := null;
      var rest := sessions.Keys;
      while rest != {}
        invariant s == null && rest <= sessions.Keys
        invariant forall k :: k in sessions && k !in rest ==> sessions[k].playbackSessionID != playbackSessionID
        decreases rest
      {
        var k :| k in rest;
        assert st.table[k] in st.info;
        if sessions[k].playbackSessionID == playbackSessionID {
          s := sessions[k];
          break;
        }
        rest := rest - {k};
      }
      if s == null {
        return;
      }
      StepKeeps(st, GetByID(s));
      Hold(s);
    }

    /** It deletes by key: the table loses whatever session the key is mapped to. */
    method RemovePlaybackSession(s: PlaybackSession)
      requires s in all
      modifies this`sessions, s
      ensures View() == AfterRemove(old(View()), s)
    {
      sessions := sessions - {s.key};
      LetGo(s);
    }

    /** A tick of the timer of a session: nothing happens until the session was left alone for too long,
        and then it is removed, mapped or not, and the timer stops.  The counts stay conserved exactly if
        the session was still mapped. */
    method TimerTick(s: PlaybackSession, now: int) returns (stopped: bool)
      requires Valid() && s in all
      modifies this`sessions, s
      ensures stopped <==> now - old(s.lastAccessed) > 1200
      ensures View() == if stopped then AfterRemove(old(View()), s) else old(View())
      ensures Valid() <==> !stopped || Mapped(old(View()), s)
    {
      stopped := now - s.lastAccessed > PLAYBACK_SESSION_TIMEOUT;
      if stopped {
        TimeoutKeepsExactlyIfMapped(View(), s);
        RemovePlaybackSession(s);
      }
    }

    /** A handler is done with its reference. */
    method HandlerReleases(s: PlaybackSession)
      requires s in all
      modifies this`held, s
      ensures View() == old(View()).(info := old(View()).info[s := Released(old(View()).info[s])],
                                     held := old(held) - multiset{s})
    {
      LetGo(s);
      ghost var info := View().info;
      held := held - multiset{s};
      assert View().info == info;
    }

    /** A handler polls for a request for `segmentIdx` on the session it holds. */
    method HandlerServes(s: PlaybackSession, segmentIdx: int, rounds: seq<map<int, MediaFile>>, now: int)
      returns (done: bool)
      requires s in all
      modifies s
      ensures done <==> ListedIn(rounds, old(s.lastServedSegmentIdx) + 1)
      ensures View() ==
                if done then old(View()).(info := old(View()).info[s := Answered(old(View()).info[s], segmentIdx, now)])
                        else old(View())
    {
      ghost var info := View().info;
      done := s.Poll(segmentIdx, rounds, now);
      assert View().info == if done then info[s := Answered(info[s], segmentIdx, now)] else info;
    }

    /** The loop of serveSegment on the session it got, and the release. */
    method ServeAndRelease(s: PlaybackSession, segmentIdx: int, rounds: seq<map<int, MediaFile>>, now: int,
                           ghost got: State<PlaybackSession>)
      returns (done: bool)
      requires s in all && got == View()
      modifies this`held, s
      ensures s in got.info && (done <==> ListedIn(rounds, got.info[s].served + 1))
      ensures View() == AfterRequest(got, s, done, segmentIdx, now)
    {
      assert got.info[s] == s.View();
      done := HandlerServes(s, segmentIdx, rounds, now);
      HandlerReleases(s);
    }

    /** A request for a media segment: a session is got, polled until the next segment is there, and
        released; RequestReturnsReference says what that keeps.  Without a session the source goes on to
        use the missing one. */
    method ServeSegment(key: Key, segmentIdx: int, creates: bool, id: nat, now: int, rounds: seq<map<int, MediaFile>>)
      returns (s: PlaybackSession?, done: bool, ghost got: State<PlaybackSession>)
      requires Valid()
      modifies this, all
      ensures s == null <==> !creates && !Hit(old(View()), key, segmentIdx)
      ensures s == null ==> !done && View() == AfterFailedGet(old(View()), key)
      ensures s != null ==> Got(old(View()), key, segmentIdx, s, id, now, got) && s in all && s in got.info
      ensures s != null ==> (done <==> ListedIn(rounds, got.info[s].served + 1))
      ensures s != null ==> View() == AfterRequest(got, s, done, segmentIdx, now) && Valid()
    {
      s := GetPlaybackSession(key, segmentIdx, creates, id, now);
      got, done := View(), false;
      if s == null {
        return;
      }
      done := ServeAndRelease(s, segmentIdx, rounds, now, got);
      UsedAndReleased(old(View()), key, segmentIdx, s, id, now, got, done);
    }
  }
}
