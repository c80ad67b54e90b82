/** metadata/managers/metadata/movies.go, GarbageCollectMovieIfRequired, run by any number of threads whose
    steps interleave.  Unlike the collector of episodes it takes no lock.  A thread may first delete a movie
    file, as the callers in metadata/managers/library.go do; each database call is one atomic step. */
module MovieThreads {
  import opened Catalog
  import GC = GarbageCollection

  type Tid = nat

  datatype Phase =
    | Unlink(file: Ref)  // delete the media file
    | Find               // load the movie
    | Check              // load its files
    | Delete             // delete the movie
    | Publish            // send the Deleted event
    | Done(announced: bool)

  datatype Thread = Thread(phase: Phase, row: Ref)

  datatype State = State(rows: Rows, log: seq<Event>, threads: map<Tid, Thread>)

  predicate Fresh(rows: Rows, th: Thread) {
    && th.row.table == Movies
    && (th.phase.Find? || (th.phase.Unlink? && th.phase.file in rows && th.phase.file.table == MovieFiles
                           && rows[th.phase.file].parent == Some(th.row)))
  }

  predicate Initial(s: State) {
    WellTyped(s.rows) && s.log == [] && forall t :: t in s.threads ==> Fresh(s.rows, s.threads[t])
  }

  predicate CanStep(s: State, t: Tid) {
    t in s.threads && !s.threads[t].phase.Done?
  }

  function Step(s: State, t: Tid): State
    requires CanStep(s, t)
  {
    var th := s.threads[t];
    match th.phase
    case Unlink(file) => s.(rows := s.rows - {file}, threads := s.threads[t := th.(phase := Find)])
    case Find => s.(threads := s.threads[t := th.(phase := if th.row in s.rows then Check else Done(false))])
    case Check => s.(threads := s.threads[t := th.(phase := if HasChild(s.rows, th.row) then Done(false) else Delete)])
    case Delete => s.(rows := s.rows - {th.row}, threads := s.threads[t := th.(phase := Publish)])
    case Publish => s.(log := s.log + [Deleted(th.row)], threads := s.threads[t := th.(phase := Done(true))])
  }

  ghost function After(init: State, schedule: seq<Tid>): Option<State> {
    if schedule == [] then Some(init)
    else
      var n := |schedule| - 1;
      match After(init, schedule[..n])
      case None => None
      case Some(s) => if CanStep(s, schedule[n]) then Some(Step(s, schedule[n])) else None
  }

  predicate AllDone(s: State) {
    forall t :: t in s.threads ==> s.threads[t].phase.Done?
  }

  // ----- the invariant -----

  /** What a thread relies on between its steps. */
  ghost predicate ThreadInv(before: Rows, rows: Rows, start: Thread, th: Thread) {
    && th.row == start.row && th.row.table == Movies
    && match th.phase
       case Unlink(file) => th == start
       case Find => true
       case Check => th.row in before
       case Delete => th.row in before && !HasChild(rows, th.row)
       case Publish => th.row in before && th.row !in rows && !HasChild(rows, th.row)
       case Done(_) => true
  }

  /** The thread has still to look at, or is about to delete, the childless movie `r`. */
  predicate Pending(th: Thread, r: Ref) {
    th.row == r && (th.phase.Find? || th.phase.Check? || th.phase.Delete?)
  }

  ghost predicate NothingLost(before: Rows, s: State) {
    forall r :: r in s.rows && r.table == Movies && HasChild(before, r) && !HasChild(s.rows, r) ==>
      exists t :: t in s.threads && Pending(s.threads[t], r)
  }

  predicate Announcing(th: Thread, r: Ref) {
    th.phase.Publish? && th.row == r
  }

  ghost predicate Announced(s: State, r: Ref) {
    exists t :: t in s.threads && Announcing(s.threads[t], r)
  }

  /** A movie is gone exactly if it has an event in the log or about to come. */
  ghost predicate EventsInv(before: Rows, s: State) {
    && (forall e :: e in s.log ==> e.Deleted? && e.row.table == Movies && e.row in before)
    && (forall r: Ref :: r.table == Movies && r in before ==>
        (r !in s.rows <==> Deleted(r) in s.log || Announced(s, r)))
  }

  ghost predicate UnlinkedBy(init: State, s: State, t: Tid, file: Ref) {
    t in init.threads && t in s.threads && init.threads[t].phase == Unlink(file) && !s.threads[t].phase.Unlink?
  }

  /** Movies and movie files aside nothing changes, and files go exactly by the threads started to delete them. */
  ghost predicate FilesInv(init: State, s: State) {
    && (forall r :: r in init.rows && r.table != Movies && r.table != MovieFiles ==> r in s.rows)
    && (forall r :: r in init.rows && r.table == MovieFiles ==>
        (r !in s.rows <==> exists t :: UnlinkedBy(init, s, t, r)))
  }

  ghost predicate CoreInv(init: State, s: State) {
    && WellTyped(init.rows) && Shrunk(init.rows, s.rows) && s.threads.Keys == init.threads.Keys
    && (forall t :: t in init.threads ==> Fresh(init.rows, init.threads[t]))
    && (forall t :: t in s.threads ==> ThreadInv(init.rows, s.rows, init.threads[t], s.threads[t]))
  }

  ghost predicate Inv(init: State, s: State) {
    && CoreInv(init, s)
    && NoneOrphaned(init.rows, s.rows)
    && NothingLost(init.rows, s)
    && EventsInv(init.rows, s)
    && FilesInv(init, s)
  }

  // ----- every step keeps it -----

  /** Steps only remove rows, so what has no child keeps having none. */
  lemma StepShrinks(s: State, t: Tid, r: Ref)
    requires CanStep(s, t)
    ensures Shrunk(s.rows, Step(s, t).rows)
    ensures HasChild(Step(s, t).rows, r) ==> HasChild(s.rows, r)
  {
    if HasChild(Step(s, t).rows, r) {
      var c :| c in Step(s, t).rows && Step(s, t).rows[c].parent == Some(r);
      assert s.rows[c].parent == Some(r);
    }
  }

  lemma StepThread(init: State, s: State, t: Tid, u: Tid)
    requires CoreInv(init, s) && CanStep(s, t) && u in s.threads
    ensures u in Step(s, t).threads && ThreadInv(init.rows, Step(s, t).rows, init.threads[u], Step(s, t).threads[u])
  {
    assert ThreadInv(init.rows, s.rows, init.threads[t], s.threads[t]);
    assert ThreadInv(init.rows, s.rows, init.threads[u], s.threads[u]);
    StepShrinks(s, t, s.threads[u].row);
  }

  lemma StepCore(init: State, s: State, t: Tid)
    requires CoreInv(init, s) && CanStep(s, t)
    ensures CoreInv(init, Step(s, t))
  {
    StepShrinks(s, t, s.threads[t].row);
    forall u | u in s.threads
      ensures ThreadInv(init.rows, Step(s, t).rows, init.threads[u], Step(s, t).threads[u])
    {
      StepThread(init, s, t, u);
    }
    assert Step(s, t).threads.Keys == s.threads.Keys;
  }

  lemma StepOrphans(init: State, s: State, t: Tid)
    requires CoreInv(init, s) && NoneOrphaned(init.rows, s.rows) && CanStep(s, t)
    ensures NoneOrphaned(init.rows, Step(s, t).rows)
  {
    var s' := Step(s, t);
    assert ThreadInv(init.rows, s.rows, init.threads[t], s.threads[t]) && Fresh(init.rows, init.threads[t]);
    forall r | r in s'.rows && s'.rows[r].parent.Some? && s'.rows[r].parent.value in init.rows
      ensures s'.rows[r].parent.value in s'.rows
    {
      assert init.rows[r].parent == s.rows[r].parent;
    }
  }

  lemma StepLosesNothing(init: State, s: State, t: Tid)
    requires CoreInv(init, s) && NothingLost(init.rows, s) && CanStep(s, t)
    ensures NothingLost(init.rows, Step(s, t))
  {
    var s', th := Step(s, t), s.threads[t];
    assert ThreadInv(init.rows, s.rows, init.threads[t], th) && Fresh(init.rows, init.threads[t]);
    forall r | r in s'.rows && r.table == Movies && HasChild(init.rows, r) && !HasChild(s'.rows, r)
      ensures exists u :: u in s'.threads && Pending(s'.threads[u], r)
    {
      if HasChild(s.rows, r) {
        match th.phase {
          case Unlink(file) => GC.ChildrenWithout(s.rows, file, r);
          case Delete => GC.ChildrenWithout(s.rows, th.row, r);
          case _ =>
        }
        assert Pending(s'.threads[t], r);
      } else {
        var u :| u in s.threads && Pending(s.threads[u], r);
        assert Pending(s'.threads[u], r);
      }
    }
  }

  lemma StepAnnounces(s: State, t: Tid, r: Ref)
    requires CanStep(s, t)
    ensures var th := s.threads[t];
            && (Announced(s, r) ==> Announced(Step(s, t), r) || Deleted(r) in Step(s, t).log)
            && (Announced(Step(s, t), r) ==> Announced(s, r) || (th.phase.Delete? && th.row == r))
            && (th.phase.Delete? && th.row == r ==> Announced(Step(s, t), r))
  {
    var s', th := Step(s, t), s.threads[t];
    if th.phase.Delete? && th.row == r {
      assert Announcing(s'.threads[t], r);
    }
    if u :| u in s.threads && u != t && Announcing(s.threads[u], r) {
      assert u in s'.threads && Announcing(s'.threads[u], r);
    } else if Announced(s, r) {
      assert th.phase.Publish? && th.row == r;
      assert s'.log[|s.log|] == Deleted(r);
    }
    if Announced(s', r) {
      var u :| u in s'.threads && Announcing(s'.threads[u], r);
      assert u in s.threads;
    }
  }

  lemma StepEvents(init: State, s: State, t: Tid)
    requires CoreInv(init, s) && EventsInv(init.rows, s) && CanStep(s, t)
    ensures EventsInv(init.rows, Step(s, t))
  {
    var s', th := Step(s, t), s.threads[t];
    assert ThreadInv(init.rows, s.rows, init.threads[t], th) && Fresh(init.rows, init.threads[t]);
    forall r: Ref | r.table == Movies && r in init.rows
      ensures r !in s'.rows <==> Deleted(r) in s'.log || Announced(s', r)
    {
      StepAnnounces(s, t, r);
    }
  }

  lemma StepUnlinkedBy(init: State, s: State, t: Tid, u: Tid, file: Ref)
    requires CoreInv(init, s) && CanStep(s, t)
    ensures UnlinkedBy(init, Step(s, t), u, file) <==>
              UnlinkedBy(init, s, u, file) || (u == t && s.threads[t].phase == Unlink(file))
  {
    assert ThreadInv(init.rows, s.rows, init.threads[t], s.threads[t]);
    assert u != t && u in s.threads ==> Step(s, t).threads[u] == s.threads[u];
  }

  lemma StepFiles(init: State, s: State, t: Tid)
    requires CoreInv(init, s) && FilesInv(init, s) && CanStep(s, t)
    ensures FilesInv(init, Step(s, t))
  {
    var s', th := Step(s, t), s.threads[t];
    assert ThreadInv(init.rows, s.rows, init.threads[t], th) && Fresh(init.rows, init.threads[t]);
    forall r | r in init.rows && r.table == MovieFiles
      ensures r !in s'.rows <==> exists u :: UnlinkedBy(init, s', u, r)
    {
      forall u ensures UnlinkedBy(init, s', u, r) <==> UnlinkedBy(init, s, u, r) || (u == t && th.phase == Unlink(r)) {
        StepUnlinkedBy(init, s, t, u, r);
      }
      if u :| UnlinkedBy(init, s, u, r) {
        assert UnlinkedBy(init, s', u, r);
      } else if th.phase == Unlink(r) {
        assert UnlinkedBy(init, s', t, r);
      }
    }
  }

  lemma {:induction false} Reachable(init: State, schedule: seq<Tid>)
    requires Initial(init) && After(init, schedule).Some?
    ensures Inv(init, After(init, schedule).value)
  {
    if schedule != [] {
      var n := |schedule| - 1;
      var s, t := After(init, schedule[..n]).value, schedule[n];
      Reachable(init, schedule[..n]);
      StepCore(init, s, t);
      StepOrphans(init, s, t);
      StepLosesNothing(init, s, t);
      StepEvents(init, s, t);
      StepFiles(init, s, t);
    }
  }

  // ----- what holds without locks -----

  function UnlinkedFiles(init: State): set<Ref> {
    set t | t in init.threads && init.threads[t].phase.Unlink? :: init.threads[t].phase.file
  }

  /** When all are done, no movie that had files is left without any, and a movie has an event exactly if it
      is gone. */
  lemma NothingLeftOver(init: State, schedule: seq<Tid>, r: Ref)
    requires Initial(init) && After(init, schedule).Some? && AllDone(After(init, schedule).value)
    requires r in init.rows && r.table == Movies
    ensures var s := After(init, schedule).value;
            && (r in s.rows && HasChild(init.rows, r) ==> HasChild(s.rows, r))
            && (Deleted(r) in s.log <==> r !in s.rows)
  {
    Reachable(init, schedule);
  }

  lemma StillTight(init: State, s: State)
    requires Inv(init, s) && AllDone(s) && Tight(init.rows)
    ensures Tight(s.rows)
  {
    forall r | r in s.rows && !IsFile(r) ensures HasChild(s.rows, r) {
      if r.table != Movies {
        var c :| c in init.rows && init.rows[c].parent == Some(r);
        assert c.table != Movies && c.table != MovieFiles;
        assert c in s.rows && s.rows[c].parent == Some(r);
      }
    }
  }

  /** From tight tables every finished interleaving ends in the ancestry of the files nobody deleted. */
  lemma OutcomeIsAncestry(init: State, schedule: seq<Tid>)
    requires Initial(init) && Tight(init.rows)
    requires After(init, schedule).Some? && AllDone(After(init, schedule).value)
    ensures After(init, schedule).value.rows == Ancestry(init.rows, FilesOf(init.rows) - UnlinkedFiles(init))
  {
    Reachable(init, schedule);
    var s := After(init, schedule).value;
    StillTight(init, s);
    TightIsAncestry(init.rows, s.rows);
    forall r | r in init.rows && IsFile(r) ensures r !in s.rows <==> r in UnlinkedFiles(init) {
      FileIsGone(init, s, r);
    }
    assert FilesOf(s.rows) == FilesOf(init.rows) - UnlinkedFiles(init);
  }

  lemma FileIsGone(init: State, s: State, file: Ref)
    requires Inv(init, s) && AllDone(s) && file in init.rows && IsFile(file)
    ensures file !in s.rows <==> file in UnlinkedFiles(init)
  {
    if file in UnlinkedFiles(init) {
      var t :| t in init.threads && init.threads[t].phase.Unlink? && init.threads[t].phase.file == file;
      assert Fresh(init.rows, init.threads[t]) && UnlinkedBy(init, s, t, file);
    }
    if file.table == MovieFiles && file !in s.rows {
      var t :| UnlinkedBy(init, s, t, file);
      assert init.threads[t].phase.file in UnlinkedFiles(init);
    }
  }

  // ----- what does not: one event per movie -----

  /** The threads that have announced the movie. */
  function Announcers(s: State, m: Ref): set<Tid> {
    set t | t in s.threads && s.threads[t] == Thread(Done(true), m)
  }

  lemma StepAnnouncers(s: State, t: Tid, m: Ref)
    requires CanStep(s, t)
    ensures Announcers(Step(s, t), m) == Announcers(s, m) + if Announcing(s.threads[t], m) then {t} else {}
    ensures t !in Announcers(s, m)
  {
    var s' := Step(s, t);
    assert forall u :: u in s.threads && u != t ==> s'.threads[u] == s.threads[u];
  }

  lemma StepAnnouncesOnce(s: State, t: Tid, m: Ref)
    requires CanStep(s, t) && GC.Count(s.log, Deleted(m)) == |Announcers(s, m)|
    ensures GC.Count(Step(s, t).log, Deleted(m)) == |Announcers(Step(s, t), m)|
  {
    StepAnnouncers(s, t, m);
    if s.threads[t].phase.Publish? {
      GC.CountAppend(s.log, Deleted(s.threads[t].row), Deleted(m));
    }
  }

  lemma {:induction false} OneEventPerAnnouncer(init: State, schedule: seq<Tid>, m: Ref)
    requires Initial(init) && After(init, schedule).Some?
    ensures GC.Count(After(init, schedule).value.log, Deleted(m)) == |Announcers(After(init, schedule).value, m)|
  {
    if schedule == [] {
      forall t | t in init.threads ensures !init.threads[t].phase.Done? {
        assert Fresh(init.rows, init.threads[t]);
      }
      assert Announcers(init, m) == {};
    } else {
      var n := |schedule| - 1;
      var s, t := After(init, schedule[..n]).value, schedule[n];
      OneEventPerAnnouncer(init, schedule[..n], m);
      StepAnnouncesOnce(s, t, m);
    }
  }

  ghost predicate TwoCollectors(init: State, m: Ref) {
    exists t, u ::
        t in init.threads && u in init.threads && t != u && init.threads[t].row == m && init.threads[u].row == m
  }

  ghost predicate AllFilesUnlinked(init: State, m: Ref) {
    forall f :: f in init.rows && init.rows[f].parent == Some(m) ==> f in UnlinkedFiles(init)
  }

  lemma TwoEventsNeedTwo(init: State, schedule: seq<Tid>, m: Ref)
    requires Initial(init) && After(init, schedule).Some? && m.table == Movies
    requires GC.Count(After(init, schedule).value.log, Deleted(m)) >= 2
    ensures m in init.rows && TwoCollectors(init, m) && AllFilesUnlinked(init, m)
  {
    var s := After(init, schedule).value;
    Reachable(init, schedule);
    OneEventPerAnnouncer(init, schedule, m);
    var t :| t in Announcers(s, m);
    assert |Announcers(s, m) - {t}| >= 1;
    var u :| u in Announcers(s, m) - {t};
    assert ThreadInv(init.rows, s.rows, init.threads[t], s.threads[t]);
    assert ThreadInv(init.rows, s.rows, init.threads[u], s.threads[u]);
    assert Deleted(m) in s.log;
    forall f | f in init.rows && init.rows[f].parent == Some(m) ensures f in UnlinkedFiles(init) {
      assert f.table == MovieFiles && f !in s.rows;
      var w :| UnlinkedBy(init, s, w, f);
      assert init.threads[w].phase.file in UnlinkedFiles(init);
    }
  }

  lemma Extend(init: State, schedule: seq<Tid>, t: Tid)
    requires After(init, schedule).Some? && CanStep(After(init, schedule).value, t)
    ensures After(init, schedule + [t]) == Some(Step(After(init, schedule).value, t))
  {
    assert (schedule + [t])[..|schedule|] == schedule;
  }

  /** The collectors of the movie that have not yet deleted their file. */
  function Waiting(s: State, m: Ref): set<Tid> {
    set t | t in s.threads && s.threads[t].row == m && s.threads[t].phase.Unlink?
  }

  /** Nothing has happened but that some collectors of the movie deleted their files. */
  ghost predicate OnlyUnlinked(init: State, s: State, m: Ref) {
    && s.threads.Keys == init.threads.Keys && m in s.rows
    && (forall t :: t in s.threads && init.threads[t].row == m ==>
          s.threads[t] == init.threads[t] || s.threads[t] == Thread(Find, m))
    && (forall t :: t in s.threads && init.threads[t].row == m && init.threads[t].phase.Unlink? ==>
          s.threads[t] == init.threads[t] || init.threads[t].phase.file !in s.rows)
  }

  lemma OneMoreUnlinked(init: State, s: State, m: Ref, t: Tid)
    requires Initial(init) && OnlyUnlinked(init, s, m) && m.table == Movies && t in Waiting(s, m)
    requires forall u :: u in s.threads ==> s.threads[u].row == init.threads[u].row
    ensures OnlyUnlinked(init, Step(s, t), m) && Waiting(Step(s, t), m) == Waiting(s, m) - {t}
  {
    assert Fresh(init.rows, init.threads[t]);
  }

  /** All collectors of the movie delete their files before any of them goes on. */
  lemma {:induction false} UnlinkAll(init: State, schedule: seq<Tid>, m: Ref) returns (longer: seq<Tid>)
    requires Initial(init) && After(init, schedule).Some? && m.table == Movies
    requires OnlyUnlinked(init, After(init, schedule).value, m)
    ensures After(init, longer).Some? && OnlyUnlinked(init, After(init, longer).value, m)
    ensures Waiting(After(init, longer).value, m) == {}
    decreases |Waiting(After(init, schedule).value, m)|
  {
    var s := After(init, schedule).value;
    if t :| t in Waiting(s, m) {
      Reachable(init, schedule);
      forall u | u in s.threads ensures s.threads[u].row == init.threads[u].row {
        assert ThreadInv(init.rows, s.rows, init.threads[u], s.threads[u]);
      }
      OneMoreUnlinked(init, s, m, t);
      Extend(init, schedule, t);
      longer := UnlinkAll(init, schedule + [t], m);
    } else {
      longer := schedule;
    }
  }

  lemma NoFileLeft(init: State, schedule: seq<Tid>, m: Ref)
    requires Initial(init) && After(init, schedule).Some? && m.table == Movies && AllFilesUnlinked(init, m)
    requires OnlyUnlinked(init, After(init, schedule).value, m) && Waiting(After(init, schedule).value, m) == {}
    ensures !HasChild(After(init, schedule).value.rows, m)
  {
    var s := After(init, schedule).value;
    Reachable(init, schedule);
    forall f | f in init.rows && init.rows[f].parent == Some(m) ensures f !in s.rows {
      var t :| t in init.threads && init.threads[t].phase.Unlink? && init.threads[t].phase.file == f;
      assert Fresh(init.rows, init.threads[t]);
      assert t !in Waiting(s, m);
    }
  }

  lemma Twice(init: State, schedule: seq<Tid>, t: Tid, u: Tid) returns (longer: seq<Tid>)
    requires After(init, schedule).Some? && t != u
    requires CanStep(After(init, schedule).value, t) && CanStep(After(init, schedule).value, u)
    ensures var s := After(init, schedule).value;
            CanStep(Step(s, t), u) && After(init, longer) == Some(Step(Step(s, t), u))
  {
    Extend(init, schedule, t);
    Extend(init, schedule + [t], u);
    longer := schedule + [t] + [u];
  }

  ghost predicate BothAt(s: State, t: Tid, u: Tid, m: Ref, phase: Phase) {
    t in s.threads && u in s.threads && s.threads[t] == Thread(phase, m) && s.threads[u] == Thread(phase, m)
  }

  /** Two collectors that find the movie without files at the same time both delete and announce it. */
  lemma BothAnnounce(init: State, schedule: seq<Tid>, t: Tid, u: Tid, m: Ref) returns (longer: seq<Tid>)
    requires After(init, schedule).Some? && t != u
    requires BothAt(After(init, schedule).value, t, u, m, Find)
    requires m in After(init, schedule).value.rows && !HasChild(After(init, schedule).value.rows, m)
    ensures After(init, longer).Some? && GC.Count(After(init, longer).value.log, Deleted(m)) >= 2
  {
    var s := After(init, schedule).value;
    longer := Twice(init, schedule, t, u);
    var s1 := After(init, longer).value;
    assert BothAt(s1, t, u, m, Check) && s1.rows == s.rows;
    longer := Twice(init, longer, t, u);
    var s2 := After(init, longer).value;
    assert BothAt(s2, t, u, m, Delete);
    longer := Twice(init, longer, t, u);
    var s3 := After(init, longer).value;
    assert BothAt(s3, t, u, m, Publish);
    longer := Twice(init, longer, t, u);
    GC.CountAppend(s3.log, Deleted(m), Deleted(m));
    GC.CountAppend(s3.log + [Deleted(m)], Deleted(m), Deleted(m));
  }

  lemma TwoEventsHappen(init: State, m: Ref) returns (schedule: seq<Tid>)
    requires Initial(init) && m.table == Movies && m in init.rows && TwoCollectors(init, m) && AllFilesUnlinked(init, m)
    ensures After(init, schedule).Some? && GC.Count(After(init, schedule).value.log, Deleted(m)) >= 2
  {
    var t, u :| t in init.threads && u in init.threads && t != u && init.threads[t].row == m
        && init.threads[u].row == m;
    schedule := UnlinkAll(init, [], m);
    NoFileLeft(init, schedule, m);
    var s := After(init, schedule).value;
    assert t !in Waiting(s, m) && u !in Waiting(s, m);
    assert Fresh(init.rows, init.threads[t]) && Fresh(init.rows, init.threads[u]);
    assert BothAt(s, t, u, m, Find);
    schedule := BothAnnounce(init, schedule, t, u, m);
  }

  /** A movie can be announced as deleted more than once exactly if it is there, two collectors are called
      on it, and each of its files has a thread that deletes it. */
  lemma TwiceAnnouncedExactly(init: State, m: Ref)
    requires Initial(init) && m.table == Movies
    ensures (exists schedule ::
              After(init, schedule).Some? && GC.Count(After(init, schedule).value.log, Deleted(m)) >= 2)
            <==> m in init.rows && TwoCollectors(init, m) && AllFilesUnlinked(init, m)
  {
    if m in init.rows && TwoCollectors(init, m) && AllFilesUnlinked(init, m) {
      var schedule := TwoEventsHappen(init, m);
    }
    if schedule :| After(init, schedule).Some? && GC.Count(After(init, schedule).value.log, Deleted(m)) >= 2 {
      TwoEventsNeedTwo(init, schedule, m);
    }
  }

  /** For example, two collectors of one movie without files. */
  lemma TwoEventsExample() returns (schedule: seq<Tid>)
    ensures var m := Ref(Movies, 1);
            var init := State(map[m := Row(None, 7, 0)], [], map[0 := Thread(Find, m), 1 := Thread(Find, m)]);
            Initial(init) && After(init, schedule).Some? && GC.Count(After(init, schedule).value.log, Deleted(m)) >= 2
  {
    var m := Ref(Movies, 1);
    var init := State(map[m := Row(None, 7, 0)], [], map[0 := Thread(Find, m), 1 := Thread(Find, m)]);
    assert init.threads[0].row == m && init.threads[1].row == m;
    schedule := TwoEventsHappen(init, m);
  }
}
