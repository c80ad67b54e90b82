/** metadata/managers/metadata/series.go, GarbageCollectEpisodeIfRequired, run by any number of threads
    whose steps interleave.  A thread may first delete a media file, as the callers in
    metadata/managers/library.go do.  Each database call and each lock operation is one atomic step.
    The code runs the same four actions (lock, find, delete, publish) on the episode, its season and its
    series; a thread's `row` says which of the three it is at. */
module CollectorThreads {
  import opened Catalog
  import GC = GarbageCollection
  import Totals

  type Tid = nat

  datatype Phase =
    | Unlink(file: Ref)   // delete the media file
    | Lock                // wait for the row's lock
    | Find                // load the row with its children
    | Delete              // delete the row
    | Publish             // send the Deleted event
    | Unlock              // run the deferred unlocks, last acquired first
    | Done

  /** `parent` is the parent of `row` as loaded by the find. */
  datatype Thread = Thread(phase: Phase, row: Ref, parent: Option<Ref>, held: seq<Ref>)

  datatype State = State(rows: Rows, locks: map<Ref, Tid>, log: seq<Event>, threads: map<Tid, Thread>)

  /** A call of the collector on an episode, or the deletion of a file followed by such a call. */
  predicate Fresh(rows: Rows, th: Thread) {
    && th.held == [] && th.parent == None && th.row.table == Episodes
    && (th.phase == Lock || (th.phase.Unlink? && th.phase.file in rows && th.phase.file.table == EpisodeFiles
                             && rows[th.phase.file].parent == Some(th.row)))
  }

  predicate Initial(s: State) {
    && WellTyped(s.rows) && s.locks == map[] && s.log == []
    && forall t :: t in s.threads ==> Fresh(s.rows, s.threads[t])
  }

  // ----- steps -----

  predicate CanStep(s: State, t: Tid) {
    t in s.threads && match s.threads[t].phase
                      case Lock => s.threads[t].row !in s.locks
                      case Done => false
                      case _ => true
  }

  function Step(s: State, t: Tid): State
    requires CanStep(s, t)
  {
    var th := s.threads[t];
    match th.phase
    case Unlink(file) =>
      s.(rows := s.rows - {file}, threads := s.threads[t := th.(phase := Lock)])
    case Lock =>
      s.(locks := s.locks[th.row := t], threads := s.threads[t := th.(phase := Find, held := th.held + [th.row])])
    case Find =>
      if th.row !in s.rows || HasChild(s.rows, th.row) then
        s.(threads := s.threads[t := th.(phase := Unlock)])
      else
        s.(threads := s.threads[t := th.(phase := Delete, parent := s.rows[th.row].parent)])
    case Delete =>
      s.(rows := s.rows - {th.row}, threads := s.threads[t := th.(phase := Publish)])
    case Publish =>
      s.(log := s.log + [Deleted(th.row)],
         threads := s.threads[t := match th.parent
                                   case Some(p) => th.(phase := Lock, row := p)
                                   case None => th.(phase := Unlock)])
    case Unlock =>
      if th.held == [] then
        s.(threads := s.threads[t := th.(phase := Done)])
      else
        var n := |th.held| - 1;
        s.(locks := s.locks - {th.held[n]}, threads := s.threads[t := th.(held := th.held[..n])])
  }

  /** The state after a schedule (which thread steps when), or None if some step is not possible. */
  ghost function After(init: State, schedule: seq<Tid>): Option<State> {
    if schedule == [] then Some(init)
    else
      var n := |schedule| - 1;
      match After(init, schedule[..n])
      case None => None
      case Some(s) => if CanStep(s, schedule[n]) then Some(Step(s, schedule[n])) else None
  }

  predicate AllDone(s: State) {
    forall t :: t in s.threads ==> s.threads[t].phase.Done?
  }

  // ----- the invariant -----

  /** A thread holds the lock of its row from the acquisition to the event. */
  predicate Working(th: Thread) {
    th.phase.Find? || th.phase.Delete? || th.phase.Publish?
  }

  /** The locks a thread holds are those it lists, in increasing level and below the next row. */
  ghost predicate Holds(locks: map<Ref, Tid>, t: Tid, th: Thread) {
    && (forall r :: r in th.held <==> r in locks && locks[r] == t)
    && (forall i, j :: 0 <= i < j < |th.held| ==> Level(th.held[i].table) < Level(th.held[j].table))
    && (th.phase.Lock? || th.phase.Unlink? ==> forall r :: r in th.held ==> Level(r.table) < Level(th.row.table))
    && (Working(th) ==> th.held != [] && th.held[|th.held| - 1] == th.row)
    && (th.phase.Done? ==> th.held == [])
  }

  ghost predicate LocksInv(s: State) {
    && (forall r :: r in s.locks ==> s.locks[r] in s.threads)
    && (forall t :: t in s.threads ==> Holds(s.locks, t, s.threads[t]))
  }

  /** What a thread relies on between its steps. */
  ghost predicate ThreadInv(before: Rows, rows: Rows, th: Thread) {
    && !IsFile(th.row)
    && match th.phase
       case Unlink(file) => file in before && IsFile(file) && before[file].parent == Some(th.row)
       case Delete => th.row in before && th.row in rows && !HasChild(rows, th.row)
           && th.parent == before[th.row].parent
       case Publish => th.row in before && th.row !in rows && th.parent == before[th.row].parent
       case _ => true
  }

  /** The thread has still to look at, or is about to delete, the childless row `r`. */
  predicate Pending(th: Thread, r: Ref) {
    match th.phase
    case Lock | Find | Delete => th.row == r
    case Publish => th.parent == Some(r)
    case _ => false
  }

  ghost predicate NothingLost(before: Rows, s: State) {
    forall r :: r in s.rows && HasChild(before, r) && !HasChild(s.rows, r) ==>
      exists t :: t in s.threads && Pending(s.threads[t], r)
  }

  /** The thread is between the deletion of `r` and its event. */
  predicate Announcing(th: Thread, r: Ref) {
    th.phase.Publish? && th.row == r
  }

  ghost predicate Announced(s: State, r: Ref) {
    exists t :: t in s.threads && Announcing(s.threads[t], r)
  }

  /** A removed row has its one event in the log, or a thread about to put it there. */
  ghost predicate Balanced(before: Rows, s: State, r: Ref) {
    GC.Count(s.log, Deleted(r)) + (if Announced(s, r) then 1 else 0)
    == if r in before && r !in s.rows && !IsFile(r) then 1 else 0
  }

  ghost predicate EventsInv(before: Rows, s: State) {
    && (forall e :: e in s.log ==> e.Deleted?)
    && (forall r :: Balanced(before, s, r))
  }

  ghost predicate Unlinked(init: State, s: State, file: Ref)
    requires s.threads.Keys == init.threads.Keys
  {
    exists t :: t in s.threads && init.threads[t].phase == Unlink(file) && !s.threads[t].phase.Unlink?
  }

  /** Files go away exactly by the threads that were started to delete them. */
  ghost predicate FilesInv(init: State, s: State) {
    && s.threads.Keys == init.threads.Keys
    && (forall t :: t in s.threads && s.threads[t].phase.Unlink? ==> s.threads[t] == init.threads[t])
    && (forall r :: r in init.rows && IsFile(r) ==>
          (r !in s.rows <==> Unlinked(init, s, r)))
  }

  /** The part of the invariant that steps rely on. */
  ghost predicate CoreInv(before: Rows, s: State) {
    && WellTyped(before)
    && Shrunk(before, s.rows)
    && LocksInv(s)
    && (forall t :: t in s.threads ==> ThreadInv(before, s.rows, s.threads[t]))
  }

  ghost predicate Inv(init: State, s: State) {
    && CoreInv(init.rows, s)
    && NoneOrphaned(init.rows, s.rows)
    && NothingLost(init.rows, s)
    && EventsInv(init.rows, s)
    && FilesInv(init, s)
  }

  lemma InitialInv(s: State)
    requires Initial(s)
    ensures Inv(s, s)
  {
  }

  // ----- every step keeps it -----

  lemma OneWorkerPerRow(s: State, t: Tid, u: Tid)
    requires LocksInv(s) && t in s.threads && u in s.threads
    requires Working(s.threads[t]) && Working(s.threads[u]) && s.threads[t].row == s.threads[u].row
    ensures t == u
  {
    assert Holds(s.locks, t, s.threads[t]) && Holds(s.locks, u, s.threads[u]);
    assert s.threads[t].row in s.threads[t].held && s.threads[u].row in s.threads[u].held;
  }

  lemma StepShrinks(init: State, s: State, t: Tid)
    requires Shrunk(init.rows, s.rows) && CanStep(s, t)
    ensures Shrunk(s.rows, Step(s, t).rows) && Shrunk(init.rows, Step(s, t).rows)
  {
  }

  lemma Acquire(locks: map<Ref, Tid>, t: Tid, th: Thread)
    requires Holds(locks, t, th) && th.phase.Lock? && th.row !in locks
    ensures Holds(locks[th.row := t], t, th.(phase := Find, held := th.held + [th.row]))
  {
  }

  lemma Release(locks: map<Ref, Tid>, t: Tid, th: Thread)
    requires Holds(locks, t, th) && th.phase.Unlock? && th.held != []
    ensures Holds(locks - {th.held[|th.held| - 1]}, t, th.(held := th.held[..|th.held| - 1]))
  {
    var n := |th.held| - 1;
    assert th.held == th.held[..n] + [th.held[n]];
    assert th.held[n] !in th.held[..n];
  }

  lemma Climb(locks: map<Ref, Tid>, t: Tid, th: Thread, p: Ref)
    requires Holds(locks, t, th) && th.phase.Publish? && Level(p.table) > Level(th.row.table)
    ensures Holds(locks, t, th.(phase := Lock, row := p))
  {
    var n := |th.held| - 1;
    forall r | r in th.held ensures Level(r.table) < Level(p.table) {
      var i :| 0 <= i <= n && th.held[i] == r;
    }
  }

  lemma StepHolds(s: State, t: Tid)
    requires CanStep(s, t) && Holds(s.locks, t, s.threads[t])
    requires s.threads[t].phase.Publish? && s.threads[t].parent.Some? ==>
               Level(s.threads[t].parent.value.table) > Level(s.threads[t].row.table)
    ensures Holds(Step(s, t).locks, t, Step(s, t).threads[t])
  {
    var th := s.threads[t];
    if th.phase.Lock? {
      Acquire(s.locks, t, th);
    } else if th.phase.Unlock? && th.held != [] {
      Release(s.locks, t, th);
    } else if th.phase.Publish? && th.parent.Some? {
      Climb(s.locks, t, th, th.parent.value);
    }
  }

  lemma StepHoldsOther(s: State, t: Tid, u: Tid)
    requires CanStep(s, t) && u in s.threads && u != t
    requires Holds(s.locks, t, s.threads[t]) && Holds(s.locks, u, s.threads[u])
    ensures Holds(Step(s, t).locks, u, s.threads[u]) && Step(s, t).threads[u] == s.threads[u]
  {
    var th := s.threads[t];
    if th.phase.Unlock? && th.held != [] {
      assert th.held[|th.held| - 1] in th.held;
    }
  }

  lemma StepHolders(s: State, t: Tid)
    requires CanStep(s, t) && forall r :: r in s.locks ==> s.locks[r] in s.threads
    ensures Step(s, t).threads.Keys == s.threads.Keys
    ensures forall r :: r in Step(s, t).locks ==> Step(s, t).locks[r] in s.threads
  {
  }

  lemma StepLocks(s: State, t: Tid)
    requires LocksInv(s) && CanStep(s, t)
    requires s.threads[t].phase.Publish? && s.threads[t].parent.Some? ==>
               Level(s.threads[t].parent.value.table) > Level(s.threads[t].row.table)
    ensures LocksInv(Step(s, t))
  {
    var s' := Step(s, t);
    StepHolders(s, t);
    assert Holds(s.locks, t, s.threads[t]);
    forall u | u in s'.threads ensures Holds(s'.locks, u, s'.threads[u]) {
      if u == t {
        StepHolds(s, t);
      } else {
        assert Holds(s.locks, u, s.threads[u]);
        StepHoldsOther(s, t, u);
      }
    }
  }

  // ----- threads, orphans, pending checks -----

  lemma StepThreadSelf(init: State, s: State, t: Tid)
    requires WellTyped(init.rows) && Shrunk(init.rows, s.rows)
    requires CanStep(s, t) && ThreadInv(init.rows, s.rows, s.threads[t])
    ensures ThreadInv(init.rows, Step(s, t).rows, Step(s, t).threads[t])
  {
  }

  lemma StepThreadOther(init: State, s: State, t: Tid, u: Tid)
    requires LocksInv(s) && CanStep(s, t) && u in s.threads && u != t
    requires ThreadInv(init.rows, s.rows, s.threads[t]) && ThreadInv(init.rows, s.rows, s.threads[u])
    ensures ThreadInv(init.rows, Step(s, t).rows, s.threads[u])
  {
    var th, other := s.threads[t], s.threads[u];
    if other.phase.Delete? {
      match th.phase
      case Unlink(file) => GC.ChildrenWithout(s.rows, file, other.row);
      case Delete =>
        if th.row == other.row { OneWorkerPerRow(s, t, u); }
        GC.ChildrenWithout(s.rows, th.row, other.row);
      case _ =>
    }
  }

  lemma StepOrphans(init: State, s: State, t: Tid)
    requires WellTyped(init.rows) && Shrunk(init.rows, s.rows) && NoneOrphaned(init.rows, s.rows)
    requires CanStep(s, t) && ThreadInv(init.rows, s.rows, s.threads[t])
    ensures NoneOrphaned(init.rows, Step(s, t).rows)
  {
    var s' := Step(s, t);
    forall r | r in s'.rows && s'.rows[r].parent.Some? && s'.rows[r].parent.value in init.rows
      ensures s'.rows[r].parent.value in s'.rows
    {
      assert init.rows[r].parent == s.rows[r].parent;
    }
  }

  lemma StepLosesNothing(init: State, s: State, t: Tid)
    requires Shrunk(init.rows, s.rows) && NothingLost(init.rows, s)
    requires CanStep(s, t) && ThreadInv(init.rows, s.rows, s.threads[t])
    ensures NothingLost(init.rows, Step(s, t))
  {
    var s', th := Step(s, t), s.threads[t];
    forall r | r in s'.rows && HasChild(init.rows, r) && !HasChild(s'.rows, r)
      ensures exists u :: u in s'.threads && Pending(s'.threads[u], r)
    {
      match th.phase {
        case Unlink(file) => GC.ChildrenWithout(s.rows, file, r);
        case Delete => GC.ChildrenWithout(s.rows, th.row, r);
        case _ =>
      }
      if HasChild(s.rows, r) {
        assert Pending(s'.threads[t], r);
      } else {
        var u :| u in s.threads && Pending(s.threads[u], r);
        assert Pending(s'.threads[u], r);
      }
    }
  }

  // ----- events -----

  /** What a step of `t` does to the announcement of `r` by the thread `u`. */
  lemma StepAnnouncing(s: State, t: Tid, u: Tid, r: Ref)
    requires CanStep(s, t) && u in s.threads
    ensures u in Step(s, t).threads
    ensures Announcing(Step(s, t).threads[u], r) <==>
              if u == t then s.threads[t].phase.Delete? && s.threads[t].row == r else Announcing(s.threads[u], r)
  {
  }

  lemma DeleteAnnounces(init: State, s: State, t: Tid)
    requires CanStep(s, t) && s.threads[t].phase.Delete?
    requires forall u :: u in s.threads ==> ThreadInv(init.rows, s.rows, s.threads[u])
    ensures !Announced(s, s.threads[t].row) && Announced(Step(s, t), s.threads[t].row)
  {
    assert Announcing(Step(s, t).threads[t], s.threads[t].row);
  }

  lemma PublishAnnounced(s: State, t: Tid)
    requires LocksInv(s) && CanStep(s, t) && s.threads[t].phase.Publish?
    ensures Announced(s, s.threads[t].row) && !Announced(Step(s, t), s.threads[t].row)
  {
    var s', r := Step(s, t), s.threads[t].row;
    assert Announcing(s.threads[t], r);
    if Announced(s', r) {
      var u :| u in s'.threads && Announcing(s'.threads[u], r);
      StepAnnouncing(s, t, u, r);
      OneWorkerPerRow(s, t, u);
      assert false;
    }
  }

  lemma StepAnnouncesNothing(s: State, t: Tid, r: Ref)
    requires CanStep(s, t)
    requires (s.threads[t].phase.Delete? || s.threads[t].phase.Publish?) ==> s.threads[t].row != r
    ensures Announced(Step(s, t), r) <==> Announced(s, r)
  {
    var s' := Step(s, t);
    if Announced(s, r) {
      var u :| u in s.threads && Announcing(s.threads[u], r);
      StepAnnouncing(s, t, u, r);
    }
    if Announced(s', r) {
      var u :| u in s'.threads && Announcing(s'.threads[u], r);
      StepAnnouncing(s, t, u, r);
    }
  }

  lemma StepBalances(init: State, s: State, t: Tid, r: Ref)
    requires Shrunk(init.rows, s.rows) && LocksInv(s) && Balanced(init.rows, s, r) && CanStep(s, t)
    requires forall u :: u in s.threads ==> ThreadInv(init.rows, s.rows, s.threads[u])
    ensures Balanced(init.rows, Step(s, t), r)
  {
    var th := s.threads[t];
    if th.phase.Publish? { GC.CountAppend(s.log, Deleted(th.row), Deleted(r)); }
    if th.phase.Delete? && th.row == r {
      DeleteAnnounces(init, s, t);
    } else if th.phase.Publish? && th.row == r {
      PublishAnnounced(s, t);
    } else {
      StepAnnouncesNothing(s, t, r);
    }
  }

  lemma StepEvents(init: State, s: State, t: Tid)
    requires Shrunk(init.rows, s.rows) && LocksInv(s) && EventsInv(init.rows, s) && CanStep(s, t)
    requires forall u :: u in s.threads ==> ThreadInv(init.rows, s.rows, s.threads[u])
    ensures EventsInv(init.rows, Step(s, t))
  {
    forall r ensures Balanced(init.rows, Step(s, t), r) {
      StepBalances(init, s, t, r);
    }
  }

  // ----- files -----

  lemma StepUnlinked(init: State, s: State, t: Tid, file: Ref)
    requires FilesInv(init, s) && CanStep(s, t) && IsFile(file)
    ensures Step(s, t).threads.Keys == init.threads.Keys
    ensures Unlinked(init, Step(s, t), file) <==> Unlinked(init, s, file) || s.threads[t].phase == Unlink(file)
  {
    var s', th := Step(s, t), s.threads[t];
    if Unlinked(init, s, file) {
      var u :| u in s.threads && init.threads[u].phase == Unlink(file) && !s.threads[u].phase.Unlink?;
      assert !s'.threads[u].phase.Unlink?;
    }
    if th.phase == Unlink(file) {
      assert !s'.threads[t].phase.Unlink?;
    }
    if Unlinked(init, s', file) {
      var u :| u in s'.threads && init.threads[u].phase == Unlink(file) && !s'.threads[u].phase.Unlink?;
      assert u != t ==> s.threads[u] == s'.threads[u];
    }
  }

  lemma StepFile(init: State, s: State, t: Tid, file: Ref)
    requires FilesInv(init, s) && CanStep(s, t) && file in init.rows && IsFile(file)
    requires Shrunk(init.rows, s.rows) && ThreadInv(init.rows, s.rows, s.threads[t])
    ensures Step(s, t).threads.Keys == init.threads.Keys
    ensures file !in Step(s, t).rows <==> Unlinked(init, Step(s, t), file)
  {
    StepUnlinked(init, s, t, file);
    assert file !in Step(s, t).rows <==> file !in s.rows || s.threads[t].phase == Unlink(file);
  }

  lemma StepFiles(init: State, s: State, t: Tid)
    requires FilesInv(init, s) && CanStep(s, t)
    requires Shrunk(init.rows, s.rows) && ThreadInv(init.rows, s.rows, s.threads[t])
    ensures FilesInv(init, Step(s, t))
  {
    var s' := Step(s, t);
    assert s'.threads.Keys == s.threads.Keys;
    forall r | r in init.rows && IsFile(r) ensures r !in s'.rows <==> Unlinked(init, s', r) {
      StepFile(init, s, t, r);
    }
    forall u | u in s'.threads && s'.threads[u].phase.Unlink? ensures s'.threads[u] == init.threads[u] {
      assert u != t;
    }
  }

  // ----- every reachable state -----

  lemma ParentIsHigher(rows: Rows, r: Ref)
    requires WellTyped(rows) && r in rows && rows[r].parent.Some?
    ensures Level(rows[r].parent.value.table) > Level(r.table)
  {
  }

  lemma StepCore(init: State, s: State, t: Tid)
    requires CoreInv(init.rows, s) && CanStep(s, t)
    ensures CoreInv(init.rows, Step(s, t))
  {
    var s', th := Step(s, t), s.threads[t];
    assert ThreadInv(init.rows, s.rows, th);
    StepShrinks(init, s, t);
    if th.phase.Publish? && th.parent.Some? {
      ParentIsHigher(init.rows, th.row);
    }
    StepLocks(s, t);
    StepThreadSelf(init, s, t);
    forall u | u in s'.threads ensures ThreadInv(init.rows, s'.rows, s'.threads[u]) {
      if u != t { StepThreadOther(init, s, t, u); }
    }
  }

  lemma StepInv(init: State, s: State, t: Tid)
    requires Inv(init, s) && CanStep(s, t)
    ensures Inv(init, Step(s, t))
  {
    StepCore(init, s, t);
    StepOrphans(init, s, t);
    StepLosesNothing(init, s, t);
    StepEvents(init, s, t);
    StepFiles(init, s, t);
  }

  lemma {:induction false} Reachable(init: State, schedule: seq<Tid>)
    requires Initial(init) && After(init, schedule).Some?
    ensures Inv(init, After(init, schedule).value)
  {
    if schedule == [] {
      InitialInv(init);
    } else {
      var n := |schedule| - 1;
      Reachable(init, schedule[..n]);
      StepInv(init, After(init, schedule[..n]).value, schedule[n]);
    }
  }

  // ----- safety: what holds in every reachable state -----

  /** No remaining row points at a removed one, and no row is announced as deleted twice or while present. */
  lemma SafeAlways(init: State, schedule: seq<Tid>, r: Ref)
    requires Initial(init) && After(init, schedule).Some?
    ensures var s := After(init, schedule).value;
            && Shrunk(init.rows, s.rows)
            && NoneOrphaned(init.rows, s.rows)
            && GC.Count(s.log, Deleted(r)) <= 1
            && (Deleted(r) in s.log ==> r in init.rows && r !in s.rows)
  {
    Reachable(init, schedule);
    assert Balanced(init.rows, After(init, schedule).value, r);
  }

  // ----- the outcome: what every finished run ends in -----

  function UnlinkedFiles(init: State): set<Ref> {
    set t | t in init.threads && init.threads[t].phase.Unlink? :: init.threads[t].phase.file
  }

  /** No lost collection: no row that had children is left without any. */
  lemma NothingLeftChildless(init: State, schedule: seq<Tid>, r: Ref)
    requires Initial(init) && After(init, schedule).Some? && AllDone(After(init, schedule).value)
    requires r in After(init, schedule).value.rows && HasChild(init.rows, r)
    ensures HasChild(After(init, schedule).value.rows, r)
  {
    Reachable(init, schedule);
  }

  /** Each removed episode, season and series has exactly one event, nothing else has one, and every
      lock has been released. */
  lemma OneEventPerRemovedRow(init: State, schedule: seq<Tid>, r: Ref)
    requires Initial(init) && After(init, schedule).Some? && AllDone(After(init, schedule).value)
    ensures var s := After(init, schedule).value;
            && GC.Count(s.log, Deleted(r)) == (if r in init.rows && r !in s.rows && !IsFile(r) then 1 else 0)
            && r !in s.locks
  {
    Reachable(init, schedule);
    var s := After(init, schedule).value;
    assert Balanced(init.rows, s, r);
    forall t | t in s.threads ensures s.threads[t].held == [] {
      assert Holds(s.locks, t, s.threads[t]);
    }
  }

  /** From tight tables every finished interleaving ends in the same tables: the ancestry of the files
      that no thread was started to delete. */
  lemma OutcomeIsAncestry(init: State, schedule: seq<Tid>)
    requires Initial(init) && Tight(init.rows)
    requires After(init, schedule).Some? && AllDone(After(init, schedule).value)
    ensures After(init, schedule).value.rows == Ancestry(init.rows, FilesOf(init.rows) - UnlinkedFiles(init))
  {
    Reachable(init, schedule);
    var s := After(init, schedule).value;
    assert Tight(s.rows);
    TightIsAncestry(init.rows, s.rows);
    forall r ensures r in FilesOf(s.rows) <==> r in FilesOf(init.rows) - UnlinkedFiles(init) {
      if r in init.rows && IsFile(r) {
        assert Unlinked(init, s, r) <==> r in UnlinkedFiles(init) by {
          if r in UnlinkedFiles(init) {
            var t :| t in init.threads && init.threads[t].phase.Unlink? && init.threads[t].phase.file == r;
            assert s.threads[t].phase.Done?;
          }
        }
      }
    }
    assert FilesOf(s.rows) == FilesOf(init.rows) - UnlinkedFiles(init);
  }

  /** So interleaved threads end where one loop over the same files ends, whatever the order of either. */
  lemma SameAsOneLoop(init: State, schedule: seq<Tid>, files: seq<Ref>)
    requires Initial(init) && Tight(init.rows)
    requires After(init, schedule).Some? && AllDone(After(init, schedule).value)
    requires GC.AllFilesIn(files, init.rows) && GC.ToSet(files) == UnlinkedFiles(init)
    ensures After(init, schedule).value.rows == GC.AllRemoved(init.rows, files)
  {
    OutcomeIsAncestry(init, schedule);
    GC.RemovalIsAncestry(init.rows, files);
  }

  // ----- progress -----

  /** Follow a waiting thread to the holder of the lock it waits for: the rows only get higher. */
  lemma {:induction false} SomeoneCanStep(s: State, t: Tid) returns (u: Tid)
    requires LocksInv(s) && t in s.threads && !s.threads[t].phase.Done?
    ensures CanStep(s, u)
    decreases if s.threads[t].phase.Lock? then 4 - Level(s.threads[t].row.table) else 0
  {
    if CanStep(s, t) {
      u := t;
    } else {
      var row := s.threads[t].row;
      var holder := s.locks[row];
      assert Holds(s.locks, holder, s.threads[holder]);
      if CanStep(s, holder) {
        u := holder;
      } else {
        u := SomeoneCanStep(s, holder);
      }
    }
  }

  lemma OneStepMore(init: State, schedule: seq<Tid>, t: Tid)
    requires After(init, schedule).Some? && CanStep(After(init, schedule).value, t)
    ensures After(init, schedule + [t]).Some?
  {
    assert (schedule + [t])[..|schedule|] == schedule;
  }

  lemma DeadlockFree(init: State, schedule: seq<Tid>)
    requires Initial(init) && After(init, schedule).Some? && !AllDone(After(init, schedule).value)
    ensures exists t :: After(init, schedule + [t]).Some?
  {
    Reachable(init, schedule);
    var s := After(init, schedule).value;
    var t :| t in s.threads && !s.threads[t].phase.Done?;
    var u := SomeoneCanStep(s, t);
    OneStepMore(init, schedule, u);
  }

  /** An upper bound on the steps a thread has left. */
  function StepsLeft(th: Thread): nat {
    match th.phase
    case Unlink(_) => 5 * (4 - Level(th.row.table)) + |th.held| + 2
    case Lock => 5 * (4 - Level(th.row.table)) + |th.held| + 1
    case Find => 5 * (4 - Level(th.row.table)) + |th.held| - 1
    case Delete => 5 * (4 - Level(th.row.table)) + |th.held| - 2
    case Publish => 5 * (4 - Level(th.row.table)) + |th.held| - 3
    case Unlock => |th.held| + 1
    case Done => 0
  }

  lemma StepCounts(s: State, t: Tid)
    requires CanStep(s, t) && (Working(s.threads[t]) ==> s.threads[t].held != [])
    requires s.threads[t].phase.Publish? && s.threads[t].parent.Some? ==>
               Level(s.threads[t].parent.value.table) > Level(s.threads[t].row.table)
    ensures StepsLeft(Step(s, t).threads[t]) < StepsLeft(s.threads[t])
  {
    var th := s.threads[t];
    assert Level(th.row.table) <= 3;
  }

  ghost function StepsLeftOf(threads: map<Tid, Thread>): map<Tid, nat> {
    map t | t in threads :: StepsLeft(threads[t])
  }

  lemma OthersKeepTheirSteps(s: State, t: Tid)
    requires CanStep(s, t)
    ensures forall u :: u in Step(s, t).threads && u != t ==> u in s.threads && Step(s, t).threads[u] == s.threads[u]
    ensures StepsLeftOf(Step(s, t).threads) == StepsLeftOf(s.threads)[t := StepsLeft(Step(s, t).threads[t])]
  {
  }

  lemma StepUsesOne(init: State, s: State, t: Tid)
    requires CoreInv(init.rows, s) && CanStep(s, t)
    ensures Totals.Total(StepsLeftOf(Step(s, t).threads)) < Totals.Total(StepsLeftOf(s.threads))
  {
    var th := s.threads[t];
    assert ThreadInv(init.rows, s.rows, th) && Holds(s.locks, t, th);
    if th.phase.Publish? && th.parent.Some? {
      ParentIsHigher(init.rows, th.row);
    }
    StepCounts(s, t);
    OthersKeepTheirSteps(s, t);
    Totals.TotalUpdate(StepsLeftOf(s.threads), t, StepsLeft(Step(s, t).threads[t]));
  }

  lemma {:induction false} ScheduleCounts(init: State, schedule: seq<Tid>)
    requires Initial(init) && After(init, schedule).Some?
    ensures |schedule| + Totals.Total(StepsLeftOf(After(init, schedule).value.threads))
            <= Totals.Total(StepsLeftOf(init.threads))
  {
    if schedule != [] {
      var n := |schedule| - 1;
      ScheduleCounts(init, schedule[..n]);
      Reachable(init, schedule[..n]);
      StepUsesOne(init, After(init, schedule[..n]).value, schedule[n]);
    }
  }

  lemma StepsLeftBound(init: State)
    requires Initial(init)
    ensures Totals.Total(StepsLeftOf(init.threads)) <= 17 * |init.threads|
  {
    var left := StepsLeftOf(init.threads);
    forall t | t in left ensures left[t] <= 17 {
      assert Fresh(init.rows, init.threads[t]);
    }
    Totals.TotalBound(left, 17);
    assert left.Keys == init.threads.Keys;
    assert |left| == |left.Keys| && |init.threads| == |init.threads.Keys|;
  }

  /** Every run is over within 17 steps per thread, so a run that cannot be extended exists and, by
      DeadlockFree, has all threads done. */
  lemma RunsEnd(init: State, schedule: seq<Tid>)
    requires Initial(init) && After(init, schedule).Some?
    ensures |schedule| <= 17 * |init.threads|
  {
    ScheduleCounts(init, schedule);
    StepsLeftBound(init);
  }
}
