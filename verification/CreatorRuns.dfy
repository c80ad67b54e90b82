/** What holds of whole runs of creators and collectors: the event log accounts for every change of the
    tables, what a finished creator returns is there exactly if no collector took it away, and runs end. */
module CreatorRuns {
  import opened Catalog
  import opened CreatorThreads
  import C = CollectorThreads
  import GC = GarbageCollection
  import Totals

  // ----- the log accounts for every change -----

  /** The creator is between the insertion of `r` and its event. */
  predicate Adding(c: Creator, r: Ref) {
    c.phase.Publish? && c.result == Some(r)
  }

  ghost predicate BeingAdded(s: State, r: Ref) {
    exists t :: t in s.creators && Adding(s.creators[t], r)
  }

  function One(b: bool): int {
    if b then 1 else 0
  }

  /** The events of `r` in the log, and the one about to come, weighed against its presence. */
  ghost function Account(s: State, r: Ref): int {
    GC.Count(s.base.log, Added(r)) + One(BeingAdded(s, r)) - GC.Count(s.base.log, Deleted(r)) -
        One(C.Announced(s.base, r))
      - One(r in s.base.rows)
  }

  /** A row about to be deleted is there; only the holder of its lock can remove it. */
  ghost predicate DeletesPresent(base: C.State) {
    forall t :: t in base.threads && base.threads[t].phase.Delete? ==> base.threads[t].row in base.rows
  }

  lemma OneAtWork(base: C.State, t: Tid, r: Ref)
    requires C.LocksInv(base) && t in base.threads && base.threads[t].phase.Delete? && base.threads[t].row == r
    ensures !C.Announced(base, r)
  {
    if C.Announced(base, r) {
      var u :| u in base.threads && C.Announcing(base.threads[u], r);
      C.OneWorkerPerRow(base, t, u);
      assert false;
    }
  }

  lemma CollectKeepsPresent(base: C.State, t: Tid)
    requires C.LocksInv(base) && C.CanStep(base, t) && CollectorTyped(base.threads[t]) && DeletesPresent(base)
    requires forall u :: u in base.threads ==> CollectorTyped(base.threads[u])
    ensures DeletesPresent(C.Step(base, t))
  {
    var base' := C.Step(base, t);
    forall u | u in base'.threads && base'.threads[u].phase.Delete? ensures base'.threads[u].row in base'.rows {
      if u != t {
        assert CollectorTyped(base.threads[u]) && base.threads[u] == base'.threads[u];
        if base.threads[t].phase.Delete? && base.threads[t].row == base.threads[u].row {
          C.OneWorkerPerRow(base, t, u);
        }
      }
    }
  }

  lemma CollectRows(base: C.State, t: Tid, r: Ref)
    requires C.CanStep(base, t) && CollectorTyped(base.threads[t]) && DeletesPresent(base) && !IsFile(r)
    ensures var th := base.threads[t];
            One(r in C.Step(base, t).rows) == One(r in base.rows) - One(th.phase.Delete? && th.row == r)
  {
  }

  lemma CollectLog(base: C.State, t: Tid, r: Ref)
    requires C.CanStep(base, t)
    ensures var log := C.Step(base, t).log;
            && GC.Count(log, Deleted(r)) == GC.Count(base.log, Deleted(r)) + One(C.Announcing(base.threads[t], r))
            && GC.Count(log, Added(r)) == GC.Count(base.log, Added(r))
  {
    var th := base.threads[t];
    if th.phase.Publish? {
      GC.CountAppend(base.log, Deleted(th.row), Deleted(r));
      GC.CountAppend(base.log, Deleted(th.row), Added(r));
    }
  }

  lemma CollectAnnouncing(base: C.State, t: Tid, r: Ref)
    requires C.LocksInv(base) && C.CanStep(base, t)
    ensures var th := base.threads[t];
            One(C.Announced(C.Step(base, t), r)) ==
            One(C.Announced(base, r)) + One(th.phase.Delete? && th.row == r) - One(C.Announcing(th, r))
  {
    var th := base.threads[t];
    if th.phase.Delete? && th.row == r {
      OneAtWork(base, t, r);
      assert C.Announcing(C.Step(base, t).threads[t], r);
    } else if th.phase.Publish? && th.row == r {
      C.PublishAnnounced(base, t);
    } else {
      C.StepAnnouncesNothing(base, t, r);
    }
  }

  lemma CollectAccounts(s: State, t: Tid, r: Ref)
    requires Inv(s) && C.CanStep(s.base, t) && DeletesPresent(s.base) && !IsFile(r)
    ensures Account(Moved(s, Collect(t)), r) == Account(s, r)
  {
    assert CollectorTyped(s.base.threads[t]);
    assert BeingAdded(Moved(s, Collect(t)), r) <==> BeingAdded(s, r);
    CollectRows(s.base, t, r);
    CollectLog(s.base, t, r);
    CollectAnnouncing(s.base, t, r);
  }

  /** Only the creator inside the section can be about to announce a row, before and after its move. */
  lemma OnlyOwnAdding(s: State, t: Tid, choice: Choice, r: Ref)
    requires Inv(s) && CanMove(s, Create(t, choice))
    ensures BeingAdded(s, r) <==> Adding(s.creators[t], r)
    ensures BeingAdded(Moved(s, Create(t, choice)), r) <==> Adding(Moved(s, Create(t, choice)).creators[t], r)
  {
    var s' := Moved(s, Create(t, choice));
    assert CreatorInv(s, t);
    forall u | u in s.creators && u != t ensures !Adding(s.creators[u], r) && s'.creators[u] == s.creators[u] {
      assert CreatorInv(s, u);
    }
    assert t in s'.creators && s'.creators.Keys == s.creators.Keys;
  }

  lemma CreateAnnouncesNothing(s: State, t: Tid, choice: Choice, r: Ref)
    requires CanMove(s, Create(t, choice))
    ensures C.Announced(Moved(s, Create(t, choice)).base, r) <==> C.Announced(s.base, r)
  {
    var base' := Moved(s, Create(t, choice)).base;
    assert base'.threads == s.base.threads;
  }

  predicate Inserts(c: Creator, choice: Choice, r: Ref) {
    c.phase.Save? && choice.ok && Ref(c.table, choice.id) == r
  }

  lemma CreateRows(s: State, t: Tid, choice: Choice, r: Ref)
    requires CanMove(s, Create(t, choice))
    ensures One(r in Moved(s, Create(t, choice)).base.rows) == One(r in s.base.rows) +
              One(Inserts(s.creators[t], choice, r))
  {
  }

  lemma CreateLog(s: State, t: Tid, choice: Choice, r: Ref)
    requires CanMove(s, Create(t, choice)) && CreatorTyped(s.creators[t])
    ensures var log := Moved(s, Create(t, choice)).base.log;
            && GC.Count(log, Added(r)) == GC.Count(s.base.log, Added(r)) + One(Adding(s.creators[t], r))
            && GC.Count(log, Deleted(r)) == GC.Count(s.base.log, Deleted(r))
  {
    var c := s.creators[t];
    if c.phase.Publish? {
      GC.CountAppend(s.base.log, Added(c.result.value), Added(r));
      GC.CountAppend(s.base.log, Added(c.result.value), Deleted(r));
    }
  }

  lemma CreateAdding(s: State, t: Tid, choice: Choice, r: Ref)
    requires CanMove(s, Create(t, choice))
    ensures Adding(Moved(s, Create(t, choice)).creators[t], r) <==> Inserts(s.creators[t], choice, r)
  {
  }

  lemma CreateAccounts(s: State, t: Tid, choice: Choice, r: Ref)
    requires Inv(s) && CanMove(s, Create(t, choice)) && !IsFile(r)
    ensures Account(Moved(s, Create(t, choice)), r) == Account(s, r)
  {
    assert CreatorInv(s, t);
    CreateAnnouncesNothing(s, t, choice, r);
    OnlyOwnAdding(s, t, choice, r);
    CreateAdding(s, t, choice, r);
    CreateRows(s, t, choice, r);
    CreateLog(s, t, choice, r);
  }

  lemma {:induction false} AccountsAlways(init: State, moves: seq<Move>, r: Ref)
    requires Initial(init) && After(init, moves).Some? && !IsFile(r)
    ensures DeletesPresent(After(init, moves).value.base)
    ensures Account(After(init, moves).value, r) == Account(init, r)
  {
    if moves == [] {
      forall t | t in init.base.threads ensures !init.base.threads[t].phase.Delete? {
        assert C.Fresh(init.base.rows, init.base.threads[t]);
      }
    } else {
      var n := |moves| - 1;
      AccountsAlways(init, moves[..n], r);
      Reachable(init, moves[..n]);
      var s := After(init, moves[..n]).value;
      match moves[n]
      case Collect(t) =>
        CollectKeepsPresent(s.base, t);
        CollectAccounts(s, t, r);
      case Create(t, choice) =>
        CreateAccounts(s, t, choice, r);
    }
  }

  /** In every interleaving of creators and collectors, for every series, season, episode and movie: its
      Added events less its Deleted events, with those about to be sent, are the change of its presence. */
  lemma LogBalances(init: State, moves: seq<Move>, r: Ref)
    requires Initial(init) && After(init, moves).Some? && !IsFile(r)
    ensures var s := After(init, moves).value;
            GC.Count(s.base.log, Added(r)) + One(BeingAdded(s, r)) - GC.Count(s.base.log, Deleted(r)) -
                One(C.Announced(s.base, r))
            == One(r in s.base.rows) - One(r in init.base.rows)
  {
    AccountsAlways(init, moves, r);
    assert Account(init, r) == 0 - One(r in init.base.rows) by {
      forall t | t in init.base.threads ensures !C.Announcing(init.base.threads[t], r) {
        assert C.Fresh(init.base.rows, init.base.threads[t]);
      }
      forall t | t in init.creators ensures !Adding(init.creators[t], r) {
        assert init.creators[t].IsNew();
      }
      assert GC.Count([], Added(r)) == 0 && GC.Count([], Deleted(r)) == 0;
    }
  }

  // ----- what a finished creator returns, exactly -----

  /** The row is not in the tables the run started from and has not been inserted since. */
  ghost predicate NeverThere(init: State, s: State, r: Ref) {
    r !in init.base.rows && Added(r) !in s.base.log && !BeingAdded(s, r)
  }

  /** The move gives an inserted row an id that none of its table had before, as the automatic keys of the
      tables do. */
  ghost predicate FreshId(init: State, s: State, m: Move) {
    m.Create? && m.t in s.creators && s.creators[m.t].phase.Save? && m.choice.ok ==>
      NeverThere(init, s, Ref(s.creators[m.t].table, m.choice.id))
  }

  ghost predicate FreshIds(init: State, moves: seq<Move>) {
    moves == [] ||
    var n := |moves| - 1;
    && FreshIds(init, moves[..n])
    && (After(init, moves[..n]).Some? ==> FreshId(init, After(init, moves[..n]).value, moves[n]))
  }

  /** How often the row has come into the tables. */
  ghost function Arrivals(init: State, s: State, r: Ref): int {
    GC.Count(s.base.log, Added(r)) + One(BeingAdded(s, r)) + One(r in init.base.rows)
  }

  lemma CollectArrives(init: State, s: State, t: Tid, r: Ref)
    requires C.CanStep(s.base, t)
    ensures Arrivals(init, Moved(s, Collect(t)), r) == Arrivals(init, s, r)
  {
    var th := s.base.threads[t];
    assert BeingAdded(Moved(s, Collect(t)), r) <==> BeingAdded(s, r);
    if th.phase.Publish? {
      GC.CountAppend(s.base.log, Deleted(th.row), Added(r));
    }
  }

  lemma CreateArrives(init: State, s: State, t: Tid, choice: Choice, r: Ref)
    requires Inv(s) && CanMove(s, Create(t, choice)) && FreshId(init, s, Create(t, choice))
    requires Arrivals(init, s, r) <= 1
    ensures Arrivals(init, Moved(s, Create(t, choice)), r) <= 1
  {
    var c := s.creators[t];
    assert CreatorInv(s, t);
    OnlyOwnAdding(s, t, choice, r);
    if c.phase.Publish? {
      GC.CountAppend(s.base.log, Added(c.result.value), Added(r));
    }
  }

  lemma {:induction false} ArrivesOnce(init: State, moves: seq<Move>, r: Ref)
    requires Initial(init) && After(init, moves).Some? && FreshIds(init, moves)
    ensures Arrivals(init, After(init, moves).value, r) <= 1
  {
    if moves == [] {
      forall t | t in init.creators ensures !Adding(init.creators[t], r) {
        assert init.creators[t].IsNew();
      }
    } else {
      var n := |moves| - 1;
      ArrivesOnce(init, moves[..n], r);
      Reachable(init, moves[..n]);
      var s := After(init, moves[..n]).value;
      match moves[n]
      case Collect(t) => CollectArrives(init, s, t, r);
      case Create(t, choice) => CreateArrives(init, s, t, choice, r);
    }
  }

  /** A row that a collector has deleted does not come back. */
  lemma RemovedStaysAway(init: State, moves: seq<Move>, r: Ref)
    requires Initial(init) && After(init, moves).Some? && FreshIds(init, moves) && !IsFile(r)
    ensures Removed(After(init, moves).value.base, r) ==> r !in After(init, moves).value.base.rows
  {
    ArrivesOnce(init, moves, r);
    LogBalances(init, moves, r);
  }

  lemma NamedIsUntouched(s: State, t: Tid)
    requires t in s.creators && CreatorInv(s, t) && PathInv(s.base, s.creators[t]) && s.creators[t].phase.Finished?
    requires forall r :: !IsFile(r) && Removed(s.base, r) ==> r !in s.base.rows
    requires NamedBy(s.base.rows, s.creators[t].key, s.creators[t].result.value)
    ensures Untouched(s.base, s.creators[t])
  {
    var c, rows := s.creators[t], s.base.rows;
    var episode, season, series := c.result.value, c.path[1], c.path[0];
    assert c.path == [series, season];
    assert rows[episode].parent == Some(season) && NamedBy(rows, c.key, season);
    assert rows[season].parent == Some(series) && NamedBy(rows, c.key, series);
  }

  /** In every interleaving, what a finished creator returns is there under its season and series, with the
      numbers it was called with, exactly if no collector has deleted one of the three rows. */
  lemma NamedExactlyIfUntouched(init: State, moves: seq<Move>, t: Tid)
    requires Initial(init) && After(init, moves).Some? && FreshIds(init, moves)
    requires t in After(init, moves).value.creators && After(init, moves).value.creators[t].phase.Finished?
    ensures var s := After(init, moves).value;
            && s.creators[t].result.Some?
            && (NamedBy(s.base.rows, s.creators[t].key, s.creators[t].result.value) <==>
                Untouched(s.base, s.creators[t]))
  {
    PathsAlways(init, moves);
    Reachable(init, moves);
    var s := After(init, moves).value;
    assert CreatorInv(s, t);
    if NamedBy(s.base.rows, s.creators[t].key, s.creators[t].result.value) {
      forall r | !IsFile(r) && Removed(s.base, r) ensures r !in s.base.rows {
        RemovedStaysAway(init, moves, r);
      }
      NamedIsUntouched(s, t);
    }
    if Untouched(s.base, s.creators[t]) {
      UntouchedIsNamed(s, t);
    }
  }

  // ----- when a creator fails -----

  /** The agent does not know what creator `t` asks for, or the database does not insert its row. */
  predicate Refuses(s: State, m: Move, t: Tid) {
    && m.Create? && m.t == t && !m.choice.ok
    && t in s.creators && (s.creators[t].phase.Fetch? || s.creators[t].phase.Save?)
  }

  ghost predicate WasRefused(init: State, moves: seq<Move>, t: Tid) {
    moves != [] &&
    var n := |moves| - 1;
    || WasRefused(init, moves[..n], t)
    || (After(init, moves[..n]).Some? && Refuses(After(init, moves[..n]).value, moves[n], t))
  }

  predicate GivesUp(c: Creator) {
    c.phase.Failed? || (c.phase.Unlock? && c.result == None)
  }

  /** A refusal leaves the tables and the log as they are, and the creator without a row. */
  lemma GivesUpStep(s: State, m: Move, t: Tid)
    requires Inv(s) && CanMove(s, m) && t in s.creators
    ensures t in Moved(s, m).creators
    ensures GivesUp(Moved(s, m).creators[t]) <==> GivesUp(s.creators[t]) || Refuses(s, m, t)
    ensures Refuses(s, m, t) ==> Moved(s, m).base == s.base
  {
    assert CreatorInv(s, t);
  }

  /** In every interleaving a creator has failed, or is about to, exactly if it was refused at some level;
      one that finishes never was. */
  lemma {:induction false} FailsExactlyIfRefused(init: State, moves: seq<Move>, t: Tid)
    requires Initial(init) && After(init, moves).Some? && t in init.creators
    ensures var s := After(init, moves).value;
            && t in s.creators
            && (GivesUp(s.creators[t]) <==> WasRefused(init, moves, t))
            && (s.creators[t].phase.Failed? ==> s.creators[t].result == None && WasRefused(init, moves, t))
            && (s.creators[t].phase.Finished? ==> !WasRefused(init, moves, t))
  {
    Reachable(init, moves);
    assert t in After(init, moves).value.creators ==> CreatorInv(After(init, moves).value, t);
    if moves == [] {
      assert init.creators[t].IsNew();
    } else {
      var n := |moves| - 1;
      FailsExactlyIfRefused(init, moves[..n], t);
      Reachable(init, moves[..n]);
      GivesUpStep(After(init, moves[..n]).value, moves[n], t);
    }
  }

  // ----- every run ends -----

  /** An upper bound on the moves a creator has left. */
  function MovesLeft(c: Creator): nat {
    var below := match c.table case SeriesTable => 12 case Seasons => 6 case _ => 0;
    match c.phase
    case Lock => below + 6
    case Find => below + 5
    case Fetch => below + 4
    case Save => below + 3
    case Publish => below + 2
    case Unlock => below + 1
    case _ => 0
  }

  ghost function MovesLeftOf(creators: map<Tid, Creator>): map<Tid, nat> {
    map t | t in creators :: MovesLeft(creators[t])
  }

  ghost function Left(s: State): nat {
    Totals.Total(C.StepsLeftOf(s.base.threads)) + Totals.Total(MovesLeftOf(s.creators))
  }

  lemma CollectorUsesOne(base: C.State, t: Tid)
    requires CollectorsInv(base) && C.CanStep(base, t)
    ensures Totals.Total(C.StepsLeftOf(C.Step(base, t).threads)) < Totals.Total(C.StepsLeftOf(base.threads))
  {
    assert CollectorTyped(base.threads[t]) && C.Holds(base.locks, t, base.threads[t]);
    C.StepCounts(base, t);
    C.OthersKeepTheirSteps(base, t);
    Totals.TotalUpdate(C.StepsLeftOf(base.threads), t, C.StepsLeft(C.Step(base, t).threads[t]));
  }

  lemma OneMoveLess(s: State, t: Tid, choice: Choice)
    requires CanMove(s, Create(t, choice)) && CreatorTyped(s.creators[t])
    ensures MovesLeft(Moved(s, Create(t, choice)).creators[t]) < MovesLeft(s.creators[t])
  {
  }

  lemma OthersKeepTheirMoves(s: State, t: Tid, choice: Choice)
    requires CanMove(s, Create(t, choice))
    ensures var creators := Moved(s, Create(t, choice)).creators;
            t in creators && MovesLeftOf(creators) == MovesLeftOf(s.creators)[t := MovesLeft(creators[t])]
  {
    var creators := Moved(s, Create(t, choice)).creators;
    assert creators.Keys == s.creators.Keys;
    assert forall u :: u in s.creators && u != t ==> creators[u] == s.creators[u];
  }

  lemma CreatorUsesOne(s: State, t: Tid, choice: Choice)
    requires Inv(s) && CanMove(s, Create(t, choice))
    ensures Totals.Total(MovesLeftOf(Moved(s, Create(t, choice)).creators)) < Totals.Total(MovesLeftOf(s.creators))
  {
    assert CreatorInv(s, t);
    OneMoveLess(s, t, choice);
    OthersKeepTheirMoves(s, t, choice);
    Totals.TotalUpdate(MovesLeftOf(s.creators), t, MovesLeft(Moved(s, Create(t, choice)).creators[t]));
  }

  lemma {:induction false} MovesCount(init: State, moves: seq<Move>)
    requires Initial(init) && After(init, moves).Some?
    ensures |moves| + Left(After(init, moves).value) <= Left(init)
  {
    if moves != [] {
      var n := |moves| - 1;
      MovesCount(init, moves[..n]);
      Reachable(init, moves[..n]);
      var s := After(init, moves[..n]).value;
      match moves[n]
      case Collect(t) => CollectorUsesOne(s.base, t);
      case Create(t, choice) => CreatorUsesOne(s, t, choice);
    }
  }

  /** Every run of creators and collectors is over within 17 moves per collector and 18 per creator, so
      with DeadlockFree every run can be continued until all are done. */
  lemma RunsEnd(init: State, moves: seq<Move>)
    requires Initial(init) && After(init, moves).Some?
    ensures |moves| <= 17 * |init.base.threads| + 18 * |init.creators|
  {
    MovesCount(init, moves);
    C.StepsLeftBound(init.base);
    forall t | t in init.creators ensures MovesLeft(init.creators[t]) <= 18 {
      assert init.creators[t].IsNew();
    }
    Totals.TotalBound(MovesLeftOf(init.creators), 18);
    assert MovesLeftOf(init.creators).Keys == init.creators.Keys;
    assert |MovesLeftOf(init.creators)| == |MovesLeftOf(init.creators).Keys| && |init.creators| == |init.creators.Keys|;
  }
}
