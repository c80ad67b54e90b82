/** metadata/managers/metadata/series.go, GetOrCreateEpisodeByTmdbID and its two helpers, run by any
    number of threads interleaved with each other and with the collectors of CollectorThreads.  The
    creation mutex is released and taken again between the series, the season and the episode, and the
    collectors never take it. */
module CreatorThreads {
  import opened Catalog
  import C = CollectorThreads

  type Tid = C.Tid

  datatype Phase =
    | Lock            // wait for the creation mutex
    | Find            // look the row up by parent and number
    | Fetch           // ask the metadata agent, which may fail
    | Save            // insert the row, which may fail
    | Publish         // send the Added event
    | Unlock          // leave this level
    | Finished
    | Failed

  /** `table` is the level the creator is at, `path` the rows got at the levels above, from the series
      down, and `result` the row got at this level. */
  datatype Creator = Creator(phase: Phase, table: Table, path: seq<Ref>, result: Option<Ref>, key: EpisodeKey)
  {
    function Parent(): Option<Ref> {
      if path == [] then None else Some(path[|path| - 1])
    }

    function Number(): int {
      match table
      case SeriesTable => key.seriesTmdbID
      case Seasons => key.seasonNumber
      case _ => key.episodeNumber
    }

    predicate IsNew() {
      phase.Lock? && table.SeriesTable? && path == [] && result == None
    }
  }

  /** `base` holds the tables, the log and the collectors. */
  datatype State = State(base: C.State, creators: map<Tid, Creator>, mutex: Option<Tid>)

  /** What the environment decides: whether the agent or the database call succeeds, and which id a
      lookup finds or an insertion gets. */
  datatype Choice = Choice(ok: bool, id: nat)

  datatype Move = Collect(t: Tid) | Create(t: Tid, choice: Choice)

  predicate KeyTaken(rows: Rows, c: Creator) {
    exists r :: r in rows && HasKey(rows, r, c.table, c.Parent(), c.Number())
  }

  predicate CanMove(s: State, m: Move) {
    match m
    case Collect(t) => C.CanStep(s.base, t)
    case Create(t, choice) =>
      && t in s.creators
      && var c := s.creators[t];
      match c.phase
      case Lock => s.mutex == None
      case Find => KeyTaken(s.base.rows, c) ==>
          HasKey(s.base.rows, Ref(c.table, choice.id), c.table, c.Parent(), c.Number())
      case Save => choice.ok ==> Ref(c.table, choice.id) !in s.base.rows
      case Finished | Failed => false
      case _ => true
  }

  /** The creator after leaving its level: at the level below, or finished. */
  function NextLevel(c: Creator): Creator {
    if c.result == None then c.(phase := Failed)
    else
      match c.table
      case SeriesTable => c.(phase := Lock, table := Seasons, path := c.path + [c.result.value], result := None)
      case Seasons => c.(phase := Lock, table := Episodes, path := c.path + [c.result.value], result := None)
      case _ => c.(phase := Finished)
  }

  function Moved(s: State, m: Move): State
    requires CanMove(s, m)
  {
    match m
    case Collect(t) => s.(base := C.Step(s.base, t))
    case Create(t, choice) =>
      var c := s.creators[t];
      var ref := Ref(c.table, choice.id);
      match c.phase
      case Lock =>
        s.(mutex := Some(t), creators := s.creators[t := c.(phase := Find)])
      case Find =>
        s.(creators := s.creators[t := if KeyTaken(s.base.rows, c) then c.(phase := Unlock, result := Some(ref))
                                       else c.(phase := Fetch)])
      case Fetch =>
        s.(creators := s.creators[t := if choice.ok then c.(phase := Save) else c.(phase := Unlock)])
      case Save =>
        if choice.ok then
          s.(base := s.base.(rows := s.base.rows[ref := Row(c.Parent(), c.Number(), 0)]),
             creators := s.creators[t := c.(phase := Publish, result := Some(ref))])
        else
          s.(creators := s.creators[t := c.(phase := Unlock)])
      case Publish =>
        s.(base := s.base.(log := s.base.log + (match c.result case Some(r) => [Added(r)] case None => [])),
           creators := s.creators[t := c.(phase := Unlock)])
      case _ =>
        s.(mutex := None, creators := s.creators[t := NextLevel(c)])
  }

  ghost function After(init: State, moves: seq<Move>): Option<State> {
    if moves == [] then Some(init)
    else
      var n := |moves| - 1;
      match After(init, moves[..n])
      case None => None
      case Some(s) => if CanMove(s, moves[n]) then Some(Moved(s, moves[n])) else None
  }

  // ----- the invariant -----

  predicate InSection(c: Creator) {
    c.phase.Find? || c.phase.Fetch? || c.phase.Save? || c.phase.Publish? || c.phase.Unlock?
  }

  predicate CreatorTyped(c: Creator) {
    && (match c.table
        case SeriesTable => c.path == []
        case Seasons => |c.path| == 1 && c.path[0].table.SeriesTable?
        case Episodes => |c.path| == 2 && c.path[0].table.SeriesTable? && c.path[1].table.Seasons?
        case _ => false)
    && (c.result.Some? ==> c.result.value.table == c.table)
    && (c.phase.Finished? ==> c.table.Episodes?)
    && (c.phase.Finished? || c.phase.Publish? ==> c.result.Some?)
    && (c.phase.Lock? || c.phase.Find? || c.phase.Fetch? || c.phase.Save? || c.phase.Failed? ==> c.result == None)
  }

  ghost predicate CreatorInv(s: State, t: Tid)
    requires t in s.creators
  {
    var c := s.creators[t];
    && CreatorTyped(c)
    && (InSection(c) <==> s.mutex == Some(t))
    && (c.phase.Fetch? || c.phase.Save? ==> !KeyTaken(s.base.rows, c))
  }

  ghost predicate CollectorTyped(th: C.Thread) {
    && Level(th.row.table) > 0
    && (th.phase.Unlink? ==> IsFile(th.phase.file))
    && (th.phase.Delete? || th.phase.Publish? ==>
          th.parent.Some? ==> Level(th.parent.value.table) > Level(th.row.table))
  }

  ghost predicate CollectorsInv(base: C.State) {
    && C.LocksInv(base)
    && (forall t :: t in base.threads ==> CollectorTyped(base.threads[t]))
  }

  ghost predicate Inv(s: State) {
    && WellTyped(s.base.rows)
    && Unique(s.base.rows)
    && CollectorsInv(s.base)
    && (s.mutex.Some? ==> s.mutex.value in s.creators)
    && (forall t :: t in s.creators ==> CreatorInv(s, t))
  }

  predicate Initial(s: State) {
    && C.Initial(s.base) && Unique(s.base.rows) && s.mutex == None
    && forall t :: t in s.creators ==> s.creators[t].IsNew()
  }

  lemma InitialInv(s: State)
    requires Initial(s)
    ensures Inv(s)
  {
    forall t | t in s.base.threads
      ensures CollectorTyped(s.base.threads[t]) && C.Holds(s.base.locks, t, s.base.threads[t])
    {
      assert C.Fresh(s.base.rows, s.base.threads[t]);
    }
    forall t | t in s.creators ensures CreatorInv(s, t) {
      assert s.creators[t].IsNew();
    }
  }

  // ----- every move keeps it -----

  lemma ShrinkingKeeps(rows: Rows, rows': Rows, c: Creator)
    requires Shrunk(rows, rows')
    ensures Unique(rows) ==> Unique(rows')
    ensures WellTyped(rows) ==> WellTyped(rows')
    ensures KeyTaken(rows', c) ==> KeyTaken(rows, c)
  {
    if KeyTaken(rows', c) {
      var r :| r in rows' && HasKey(rows', r, c.table, c.Parent(), c.Number());
      assert HasKey(rows, r, c.table, c.Parent(), c.Number());
    }
  }

  lemma CollectorStepTyped(base: C.State, t: Tid)
    requires WellTyped(base.rows) && C.CanStep(base, t) && CollectorTyped(base.threads[t])
    ensures CollectorTyped(C.Step(base, t).threads[t])
  {
    var th := base.threads[t];
    if th.phase.Find? && th.row in base.rows && base.rows[th.row].parent.Some? {
      C.ParentIsHigher(base.rows, th.row);
    }
  }

  lemma CollectorsStep(base: C.State, t: Tid)
    requires WellTyped(base.rows) && CollectorsInv(base) && C.CanStep(base, t)
    ensures CollectorsInv(C.Step(base, t))
  {
    assert CollectorTyped(base.threads[t]);
    CollectorStepTyped(base, t);
    C.StepLocks(base, t);
    C.OthersKeepTheirSteps(base, t);
  }

  lemma CollectMove(s: State, t: Tid)
    requires Inv(s) && C.CanStep(s.base, t)
    ensures Inv(Moved(s, Collect(t)))
  {
    var s' := Moved(s, Collect(t));
    CollectorsStep(s.base, t);
    C.StepShrinks(s.base, s.base, t);
    assert Shrunk(s.base.rows, s'.base.rows);
    forall u | u in s'.creators ensures CreatorInv(s', u) {
      assert CreatorInv(s, u);
      ShrinkingKeeps(s.base.rows, s'.base.rows, s.creators[u]);
    }
    var any := Creator(Lock, SeriesTable, [], None, EpisodeKey(0, 0, 0));
    ShrinkingKeeps(s.base.rows, s'.base.rows, any);
  }

  lemma CreateMoveOwn(s: State, t: Tid, choice: Choice)
    requires Inv(s) && CanMove(s, Create(t, choice))
    ensures CreatorInv(Moved(s, Create(t, choice)), t)
  {
    assert CreatorInv(s, t);
  }

  lemma CreateMove(s: State, t: Tid, choice: Choice)
    requires Inv(s) && CanMove(s, Create(t, choice))
    ensures Inv(Moved(s, Create(t, choice)))
  {
    var s', c := Moved(s, Create(t, choice)), s.creators[t];
    assert CreatorInv(s, t);
    if c.phase.Save? && choice.ok {
      InsertKeeps(s.base.rows, Ref(c.table, choice.id), c.Parent(), c.Number());
    }
    CreateMoveOwn(s, t, choice);
    forall u | u in s'.creators && u != t ensures CreatorInv(s', u) {
      assert CreatorInv(s, u);
    }
  }

  lemma {:induction false} Reachable(init: State, moves: seq<Move>)
    requires Initial(init) && After(init, moves).Some?
    ensures Inv(After(init, moves).value)
  {
    if moves == [] {
      InitialInv(init);
    } else {
      var n := |moves| - 1;
      Reachable(init, moves[..n]);
      var s := After(init, moves[..n]).value;
      match moves[n]
      case Collect(t) => CollectMove(s, t);
      case Create(t, choice) => CreateMove(s, t, choice);
    }
  }

  /** No interleaving of creators and collectors ever makes a duplicate. */
  lemma UniqueAlways(init: State, moves: seq<Move>)
    requires Initial(init) && After(init, moves).Some?
    ensures Unique(After(init, moves).value.base.rows)
  {
    Reachable(init, moves);
  }

  lemma OneMoveMore(init: State, moves: seq<Move>, m: Move)
    requires After(init, moves).Some? && CanMove(After(init, moves).value, m)
    ensures After(init, moves + [m]).Some?
  {
    assert (moves + [m])[..|moves|] == moves;
  }

  /** Creators and collectors cannot block each other: while any of them is unfinished, some move is
      possible. */
  lemma DeadlockFree(init: State, moves: seq<Move>)
    requires Initial(init) && After(init, moves).Some?
    requires var s := After(init, moves).value;
             || !C.AllDone(s.base)
             || exists t :: t in s.creators && !s.creators[t].phase.Finished? && !s.creators[t].phase.Failed?
    ensures exists m :: After(init, moves + [m]).Some?
  {
    Reachable(init, moves);
    var s := After(init, moves).value;
    var m: Move;
    if t :| t in s.creators && !s.creators[t].phase.Finished? && !s.creators[t].phase.Failed? {
      m := CreatorMove(s, if s.creators[t].phase.Lock? && s.mutex.Some? then s.mutex.value else t);
    } else {
      var t :| t in s.base.threads && !s.base.threads[t].phase.Done?;
      var u := C.SomeoneCanStep(s.base, t);
      m := Collect(u);
    }
    OneMoveMore(init, moves, m);
  }

  /** The mutex holder, and without one any creator that is not over, can move. */
  lemma CreatorMove(s: State, t: Tid) returns (m: Move)
    requires Inv(s) && (s.mutex == Some(t) || (s.mutex == None && t in s.creators
                                               && !s.creators[t].phase.Finished? && !s.creators[t].phase.Failed?))
    ensures CanMove(s, m)
  {
    var c := s.creators[t];
    assert CreatorInv(s, t);
    var choice := Choice(false, 0);
    if c.phase.Find? && KeyTaken(s.base.rows, c) {
      var r :| r in s.base.rows && HasKey(s.base.rows, r, c.table, c.Parent(), c.Number());
      choice := Choice(true, r.id);
      assert Ref(c.table, r.id) == r;
    }
    m := Create(t, choice);
  }

  // ----- what creators return -----

  /** A collector has deleted the row; its event is in the log or about to be. */
  ghost predicate Removed(base: C.State, r: Ref) {
    Deleted(r) in base.log || C.Announced(base, r)
  }

  /** The row a creator got is there with that parent and number, unless a collector has deleted it. */
  ghost predicate StillGot(base: C.State, r: Ref, table: Table, parent: Option<Ref>, number: int) {
    Removed(base, r) || HasKey(base.rows, r, table, parent, number)
  }

  ghost predicate PathInv(base: C.State, c: Creator) {
    && (|c.path| >= 1 ==> StillGot(base, c.path[0], SeriesTable, None, c.key.seriesTmdbID))
    && (|c.path| >= 2 ==> StillGot(base, c.path[1], Seasons, Some(c.path[0]), c.key.seasonNumber))
    && (c.result.Some? ==> StillGot(base, c.result.value, c.table, c.Parent(), c.Number()))
  }

  /** What removes rows leaves its trace, and traces stay. */
  ghost predicate Traced(base: C.State, base': C.State) {
    && (forall r :: Removed(base, r) ==> Removed(base', r))
    && (forall r :: r in base.rows && !IsFile(r) ==>
        Removed(base', r) || (r in base'.rows && base'.rows[r] == base.rows[r]))
  }

  lemma TracedKeeps(base: C.State, base': C.State, c: Creator)
    requires Traced(base, base') && CreatorTyped(c) && PathInv(base, c)
    ensures PathInv(base', c)
  {
  }

  lemma CollectTraced(base: C.State, t: Tid)
    requires C.CanStep(base, t) && CollectorTyped(base.threads[t])
    ensures Traced(base, C.Step(base, t))
  {
    var base', th := C.Step(base, t), base.threads[t];
    forall r | Removed(base, r) ensures Removed(base', r) {
      if C.Announced(base, r) {
        var u :| u in base.threads && C.Announcing(base.threads[u], r);
        C.StepAnnouncing(base, t, u, r);
        if u == t {
          assert base'.log[|base.log|] == Deleted(r);
        }
      }
    }
    if th.phase.Delete? {
      C.StepAnnouncing(base, t, t, th.row);
    }
  }

  lemma CreateTraced(s: State, t: Tid, choice: Choice)
    requires CanMove(s, Create(t, choice))
    ensures Traced(s.base, Moved(s, Create(t, choice)).base)
  {
    var base' := Moved(s, Create(t, choice)).base;
    forall r | Removed(s.base, r) ensures Removed(base', r) {
      if C.Announced(s.base, r) {
        var u :| u in s.base.threads && C.Announcing(s.base.threads[u], r);
        assert u in base'.threads && C.Announcing(base'.threads[u], r);
      }
    }
  }

  lemma OwnMove(s: State, t: Tid, choice: Choice)
    requires Inv(s) && CanMove(s, Create(t, choice)) && PathInv(s.base, s.creators[t])
    ensures PathInv(Moved(s, Create(t, choice)).base, Moved(s, Create(t, choice)).creators[t])
  {
    var c := s.creators[t];
    assert CreatorInv(s, t);
    CreateTraced(s, t, choice);
    TracedKeeps(s.base, Moved(s, Create(t, choice)).base, c);
    match c.phase
    case Find =>
    case Save =>
    case Unlock => NextLevelPath(Moved(s, Create(t, choice)).base, c);
    case _ =>
  }

  lemma NextLevelPath(base: C.State, c: Creator)
    requires CreatorTyped(c) && PathInv(base, c)
    ensures PathInv(base, NextLevel(c))
  {
  }

  lemma MoveKeepsPaths(s: State, m: Move, u: Tid)
    requires Inv(s) && CanMove(s, m) && u in s.creators && PathInv(s.base, s.creators[u])
    ensures u in Moved(s, m).creators && PathInv(Moved(s, m).base, Moved(s, m).creators[u])
  {
    assert CreatorInv(s, u);
    match m
    case Collect(t) =>
      CollectTraced(s.base, t);
      TracedKeeps(s.base, Moved(s, m).base, s.creators[u]);
    case Create(t, choice) =>
      if t == u {
        OwnMove(s, t, choice);
      } else {
        CreateTraced(s, t, choice);
        TracedKeeps(s.base, Moved(s, m).base, s.creators[u]);
      }
  }

  lemma {:induction false} PathsAlways(init: State, moves: seq<Move>)
    requires Initial(init) && After(init, moves).Some?
    ensures var s := After(init, moves).value;
            s.creators.Keys == init.creators.Keys && forall t :: t in s.creators ==> PathInv(s.base, s.creators[t])
  {
    if moves == [] {
      forall t | t in init.creators ensures PathInv(init.base, init.creators[t]) {
        assert init.creators[t].IsNew();
      }
    } else {
      var n := |moves| - 1;
      PathsAlways(init, moves[..n]);
      Reachable(init, moves[..n]);
      var s := After(init, moves[..n]).value;
      assert Moved(s, moves[n]).creators.Keys == s.creators.Keys;
      forall t | t in s.creators ensures PathInv(Moved(s, moves[n]).base, Moved(s, moves[n]).creators[t]) {
        MoveKeepsPaths(s, moves[n], t);
      }
    }
  }

  /** No collector has deleted the series, the season or the episode that the creator got. */
  ghost predicate Untouched(base: C.State, c: Creator) {
    && (forall r :: r in c.path ==> !Removed(base, r))
    && (c.result.Some? ==> !Removed(base, c.result.value))
  }

  lemma UntouchedIsNamed(s: State, t: Tid)
    requires t in s.creators && CreatorInv(s, t) && PathInv(s.base, s.creators[t])
    requires s.creators[t].phase.Finished? && Untouched(s.base, s.creators[t])
    ensures NamedBy(s.base.rows, s.creators[t].key, s.creators[t].result.value)
  {
    var c := s.creators[t];
    assert c.path[0] in c.path && c.path[1] in c.path;
    assert NamedBy(s.base.rows, c.key, c.path[0]);
    assert NamedBy(s.base.rows, c.key, c.path[1]);
  }

  /** Whatever else was collected: a finished creator of which no collector deleted a row returns an episode
      that is there under its season and series, and two such creators called with the same numbers
      return the same episode. */
  lemma CreatorsAgree(init: State, moves: seq<Move>, t: Tid, u: Tid)
    requires Initial(init) && After(init, moves).Some?
    requires var s := After(init, moves).value;
             && t in s.creators && s.creators[t].phase.Finished? && Untouched(s.base, s.creators[t])
             && u in s.creators && s.creators[u].phase.Finished? && Untouched(s.base, s.creators[u])
             && s.creators[t].key == s.creators[u].key
    ensures var s := After(init, moves).value;
            && s.creators[t].result.Some?
            && NamedBy(s.base.rows, s.creators[t].key, s.creators[t].result.value)
            && s.creators[u].result == s.creators[t].result
  {
    PathsAlways(init, moves);
    Reachable(init, moves);
    var s := After(init, moves).value;
    assert CreatorInv(s, t) && CreatorInv(s, u);
    UntouchedIsNamed(s, t);
    UntouchedIsNamed(s, u);
    NamesOne(s.base.rows, s.creators[t].key, s.creators[t].result.value, s.creators[u].result.value);
  }
}
