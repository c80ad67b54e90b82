/** A run of one creator and one collector in which the season is deleted between two levels of the creation. */
module CreatorRace {
  import opened Catalog
  import opened CreatorThreads
  import opened CreatorRuns
  import C = CollectorThreads

  /** One move more, to the state `s`. */
  lemma ExtendTo(init: State, moves: seq<Move>, m: Move, s: State) returns (longer: seq<Move>)
    requires After(init, moves).Some? && CanMove(After(init, moves).value, m)
    requires FreshIds(init, moves) && FreshId(init, After(init, moves).value, m)
    requires var s' := Moved(After(init, moves).value, m);
             && s'.base.rows == s.base.rows && s'.base.locks == s.base.locks
             && s'.base.log == s.base.log && s'.base.threads == s.base.threads
             && s'.creators == s.creators && s'.mutex == s.mutex
    ensures After(init, longer) == Some(s) && FreshIds(init, longer)
  {
    longer := moves + [m];
    assert longer[..|moves|] == moves;
  }

  /** A creator gets a row that is there: Lock, Find, Unlock. */
  lemma GetExisting(init: State, moves: seq<Move>, t: Tid, ref: Ref) returns (longer: seq<Move>)
    requires After(init, moves).Some? && FreshIds(init, moves)
    requires var s := After(init, moves).value;
             && s.mutex == None && t in s.creators && s.creators[t].phase.Lock?
             && HasKey(s.base.rows, ref, s.creators[t].table, s.creators[t].Parent(), s.creators[t].Number())
    ensures FreshIds(init, longer)
    ensures var s := After(init, moves).value;
            After(init, longer) ==
            Some(s.(creators := s.creators[t := NextLevel(s.creators[t].(phase := Unlock, result := Some(ref)))]))
  {
    var s, own := After(init, moves).value, Create(t, Choice(true, ref.id));
    var c := s.creators[t];
    var got := c.(phase := Unlock, result := Some(ref));
    assert Ref(ref.table, ref.id) == ref;
    longer := ExtendTo(init, moves, own, s.(mutex := Some(t), creators := s.creators[t := c.(phase := Find)]));
    assert KeyTaken(s.base.rows, c.(phase := Find));
    longer := ExtendTo(init, longer, own, s.(mutex := Some(t), creators := s.creators[t := got]));
    longer := ExtendTo(init, longer, own, s.(creators := s.creators[t := NextLevel(got)]));
  }

  /** A creator does not find its row and can insert it: Lock, Find, Fetch. */
  lemma FetchMissing(init: State, moves: seq<Move>, t: Tid) returns (longer: seq<Move>)
    requires After(init, moves).Some? && FreshIds(init, moves)
    requires var s := After(init, moves).value;
             && s.mutex == None && t in s.creators && s.creators[t].phase.Lock?
             && !KeyTaken(s.base.rows, s.creators[t])
    ensures FreshIds(init, longer)
    ensures var s := After(init, moves).value;
            After(init, longer) ==
            Some(s.(mutex := Some(t), creators := s.creators[t := s.creators[t].(phase := Save)]))
  {
    var s, own := After(init, moves).value, Create(t, Choice(true, 0));
    var c := s.creators[t];
    longer := ExtendTo(init, moves, own, s.(mutex := Some(t), creators := s.creators[t := c.(phase := Find)]));
    assert !KeyTaken(s.base.rows, c.(phase := Find));
    longer := ExtendTo(init, longer, own, s.(mutex := Some(t), creators := s.creators[t := c.(phase := Fetch)]));
    longer := ExtendTo(init, longer, own, s.(mutex := Some(t), creators := s.creators[t := c.(phase := Save)]));
  }

  /** And inserts it: Save. */
  lemma InsertMissing(init: State, moves: seq<Move>, t: Tid, ref: Ref) returns (longer: seq<Move>)
    requires After(init, moves).Some? && FreshIds(init, moves)
    requires var s := After(init, moves).value;
             && t in s.creators && s.creators[t].phase.Save?
             && ref.table == s.creators[t].table && ref !in s.base.rows && NeverThere(init, s, ref)
    ensures FreshIds(init, longer)
    ensures var s := After(init, moves).value;
            var c := s.creators[t];
            After(init, longer) ==
            Some(s.(base := s.base.(rows := s.base.rows[ref := Row(c.Parent(), c.Number(), 0)]),
                    creators := s.creators[t := c.(phase := Publish, result := Some(ref))]))
  {
    var s, own := After(init, moves).value, Create(t, Choice(true, ref.id));
    var c := s.creators[t];
    assert Ref(c.table, ref.id) == ref;
    longer := ExtendTo(init, moves, own,
                       s.(base := s.base.(rows := s.base.rows[ref := Row(c.Parent(), c.Number(), 0)]),
                          creators := s.creators[t := c.(phase := Publish, result := Some(ref))]));
  }

  /** And announces it: Publish, Unlock. */
  lemma AnnounceInserted(init: State, moves: seq<Move>, t: Tid, ref: Ref) returns (longer: seq<Move>)
    requires After(init, moves).Some? && FreshIds(init, moves)
    requires var s := After(init, moves).value;
             t in s.creators && s.creators[t].phase.Publish? && s.creators[t].result == Some(ref)
    ensures FreshIds(init, longer)
    ensures var s := After(init, moves).value;
            After(init, longer) ==
            Some(s.(base := s.base.(log := s.base.log + [Added(ref)]), mutex := None,
                    creators := s.creators[t := NextLevel(s.creators[t].(phase := Unlock))]))
  {
    var s, own := After(init, moves).value, Create(t, Choice(true, ref.id));
    var c := s.creators[t];
    var base := s.base.(log := s.base.log + [Added(ref)]);
    longer := ExtendTo(init, moves, own, s.(base := base, creators := s.creators[t := c.(phase := Unlock)]));
    longer := ExtendTo(init, longer, own,
        s.(base := base, mutex := None, creators := s.creators[t := NextLevel(c.(phase := Unlock))]));
  }

  /** A collector finds its row childless: Lock, Find. */
  lemma FindChildless(init: State, moves: seq<Move>, t: Tid, p: Ref) returns (longer: seq<Move>)
    requires After(init, moves).Some? && FreshIds(init, moves)
    requires var base := After(init, moves).value.base;
             && t in base.threads && base.threads[t].phase.Lock?
             && var row := base.threads[t].row;
             row !in base.locks && row in base.rows && !HasChild(base.rows, row) && base.rows[row].parent == Some(p)
    ensures FreshIds(init, longer)
    ensures var s := After(init, moves).value;
            var th := s.base.threads[t];
            After(init, longer) ==
            Some(s.(base := C.State(s.base.rows, s.base.locks[th.row := t], s.base.log,
                                    s.base.threads[t := C.Thread(C.Delete, th.row, Some(p), th.held + [th.row])])))
  {
    var s, own := After(init, moves).value, Collect(t);
    var base, th := s.base, s.base.threads[t];
    var locks, held := base.locks[th.row := t], th.held + [th.row];
    var finding, deleting := C.Thread(C.Find, th.row, th.parent, held), C.Thread(C.Delete, th.row, Some(p), held);
    longer := ExtendTo(init, moves, own, s.(base := base.(locks := locks, threads := base.threads[t := finding])));
    longer := ExtendTo(init, longer, own, s.(base := base.(locks := locks, threads := base.threads[t := deleting])));
  }

  /** And deletes it and goes on to the parent: Delete, Publish. */
  lemma DeleteChildless(init: State, moves: seq<Move>, t: Tid, p: Ref) returns (longer: seq<Move>)
    requires After(init, moves).Some? && FreshIds(init, moves)
    requires var base := After(init, moves).value.base;
             t in base.threads && base.threads[t].phase.Delete? && base.threads[t].parent == Some(p)
    ensures FreshIds(init, longer)
    ensures var s := After(init, moves).value;
            var th := s.base.threads[t];
            After(init, longer) ==
            Some(s.(base := C.State(s.base.rows - {th.row}, s.base.locks, s.base.log + [Deleted(th.row)],
                                    s.base.threads[t := C.Thread(C.Lock, p, Some(p), th.held)])))
  {
    var s, own := After(init, moves).value, Collect(t);
    var base, th := s.base, s.base.threads[t];
    var rows, log := base.rows - {th.row}, base.log + [Deleted(th.row)];
    var publishing, waiting := C.Thread(C.Publish, th.row, Some(p), th.held), C.Thread(C.Lock, p, Some(p), th.held);
    longer := ExtendTo(init, moves, own, s.(base := base.(rows := rows, threads := base.threads[t := publishing])));
    longer := ExtendTo(init, longer, own,
        s.(base := base.(rows := rows, log := log, threads := base.threads[t := waiting])));
  }

  /** An episode without files, alone in its season and series, a collector called on it, and a creator
      called for the next episode of the season. */
  const SERIES := Ref(SeriesTable, 1)
  const SEASON := Ref(Seasons, 1)
  const FIRST := Ref(Episodes, 1)
  const SECOND := Ref(Episodes, 2)
  const KEY := EpisodeKey(7, 1, 2)

  function Tables(): Rows {
    map[SERIES := Row(None, 7, 0), SEASON := Row(Some(SERIES), 1, 0), FIRST := Row(Some(SEASON), 1, 0)]
  }

  function RaceStart(): State {
    State(C.State(Tables(), map[], [], map[0 := C.Thread(C.Lock, FIRST, None, [])]),
          map[1 := Creator(Lock, SeriesTable, [], None, KEY)], None)
  }

  lemma RaceStarts()
    ensures Initial(RaceStart())
  {
    assert C.Fresh(Tables(), C.Thread(C.Lock, FIRST, None, []));
  }

  /** The creator gets the series and the season. */
  lemma CreatorGoesFirst() returns (moves: seq<Move>)
    ensures FreshIds(RaceStart(), moves)
    ensures After(RaceStart(), moves) ==
              Some(RaceStart().(creators := map[1 := Creator(Lock, Episodes, [SERIES, SEASON], None, KEY)]))
  {
    assert After(RaceStart(), []) == Some(RaceStart());
    moves := GetExisting(RaceStart(), [], 1, SERIES);
    var s := After(RaceStart(), moves).value;
    assert [] + [SERIES] == [SERIES] && [SERIES] + [SEASON] == [SERIES, SEASON];
    assert s.creators == map[1 := Creator(Lock, Seasons, [SERIES], None, KEY)];
    moves := GetExisting(RaceStart(), moves, 1, SEASON);
    assert After(RaceStart(), moves).value.creators == map[1 := Creator(Lock, Episodes, [SERIES, SEASON], None, KEY)];
  }

  /** The collector's side of a state in which the creator waits for the lock to get the episode. */
  ghost predicate CollectorAt(s: State, rows: Rows, thread: C.Thread, locks: map<Ref, Tid>, log: seq<Event>) {
    && s.base.rows == rows && s.base.threads == map[0 := thread] && s.base.locks == locks && s.base.log == log
    && s.creators == map[1 := Creator(Lock, Episodes, [SERIES, SEASON], None, KEY)] && s.mutex == None
  }

  /** Then the collector deletes the episode. */
  lemma CollectorGoesNext() returns (moves: seq<Move>)
    ensures After(RaceStart(), moves).Some? && FreshIds(RaceStart(), moves)
    ensures CollectorAt(After(RaceStart(), moves).value,
              map[SERIES := Row(None, 7, 0), SEASON := Row(Some(SERIES), 1, 0)],
                        C.Thread(C.Lock, SEASON, Some(SEASON), [FIRST]), map[FIRST := 0], [Deleted(FIRST)])
  {
    moves := CreatorGoesFirst();
    moves := FindChildless(RaceStart(), moves, 0, SEASON);
    assert [] + [FIRST] == [FIRST] && [] + [Deleted(FIRST)] == [Deleted(FIRST)];
    assert CollectorAt(After(RaceStart(), moves).value, Tables(), C.Thread(C.Delete, FIRST, Some(SEASON), [FIRST]),
                       map[FIRST := 0], []);
    moves := DeleteChildless(RaceStart(), moves, 0, SEASON);
  }

  /** And its season. */
  lemma CollectorGoesOn() returns (moves: seq<Move>)
    ensures After(RaceStart(), moves).Some? && FreshIds(RaceStart(), moves)
    ensures CollectorAt(After(RaceStart(), moves).value,
              map[SERIES := Row(None, 7, 0), SEASON := Row(Some(SERIES), 1, 0)],
                        C.Thread(C.Delete, SEASON, Some(SERIES), [FIRST, SEASON]), map[FIRST := 0, SEASON := 0],
                        [Deleted(FIRST)])
  {
    moves := CollectorGoesNext();
    moves := FindChildless(RaceStart(), moves, 0, SERIES);
    assert [FIRST] + [SEASON] == [FIRST, SEASON];
  }

  lemma CollectorGoesUp() returns (moves: seq<Move>)
    ensures After(RaceStart(), moves).Some? && FreshIds(RaceStart(), moves)
    ensures CollectorAt(After(RaceStart(), moves).value, map[SERIES := Row(None, 7, 0)],
                        C.Thread(C.Lock, SERIES, Some(SERIES), [FIRST, SEASON]), map[FIRST := 0, SEASON := 0],
                        [Deleted(FIRST), Deleted(SEASON)])
  {
    moves := CollectorGoesOn();
    moves := DeleteChildless(RaceStart(), moves, 0, SERIES);
    assert [Deleted(FIRST)] + [Deleted(SEASON)] == [Deleted(FIRST), Deleted(SEASON)];
  }

  /** So a creator can finish with an episode whose season a collector deleted between two of its levels. */
  lemma SeasonTakenAway() returns (moves: seq<Move>)
    ensures Initial(RaceStart()) && After(RaceStart(), moves).Some? && FreshIds(RaceStart(), moves)
    ensures var s := After(RaceStart(), moves).value;
            && s.creators == map[1 := Creator(Finished, Episodes, [SERIES, SEASON], Some(SECOND), KEY)]
            && s.base.rows == map[SERIES := Row(None, 7, 0), SECOND := Row(Some(SEASON), 2, 0)]
            && !NamedBy(s.base.rows, KEY, SECOND) && Removed(s.base, SEASON)
  {
    RaceStarts();
    moves := CollectorGoesUp();
    moves := FetchMissing(RaceStart(), moves, 1);
    moves := InsertMissing(RaceStart(), moves, 1, SECOND);
    moves := AnnounceInserted(RaceStart(), moves, 1, SECOND);
    var s := After(RaceStart(), moves).value;
    assert s.creators == map[1 := Creator(Finished, Episodes, [SERIES, SEASON], Some(SECOND), KEY)];
    assert s.base.log[1] == Deleted(SEASON);
  }
}
