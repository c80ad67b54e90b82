/** What getting or creating the rows of a key comes to, level by level from the series down. */
module CreationOutcome {
  import opened Catalog
  import opened GarbageCollection

  datatype Result = Ok(row: Ref) | Failed

  /** A table with the sought row: either it was there and nothing changed, or it was not and exactly
      this row was added. */
  ghost predicate GotOrCreated(before: Rows, after: Rows, r: Ref, table: Table, parent: Option<Ref>, number: int) {
    && HasKey(after, r, table, parent, number)
    && if r in before then after == before
       else after == before[r := Row(parent, number, 0)] && r.id != 0
            && forall x :: !HasKey(before, x, table, parent, number)
  }

  /** `x` is `r` or above it. */
  predicate OnPath(rows: Rows, r: Ref, x: Ref)
    requires WellTyped(rows)
    decreases 4 - Level(r.table)
  {
    x == r || (r in rows && rows[r].parent.Some? && OnPath(rows, rows[r].parent.value, x))
  }

  /** `r` is the row that the key names, and every row that was added is on its path. */
  ghost predicate PathAdded(before: Rows, after: Rows, key: EpisodeKey, r: Ref)
    requires WellTyped(after)
  {
    && NamedBy(after, key, r)
    && (forall x :: x in after && x !in before ==> x.id != 0 && OnPath(after, r, x))
  }

  /** One event for each added row, files apart, from the series down to `table`, and nothing else. */
  ghost predicate AddedDownTo(before: Rows, after: Rows, events: seq<Event>, table: Table) {
    && (forall e :: e in events ==> e.Added? && Level(e.row.table) >= Level(table))
    && (forall i, j :: 0 <= i < j < |events| ==> Level(events[i].row.table) > Level(events[j].row.table))
    && (forall r :: Count(events, Added(r)) == if r in after && r !in before && !IsFile(r) then 1 else 0)
  }

  /** The log grew by such events. */
  ghost predicate AnnouncedAdded(before: Rows, after: Rows, log: seq<Event>, log': seq<Event>, table: Table) {
    log <= log' && AddedDownTo(before, after, log'[|log|..], table)
  }

  lemma AddedThen(before: Rows, mid: Rows, after: Rows, events: seq<Event>, above: Table, r: Ref)
    requires AddedDownTo(before, mid, events, above) && Level(above) > Level(r.table) && !IsFile(r)
    requires Shrunk(mid, before) && r !in mid && after.Keys == mid.Keys + {r}
    ensures AddedDownTo(before, after, events + [Added(r)], r.table)
  {
    var all := events + [Added(r)];
    forall x ensures Count(all, Added(x)) == if x in after && x !in before && !IsFile(x) then 1 else 0 {
      CountAppend(events, Added(r), Added(x));
    }
    forall i, j | 0 <= i < j < |all| ensures Level(all[i].row.table) > Level(all[j].row.table) {
      assert all[i] == events[i] && events[i] in events;
    }
  }

  /** One more row is found, or inserted and announced, below those announced so far; or neither. */
  lemma AnnouncedThen(r0: Rows, r1: Rows, r2: Rows, l0: seq<Event>, l1: seq<Event>, above: Table, table: Table,
      r: Result)
    requires Shrunk(r1, r0) && AnnouncedAdded(r0, r1, l0, l1, above) && Level(above) > Level(table) > 0
    requires match r
             case Ok(x) => x.table == table && if x in r1 then r2 == r1 else r2.Keys == r1.Keys + {x} && Shrunk(r2, r1)
             case Failed => r2 == r1
    ensures AnnouncedAdded(r0, r2, l0, l1 + if r.Ok? && r.row !in r1 then [Added(r.row)] else [], table)
  {
    var l2 := l1 + if r.Ok? && r.row !in r1 then [Added(r.row)] else [];
    if r.Ok? && r.row !in r1 {
      AddedThen(r0, r1, r2, l1[|l0|..], above, r.row);
      assert l2[|l0|..] == l1[|l0|..] + [Added(r.row)];
    } else {
      assert l2 == l1;
      AnnouncedAbove(r0, r1, l0, l1, above, table);
    }
  }

  lemma AnnouncedAbove(before: Rows, after: Rows, log: seq<Event>, log': seq<Event>, above: Table, table: Table)
    requires AnnouncedAdded(before, after, log, log', above) && Level(above) >= Level(table)
    ensures AnnouncedAdded(before, after, log, log', table)
  {
  }

  lemma AnnouncedSeries(before: Rows, after: Rows, log: seq<Event>, log': seq<Event>, r: Result)
    requires match r
             case Ok(x) =>
               && x.table.SeriesTable? && Shrunk(after, before)
               && after.Keys == before.Keys + {x} && log' == log + if x in before then [] else [Added(x)]
             case Failed => after == before && log' == log
    ensures AnnouncedAdded(before, after, log, log', SeriesTable)
  {
    if r.Ok? && r.row !in before {
      var events := log'[|log|..];
      assert events == [Added(r.row)];
      forall x ensures Count(events, Added(x)) == if x in after && x !in before && !IsFile(x) then 1 else 0 {
        CountAppend([], Added(r.row), Added(x));
      }
    } else {
      assert log'[|log|..] == [];
    }
  }

  /** Getting or creating the next row below extends the path. */
  lemma PathExtends(before: Rows, mid: Rows, after: Rows, key: EpisodeKey, p: Ref, r: Ref, number: int)
    requires WellTyped(mid) && WellTyped(after) && PathAdded(before, mid, key, p)
    requires GotOrCreated(mid, after, r, r.table, Some(p), number)
    requires || (r.table.Seasons? && p.table.SeriesTable? && number == key.seasonNumber)
             || (r.table.Episodes? && p.table.Seasons? && number == key.episodeNumber)
    ensures PathAdded(before, after, key, r)
  {
    NamedByGrows(mid, after, key, p);
    forall x | x in after && x !in before ensures x.id != 0 && OnPath(after, r, x) {
      if x != r {
        OnPathGrows(mid, after, p, x);
      }
    }
  }

  lemma {:induction false} OnPathGrows(rows: Rows, rows': Rows, r: Ref, x: Ref)
    requires WellTyped(rows) && WellTyped(rows') && Shrunk(rows', rows) && OnPath(rows, r, x)
    ensures OnPath(rows', r, x)
    decreases 4 - Level(r.table)
  {
    if x != r {
      OnPathGrows(rows, rows', rows[r].parent.value, x);
    }
  }

  /** Nothing was added above a row that was there already; an added row is still without children; and
      a failure that left something behind left a childless row. */
  ghost predicate Accounted(before: Rows, after: Rows, r: Result) {
    && ParentsPresent(after)
    && match r
       case Ok(x) => if x in before then after == before else !HasChild(after, x)
       case Failed => after == before || !Tight(after)
  }

  lemma AccountedNext(before: Rows, mid: Rows, after: Rows, p: Ref, r: Result, table: Table, number: int)
    requires ParentsPresent(before) && Shrunk(mid, before) && p in mid && !IsFile(p)
    requires Accounted(before, mid, Ok(p))
    requires match r
             case Ok(x) => GotOrCreated(mid, after, x, table, Some(p), number)
             case Failed => after == mid
    ensures Accounted(before, after, r)
  {
  }

  /** Inserting a row under a key that is not taken. */
  lemma InsertedRow(rows: Rows, ref: Ref, parent: Option<Ref>, number: int)
    requires WellTyped(rows) && ref !in rows && ref.id != 0 && !IsFile(ref)
    requires parent.Some? == ParentTable(ref.table).Some?
    requires parent.Some? ==> parent.value.table == ParentTable(ref.table).value
    requires forall r :: !HasKey(rows, r, ref.table, parent, number)
    ensures var after := rows[ref := Row(parent, number, 0)];
            && WellTyped(after) && (Unique(rows) ==> Unique(after))
            && (ParentsPresent(rows) && (parent.Some? ==> parent.value in rows) ==> ParentsPresent(after))
  {
    if Unique(rows) {
      InsertKeeps(rows, ref, parent, number);
    }
  }

  // ----- when it fails, and what a failure leaves -----

  /** What one level does: find the row, insert it, or fail.  `fails` lists the tables for which the agent
      or the insertion fails. */
  ghost predicate FoundOrInserted(before: Rows, after: Rows, r: Result, table: Table, parent: Option<Ref>, number: int,
                                  fails: set<Table>) {
    match r
    case Ok(x) => GotOrCreated(before, after, x, table, parent, number) && (x in before || table !in fails)
    case Failed => after == before && table in fails && forall x :: !HasKey(before, x, table, parent, number)
  }

  ghost predicate Present(rows: Rows, key: EpisodeKey, table: Table) {
    exists r: Ref :: r.table == table && NamedBy(rows, key, r)
  }

  /** The first level of the key's path, from the series down, that has no row. */
  ghost function FirstMissing(rows: Rows, key: EpisodeKey): Option<Table> {
    if !Present(rows, key, SeriesTable) then Some(SeriesTable)
    else if !Present(rows, key, Seasons) then Some(Seasons)
    else if !Present(rows, key, Episodes) then Some(Episodes)
    else None
  }

  /** The levels from the series down to `table`. */
  function DownTo(table: Table): set<Table> {
    match table
    case SeriesTable => {SeriesTable}
    case Seasons => {SeriesTable, Seasons}
    case Episodes => {SeriesTable, Seasons, Episodes}
    case _ => {}
  }

  /** A level that has to be created cannot be. */
  ghost predicate MustFail(rows: Rows, key: EpisodeKey, table: Table, fails: set<Table>) {
    exists t :: t in DownTo(table) && t in fails && !Present(rows, key, t)
  }

  /** It fails exactly if a level without a row cannot be created, and then leaves everything as it was
      exactly if that is the first level without a row. */
  ghost predicate FailsExactly(before: Rows, after: Rows, key: EpisodeKey, table: Table, fails: set<Table>, r: Result) {
    && (r.Failed? <==> MustFail(before, key, table, fails))
    && (r.Failed? ==>
          (after == before <==> FirstMissing(before, key).Some? && FirstMissing(before, key).value in fails))
  }

  /** Only rows that the key names are added, and none of a table that fails. */
  ghost predicate OnlyAdded(before: Rows, after: Rows, key: EpisodeKey, fails: set<Table>) {
    forall x :: x in after && x !in before ==> NamedBy(after, key, x) && x.table !in fails
  }

  lemma SeriesFailsExactly(before: Rows, after: Rows, key: EpisodeKey, fails: set<Table>, r: Result)
    requires FoundOrInserted(before, after, r, SeriesTable, None, key.seriesTmdbID, fails)
    ensures FailsExactly(before, after, key, SeriesTable, fails, r) && OnlyAdded(before, after, key, fails)
  {
    if r.Ok? && r.row in before {
      assert NamedBy(before, key, r.row);
    }
    if r.Failed? && Present(before, key, SeriesTable) {
      var x: Ref :| x.table.SeriesTable? && NamedBy(before, key, x);
      assert HasKey(before, x, SeriesTable, None, key.seriesTmdbID);
      assert false;
    }
  }

  /** The number of the key at a level. */
  function NumberAt(key: EpisodeKey, table: Table): int {
    match table
    case SeriesTable => key.seriesTmdbID
    case Seasons => key.seasonNumber
    case _ => key.episodeNumber
  }

  /** The row a key names at the level below `p` has `p` as its parent, if keys are unique. */
  lemma NamedBelow(before: Rows, mid: Rows, key: EpisodeKey, p: Ref, table: Table, x: Ref)
    requires Unique(mid) && Shrunk(mid, before) && NamedBy(mid, key, p)
    requires (table.Seasons? && p.table.SeriesTable?) || (table.Episodes? && p.table.Seasons?)
    requires x.table == table && NamedBy(before, key, x)
    ensures HasKey(mid, x, table, Some(p), NumberAt(key, table)) && p in before && NamedBy(before, key, p)
  {
    var q := before[x].parent.value;
    NamedByGrows(before, mid, key, q);
    NamesOne(mid, key, q, p);
  }

  /** A row found below `p` was there before, and so was `p`. */
  lemma FoundBelow(before: Rows, mid: Rows, key: EpisodeKey, p: Ref, table: Table, x: Ref)
    requires ParentsPresent(before) && Shrunk(mid, before) && NamedBy(mid, key, p) && Accounted(before, mid, Ok(p))
    requires (table.Seasons? && p.table.SeriesTable?) || (table.Episodes? && p.table.Seasons?)
    requires HasKey(mid, x, table, Some(p), NumberAt(key, table))
    ensures mid == before && NamedBy(before, key, x)
  {
    if p !in before {
      assert HasChild(mid, p);
      assert false;
    }
  }

  lemma BelowFailsExactly(before: Rows, mid: Rows, after: Rows, key: EpisodeKey, p: Ref, table: Table,
      fails: set<Table>, r: Result)
    requires Unique(mid) && Shrunk(mid, before) && ParentsPresent(before)
    requires (table.Seasons? && p.table.SeriesTable?) || (table.Episodes? && p.table.Seasons?)
    requires NamedBy(mid, key, p) && Accounted(before, mid, Ok(p))
             && FailsExactly(before, mid, key, p.table, fails, Ok(p))
    requires FoundOrInserted(mid, after, r, table, Some(p), NumberAt(key, table), fails)
    ensures FailsExactly(before, after, key, table, fails, r)
  {
    if Present(before, key, table) {
      var x: Ref :| x.table == table && NamedBy(before, key, x);
      NamedBelow(before, mid, key, p, table, x);
    }
    if r.Ok? && r.row in mid {
      FoundBelow(before, mid, key, p, table, r.row);
      assert Present(before, key, table);
    }
    AboveArePresent(before, key, p.table);
    if p in before {
      assert mid == before && Present(before, key, p.table);
    } else if Present(before, key, p.table) {
      var q: Ref :| q.table == p.table && NamedBy(before, key, q);
      NamedByGrows(before, mid, key, q);
      NamesOne(mid, key, q, p);
      assert false;
    }
    assert DownTo(table) == DownTo(p.table) + {table};
  }

  lemma EpisodeHasSeason(rows: Rows, key: EpisodeKey, x: Ref)
    requires NamedBy(rows, key, x)
    ensures x.table.Episodes? ==> exists q :: q in rows && q.table.Seasons?
    ensures x.table.Episodes? || x.table.Seasons? || x.table.SeriesTable?
  {
    if x.table.Episodes? {
      assert NamedBy(rows, key, rows[x].parent.value);
    }
  }

  lemma AboveArePresent(rows: Rows, key: EpisodeKey, table: Table)
    ensures Present(rows, key, table) && table.Episodes? ==> Present(rows, key, Seasons)
    ensures Present(rows, key, table) && table.Seasons? ==> Present(rows, key, SeriesTable)
  {
    if Present(rows, key, table) && (table.Episodes? || table.Seasons?) {
      var x: Ref :| x.table == table && NamedBy(rows, key, x);
      assert NamedBy(rows, key, rows[x].parent.value);
    }
  }

  lemma OnlyAddedBelow(before: Rows, mid: Rows, after: Rows, key: EpisodeKey, p: Ref, table: Table, fails: set<Table>,
      r: Result)
    requires Shrunk(mid, before) && OnlyAdded(before, mid, key, fails) && NamedBy(mid, key, p)
    requires (table.Seasons? && p.table.SeriesTable?) || (table.Episodes? && p.table.Seasons?)
    requires FoundOrInserted(mid, after, r, table, Some(p), NumberAt(key, table), fails)
    ensures OnlyAdded(before, after, key, fails)
  {
    forall x | x in after && x !in before ensures NamedBy(after, key, x) && x.table !in fails {
      if x in mid {
        NamedByGrows(mid, after, key, x);
      } else {
        NamedByGrows(mid, after, key, p);
      }
    }
  }

  /** All of this together, for the season or episode that is found, inserted or neither below `p`. */
  lemma NextLevel(r0: Rows, r1: Rows, r2: Rows, l0: seq<Event>, l1: seq<Event>, key: EpisodeKey, p: Ref, table: Table,
      fails: set<Table>, r: Result)
    requires AnnouncedAdded(r0, r1, l0, l1, p.table)
    requires WellTyped(r1) && WellTyped(r2) && Shrunk(r1, r0) && PathAdded(r0, r1, key, p)
    requires (table.Seasons? && p.table.SeriesTable?) || (table.Episodes? && p.table.Seasons?)
    requires OnlyAdded(r0, r1, key, fails) && (ParentsPresent(r0) ==> Accounted(r0, r1, Ok(p)))
    requires Unique(r0) ==> Unique(r1)
    requires Unique(r0) && ParentsPresent(r0) ==> FailsExactly(r0, r1, key, p.table, fails, Ok(p))
    requires FoundOrInserted(r1, r2, r, table, Some(p), NumberAt(key, table), fails)
    ensures AnnouncedAdded(r0, r2, l0, l1 + if r.Ok? && r.row !in r1 then [Added(r.row)] else [], table)
    ensures Shrunk(r2, r0) && OnlyAdded(r0, r2, key, fails) && (r.Ok? ==> PathAdded(r0, r2, key, r.row))
    ensures ParentsPresent(r0) ==> Accounted(r0, r2, r)
    ensures Unique(r0) && ParentsPresent(r0) ==> FailsExactly(r0, r2, key, table, fails, r)
  {
    AnnouncedThen(r0, r1, r2, l0, l1, p.table, table, r);
    if r.Ok? {
      PathExtends(r0, r1, r2, key, p, r.row, NumberAt(key, table));
    }
    OnlyAddedBelow(r0, r1, r2, key, p, table, fails, r);
    if ParentsPresent(r0) {
      AccountedNext(r0, r1, r2, p, r, table, NumberAt(key, table));
      if Unique(r0) {
        BelowFailsExactly(r0, r1, r2, key, p, table, fails, r);
      }
    }
  }

  /** A failure above is a failure of the level below as well. */
  lemma FailedAbove(r0: Rows, r1: Rows, key: EpisodeKey, above: Table, table: Table, fails: set<Table>)
    requires (table.Seasons? && above.SeriesTable?) || (table.Episodes? && above.Seasons?)
    ensures FailsExactly(r0, r1, key, above, fails, Failed) ==> FailsExactly(r0, r1, key, table, fails, Failed)
  {
    if MustFail(r0, key, above, fails) {
      var t :| t in DownTo(above) && t in fails && !Present(r0, key, t);
      assert t in DownTo(table);
    }
  }

  /** The episode, its season and its series have the three numbers of the key. */
  predicate HasNumbers(rows: Rows, episode: Ref, key: EpisodeKey) {
    && episode in rows && rows[episode].number == key.episodeNumber && rows[episode].parent.Some?
    && var season := rows[episode].parent.value;
    && season in rows && rows[season].number == key.seasonNumber && rows[season].parent.Some?
    && var series := rows[season].parent.value;
    series in rows && rows[series].number == key.seriesTmdbID
  }

  lemma NamedHasNumbers(rows: Rows, key: EpisodeKey, r: Ref)
    requires NamedBy(rows, key, r) && r.table.Episodes?
    ensures HasNumbers(rows, r, key)
  {
    var season := rows[r].parent.value;
    assert NamedBy(rows, key, season) && NamedBy(rows, key, rows[season].parent.value);
  }

  // ----- identifying a file -----

  lemma FileNames(rows: Rows, file: Ref, episode: Ref)
    requires file in rows && file.table == EpisodeFiles && episode.table == Episodes
    ensures var after := rows[file := rows[file].(parent := Some(episode))];
            && (WellTyped(rows) ==> WellTyped(after))
            && (Unique(rows) ==> Unique(after))
  {
    var after := rows[file := rows[file].(parent := Some(episode))];
    forall a, b | Unique(rows) && a in after && b in after && SameKey(after, a, b) ensures a == b {
      assert SameKey(rows, a, b);
    }
  }

  ghost predicate SameButFiles(a: Rows, b: Rows) {
    forall r :: !IsFile(r) ==> (r in a <==> r in b) && (r in a ==> a[r] == b[r])
  }

  lemma {:induction false} NamedByIgnoresFiles(a: Rows, b: Rows, key: EpisodeKey, r: Ref)
    requires SameButFiles(a, b) && NamedBy(a, key, r)
    ensures NamedBy(b, key, r)
    decreases 4 - Level(r.table)
  {
    if !r.table.SeriesTable? {
      NamedByIgnoresFiles(a, b, key, a[r].parent.value);
    }
  }

  lemma PresentIgnoresFiles(a: Rows, b: Rows, key: EpisodeKey, table: Table)
    requires SameButFiles(a, b) && Present(a, key, table)
    ensures Present(b, key, table)
  {
    var r: Ref :| r.table == table && NamedBy(a, key, r);
    NamedByIgnoresFiles(a, b, key, r);
  }

  lemma MustFailIgnoresFiles(a: Rows, b: Rows, key: EpisodeKey, table: Table, fails: set<Table>)
    requires SameButFiles(a, b) && MustFail(a, key, table, fails)
    ensures MustFail(b, key, table, fails)
  {
    var t :| t in DownTo(table) && t in fails && !Present(a, key, t);
    if Present(b, key, t) {
      PresentIgnoresFiles(b, a, key, t);
    }
  }

  /** `mid` has the path of the key, and in `after` the file names the episode at its end. */
  ghost predicate IdentifiedAs(before: Rows, mid: Rows, after: Rows, key: EpisodeKey, file: Ref, episode: Ref) {
    && WellTyped(mid) && Shrunk(mid, before) && file in mid && file.table == EpisodeFiles
    && episode.table == Episodes && PathAdded(before, mid, key, episode)
    && (ParentsPresent(before) ==> ParentsPresent(mid))
    && after == mid[file := mid[file].(parent := Some(episode))]
  }

  lemma {:induction false} PathRow(rows: Rows, r: Ref, x: Ref)
    requires WellTyped(rows) && OnPath(rows, r, x) && !IsFile(r)
    ensures !IsFile(x)
    ensures x != r ==> exists c :: c in rows && !IsFile(c) && rows[c].parent == Some(x)
    decreases 4 - Level(r.table)
  {
    if x != r {
      var p := rows[r].parent.value;
      PathRow(rows, p, x);
    }
  }

  /** Identifying a new file keeps the tables tight and complete, and adds no other file. */
  lemma IdentifiedIsTight(before: Rows, mid: Rows, after: Rows, key: EpisodeKey, file: Ref, episode: Ref)
    requires Tight(before - {file}) && ParentsPresent(before) && file in before
    requires IdentifiedAs(before, mid, after, key, file, episode)
    ensures Tight(after) && ParentsPresent(after) && FilesOf(after) == FilesOf(before)
    ensures Shrunk(after, before - {file})
  {
    forall x | x in mid && x !in before
      ensures !IsFile(x) && (x != episode ==> exists c :: c in mid && !IsFile(c) && mid[c].parent == Some(x))
    {
      PathRow(mid, episode, x);
    }
    forall x | x in after && !IsFile(x) ensures HasChild(after, x) {
      if x == episode {
        assert after[file].parent == Some(x);
      } else if x in before {
        assert HasChild(before - {file}, x);
        var c :| c in before - {file} && before[c].parent == Some(x);
        assert after[c].parent == Some(x);
      } else {
        var c :| c in mid && !IsFile(c) && mid[c].parent == Some(x);
        assert after[c].parent == Some(x);
      }
    }
  }
}
