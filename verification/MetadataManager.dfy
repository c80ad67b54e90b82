/** metadata/managers/metadata/series.go and movies.go: the manager's methods, each run without
    interruption, on the tables and the event log. */
module MetadataManagement {
  import opened Catalog
  import opened GarbageCollection
  import opened EpisodeSweep
  import opened CreationOutcome

  lemma FreshIdExists(rows: Rows, table: Table)
    ensures exists id: nat :: id != 0 && Ref(table, id) !in rows
  {
    var ids := set r | r in rows && r.table == table :: r.id;
    var bound := UpperBound(ids);
    assert forall r :: r in rows && r.table == table ==> r.id in ids;
    assert Ref(table, bound + 1) !in rows;
  }

  lemma {:induction false} UpperBound(ids: set<nat>) returns (bound: nat)
    ensures forall id :: id in ids ==> id <= bound
  {
    if ids == {} {
      bound := 0;
    } else {
      var id :| id in ids;
      var rest := UpperBound(ids - {id});
      bound := if id > rest then id else rest;
      assert forall x :: x in ids ==> x == id || x in ids - {id};
    }
  }

  class MetadataManager {
    var rows: Rows
    var log: seq<Event>

    predicate Valid()
      reads this
    {
      WellTyped(rows)
    }

    // ----- garbage collection -----

    method GarbageCollectEpisodeIfRequired(episodeID: nat)
      requires Valid()
      modifies this
      ensures Valid()
      ensures rows == Collected(old(rows), Ref(Episodes, episodeID))
      ensures log == old(log) + CollectEvents(old(rows), Ref(Episodes, episodeID))
    {
      CollectedShrinks(rows, Ref(Episodes, episodeID));
      var episode := Ref(Episodes, episodeID);
      if episode !in rows {
        return;
      }
      if HasChild(rows, episode) {
        return;
      }
      var seasonRef := rows[episode].parent.value;
      CollectedUp(rows, episode);
      rows := rows - {episode};
      log := log + [Deleted(episode)];

      if seasonRef !in rows {
        return;
      }
      if HasChild(rows, seasonRef) {
        return;
      }
      var seriesRef := rows[seasonRef].parent.value;
      CollectedUp(rows, seasonRef);
      rows := rows - {seasonRef};
      log := log + [Deleted(seasonRef)];

      if seriesRef !in rows {
        return;
      }
      if HasChild(rows, seriesRef) {
        return;
      }
      rows := rows - {seriesRef};
      log := log + [Deleted(seriesRef)];
    }

    /** One call for each episode, in the order the database happens to return them: what remains are
        the rows that had nothing below them, episodes apart, and what is above those. */
    method GarbageCollectAllEpisodes()
      requires Valid()
      modifies this
      ensures Valid()
      ensures rows == Swept(old(rows))
      ensures LogAnnounces(old(rows), rows, old(log), log)
    {
      ghost var before, log0 := rows, log;
      var episodes := set r | r in rows && r.table.Episodes?;
      while episodes != {}
        invariant Valid() && SweptSoFar(before, rows, None)
        invariant forall e :: e in episodes ==> e.table.Episodes?
        invariant forall e :: e in rows && e.table.Episodes? && e !in episodes ==> Checked(rows, e)
        invariant LogAnnounces(before, rows, log0, log)
        decreases episodes
      {
        var episode :| episode in episodes;
        CollectedSweeps(before, rows, episode);
        CollectedShrinks(rows, episode);
        CollectionAnnounced(before, rows, rows, episode, log0, log);
        forall e | e in rows && e.table.Episodes? && e !in episodes ensures Checked(Collected(rows, episode), e) {
          StillChecked(rows, episode, e);
        }
        GarbageCollectEpisodeIfRequired(episode.id);
        episodes := episodes - {episode};
      }
      SweepOutcome(before, rows);
    }

    method GarbageCollectMovieIfRequired(movieID: nat)
      requires Valid()
      modifies this
      ensures Valid()
      ensures rows == Collected(old(rows), Ref(Movies, movieID))
      ensures log == old(log) + CollectEvents(old(rows), Ref(Movies, movieID))
    {
      var movie := Ref(Movies, movieID);
      if movie !in rows {
        return;
      }
      if HasChild(rows, movie) {
        return;
      }
      rows := rows - {movie};
      log := log + [Deleted(movie)];
    }

    // ----- creation -----

    /** Find a row by its key or insert it; `fails` lists the tables for which the agent or the insertion
        fails.  The source writes this out once per table. */
    method FindOrInsert(table: Table, parent: Option<Ref>, number: int, fails: set<Table>) returns (r: Result)
      requires Valid() && Level(table) > 0
      requires parent.Some? == ParentTable(table).Some?
               && (parent.Some? ==> parent.value.table == ParentTable(table).value)
      modifies this
      ensures Valid()
      ensures FoundOrInserted(old(rows), rows, r, table, parent, number, fails)
      ensures log == old(log) + if r.Ok? && r.row !in old(rows) then [Added(r.row)] else []
      ensures Unique(old(rows)) ==> Unique(rows)
      ensures ParentsPresent(old(rows)) && (parent.Some? ==> parent.value in old(rows)) ==> ParentsPresent(rows)
    {
      if x :| x in rows && HasKey(rows, x, table, parent, number) {
        return Ok(x);
      }
      assert forall x :: !HasKey(rows, x, table, parent, number);
      if table in fails {
        return Failed;
      }
      FreshIdExists(rows, table);
      var id: nat :| id != 0 && Ref(table, id) !in rows;
      InsertedRow(rows, Ref(table, id), parent, number);
      rows := rows[Ref(table, id) := Row(parent, number, 0)];
      log := log + [Added(Ref(table, id))];
      return Ok(Ref(table, id));
    }

    method GetOrCreateMovieByTmdbID(tmdbID: int, fails: set<Table>) returns (r: Result)
      requires Valid()
      modifies this
      ensures Valid() && (Unique(old(rows)) ==> Unique(rows))
      ensures FoundOrInserted(old(rows), rows, r, Movies, None, tmdbID, fails)
      ensures match r
              case Ok(x) =>
                && x in rows && x.table == Movies && rows[x].number == tmdbID
                && rows == if x in old(rows) then old(rows) else old(rows)[x := Row(None, tmdbID, 0)]
              case Failed => rows == old(rows)
      ensures log == old(log) + if r.Ok? && r.row !in old(rows) then [Added(r.row)] else []
    {
      r := FindOrInsert(Movies, None, tmdbID, fails);
    }

    method GetOrCreateSeriesByTmdbID(key: EpisodeKey, fails: set<Table>) returns (r: Result)
      requires Valid()
      modifies this
      ensures Valid() && (Unique(old(rows)) ==> Unique(rows))
      ensures Shrunk(rows, old(rows)) && AnnouncedAdded(old(rows), rows, old(log), log, SeriesTable)
      ensures r.Ok? ==> r.row.table.SeriesTable? && PathAdded(old(rows), rows, key, r.row)
      ensures OnlyAdded(old(rows), rows, key, fails)
      ensures Unique(old(rows)) && ParentsPresent(old(rows)) ==>
                FailsExactly(old(rows), rows, key, SeriesTable, fails, r)
      ensures r.Failed? ==> SeriesTable in fails && rows == old(rows)
      ensures ParentsPresent(old(rows)) ==> Accounted(old(rows), rows, r)
    {
      ghost var before, log0 := rows, log;
      r := FindOrInsert(SeriesTable, None, key.seriesTmdbID, fails);
      AnnouncedSeries(before, rows, log0, log, r);
      SeriesFailsExactly(before, rows, key, fails, r);
    }

    method GetOrCreateSeasonByTmdbID(key: EpisodeKey, fails: set<Table>) returns (r: Result)
      requires Valid()
      modifies this
      ensures Valid() && (Unique(old(rows)) ==> Unique(rows))
      ensures Shrunk(rows, old(rows)) && AnnouncedAdded(old(rows), rows, old(log), log, Seasons)
      ensures r.Ok? ==> r.row.table.Seasons? && PathAdded(old(rows), rows, key, r.row)
      ensures OnlyAdded(old(rows), rows, key, fails)
      ensures Unique(old(rows)) && ParentsPresent(old(rows)) ==> FailsExactly(old(rows), rows, key, Seasons, fails, r)
      ensures r.Failed? ==> SeriesTable in fails || Seasons in fails
      ensures ParentsPresent(old(rows)) ==> Accounted(old(rows), rows, r)
    {
      ghost var rows0, log0 := rows, log;
      var series := GetOrCreateSeriesByTmdbID(key, fails);
      if series.Failed? {
        AnnouncedAbove(rows0, rows, log0, log, SeriesTable, Seasons);
        FailedAbove(rows0, rows, key, SeriesTable, Seasons, fails);
        return Failed;
      }
      ghost var rows1, log1 := rows, log;
      r := FindOrInsert(Seasons, Some(series.row), key.seasonNumber, fails);
      NextLevel(rows0, rows1, rows, log0, log1, key, series.row, Seasons, fails, r);
    }

    /** On success the result is the row the key names; every added row is on its path, and each was
        announced once.  A failure may leave the upper part of the path behind. */
    method GetOrCreateEpisodeByTmdbID(key: EpisodeKey, fails: set<Table>) returns (r: Result)
      requires Valid()
      modifies this
      ensures Valid() && (Unique(old(rows)) ==> Unique(rows))
      ensures Shrunk(rows, old(rows)) && AnnouncedAdded(old(rows), rows, old(log), log, Episodes)
      ensures r.Ok? ==> r.row.table.Episodes? && PathAdded(old(rows), rows, key, r.row) && HasNumbers(rows, r.row, key)
      ensures OnlyAdded(old(rows), rows, key, fails)
      ensures Unique(old(rows)) && ParentsPresent(old(rows)) ==> FailsExactly(old(rows), rows, key, Episodes, fails, r)
      ensures r.Failed? ==> fails != {}
      ensures ParentsPresent(old(rows)) ==> Accounted(old(rows), rows, r)
    {
      ghost var rows0, log0 := rows, log;
      var season := GetOrCreateSeasonByTmdbID(key, fails);
      if season.Failed? {
        AnnouncedAbove(rows0, rows, log0, log, Seasons, Episodes);
        FailedAbove(rows0, rows, key, Seasons, Episodes, fails);
        return Failed;
      }
      ghost var rows1, log1 := rows, log;
      r := FindOrInsert(Episodes, Some(season.row), key.episodeNumber, fails);
      NextLevel(rows0, rows1, rows, log0, log1, key, season.row, Episodes, fails, r);
      if r.Ok? {
        NamedHasNumbers(rows, key, r.row);
      }
    }

    /** `key` is what the file's attributes or name yield.  An identified file names the episode of the
        key; otherwise it stays as it was. */
    method GetOrCreateEpisodeForEpisodeFile(file: Ref, key: Option<EpisodeKey>, fails: set<Table>) returns (r: Result)
      requires Valid() && file in rows && file.table == EpisodeFiles
      modifies this
      ensures Valid() && (Unique(old(rows)) ==> Unique(rows))
      ensures old(rows)[file].parent.value.id != 0 ==>
                rows == old(rows)
                    && r == (if old(rows)[file].parent.value in rows then Ok(old(rows)[file].parent.value) else Failed)
      ensures old(rows)[file].parent.value.id == 0 ==>
                match r
                case Ok(episode) =>
                  && key.Some?
                  && exists mid :: IdentifiedAs(old(rows), mid, rows, key.value, file, episode)
                case Failed =>
                  && (key == None || fails != {})
                  && Shrunk(rows, old(rows)) && (ParentsPresent(old(rows)) ==> rows == old(rows) || !Tight(rows))
      ensures old(rows)[file].parent.value.id == 0 && key == None ==> rows == old(rows) && r.Failed?
      ensures old(rows)[file].parent.value.id == 0 && key.Some? && Unique(old(rows)) && ParentsPresent(old(rows)) ==>
                FailsExactly(old(rows), rows, key.value, Episodes, fails, r)
      ensures AnnouncedAdded(old(rows), rows, old(log), log, Episodes)
    {
      if rows[file].parent.value.id != 0 {
        var episode := rows[file].parent.value;
        return if episode in rows then Ok(episode) else Failed;
      }
      if key == None {
        return Failed;
      }
      ghost var before := rows;
      r := GetOrCreateEpisodeByTmdbID(key.value, fails);
      if r.Ok? {
        ghost var mid := rows;
        FileNames(mid, file, r.row);
        rows := rows[file := rows[file].(parent := Some(r.row))];
        assert IdentifiedAs(before, mid, rows, key.value, file, r.row);
      }
    }
  }

  /** On empty tables, with the season failing: the series that was created for it stays behind. */
  method SeriesLeftBehind(m: MetadataManager, key: EpisodeKey) returns (series: Ref)
    requires m.rows == map[]
    modifies m
    ensures m.rows.Keys == {series} && series.table.SeriesTable? && NamedBy(m.rows, key, series) && !Tight(m.rows)
  {
    ghost var before := m.rows;
    assert FirstMissing(before, key) == Some(SeriesTable) && !Present(before, key, Seasons);
    assert Seasons in DownTo(Episodes);
    var r := m.GetOrCreateEpisodeByTmdbID(key, {Seasons});
    assert MustFail(before, key, Episodes, {Seasons});
    assert r.Failed?;
    assert m.rows != before;
    forall x | x in m.rows ensures x.table.SeriesTable? {
      EpisodeHasSeason(m.rows, key, x);
    }
    series :| series in m.rows;
    forall x | x in m.rows ensures x == series {
      NamesOne(m.rows, key, x, series);
    }
  }
}
