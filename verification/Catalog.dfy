/** The metadata tables (metadata/db/series.go, metadata/db/movies.go) as one finite map from row
    references to rows.  Every row but a series or a movie names its parent; a media file names the
    episode or movie it was identified as (id 0 when it was not). */
module Catalog {

  datatype Option<+T> = None | Some(value: T)

  datatype Table = EpisodeFiles | MovieFiles | Episodes | Movies | Seasons | SeriesTable

  datatype Ref = Ref(table: Table, id: nat)

  /** `number` is the TMDB id of a series or movie and the number of a season or episode;
      `library` matters for media files only. */
  datatype Row = Row(parent: Option<Ref>, number: int, library: nat)

  type Rows = map<Ref, Row>

  datatype Event = Added(row: Ref) | Deleted(row: Ref)

  function Level(table: Table): nat {
    match table
    case EpisodeFiles | MovieFiles => 0
    case Episodes => 1
    case Seasons => 2
    case Movies | SeriesTable => 3
  }

  predicate IsFile(r: Ref) {
    Level(r.table) == 0
  }

  /** The schema: which table the parent of a row is in. */
  function ParentTable(table: Table): Option<Table> {
    match table
    case EpisodeFiles => Some(Episodes)
    case MovieFiles => Some(Movies)
    case Episodes => Some(Seasons)
    case Seasons => Some(SeriesTable)
    case Movies | SeriesTable => None
  }

  predicate WellTyped(rows: Rows) {
    forall r :: r in rows ==>
      && rows[r].parent.Some? == ParentTable(r.table).Some?
      && (rows[r].parent.Some? ==> rows[r].parent.value.table == ParentTable(r.table).value)
  }

  predicate HasChild(rows: Rows, r: Ref) {
    exists c :: c in rows && rows[c].parent == Some(r)
  }

  /** Every episode has a file, every season an episode, every series a season, every movie a file. */
  predicate Tight(rows: Rows) {
    forall r :: r in rows && !IsFile(r) ==> HasChild(rows, r)
  }

  /** `rows` came out of `before` by deleting rows. */
  predicate Shrunk(before: Rows, rows: Rows) {
    forall r :: r in rows ==> r in before && rows[r] == before[r]
  }

  /** No row of `rows` points at a row of `before` that has been removed. */
  predicate NoneOrphaned(before: Rows, rows: Rows) {
    forall r :: r in rows && rows[r].parent.Some? && rows[r].parent.value in before ==> rows[r].parent.value in rows
  }

  function FilesOf(rows: Rows): set<Ref> {
    set r | r in rows && IsFile(r)
  }

  // ----- keys -----

  /** The three numbers that identify an episode on TMDB. */
  datatype EpisodeKey = EpisodeKey(seriesTmdbID: int, seasonNumber: int, episodeNumber: int)

  predicate HasKey(rows: Rows, r: Ref, table: Table, parent: Option<Ref>, number: int) {
    r in rows && r.table == table && rows[r].parent == parent && rows[r].number == number
  }

  predicate SameKey(rows: Rows, a: Ref, b: Ref)
    requires a in rows && b in rows
  {
    !IsFile(a) && a.table == b.table && rows[a].parent == rows[b].parent && rows[a].number == rows[b].number
  }

  /** Series and movies per TMDB id, seasons per series and number, episodes per season and number. */
  predicate Unique(rows: Rows) {
    forall a, b :: a in rows && b in rows && SameKey(rows, a, b) ==> a == b
  }

  /** `r` and its ancestors are the rows that the key names. */
  ghost predicate NamedBy(rows: Rows, key: EpisodeKey, r: Ref)
    decreases 4 - Level(r.table)
  {
    && r in rows
    && match r.table
       case SeriesTable => rows[r].parent == None && rows[r].number == key.seriesTmdbID
       case Seasons =>
         && rows[r].number == key.seasonNumber
         && rows[r].parent.Some? && rows[r].parent.value.table.SeriesTable? && NamedBy(rows, key, rows[r].parent.value)
       case Episodes =>
         && rows[r].number == key.episodeNumber
         && rows[r].parent.Some? && rows[r].parent.value.table.Seasons? && NamedBy(rows, key, rows[r].parent.value)
       case _ => false
  }

  lemma {:induction false} NamedByGrows(rows: Rows, rows': Rows, key: EpisodeKey, r: Ref)
    requires Shrunk(rows', rows) && NamedBy(rows, key, r)
    ensures NamedBy(rows', key, r)
    decreases 4 - Level(r.table)
  {
    if r.table.Seasons? || r.table.Episodes? {
      NamedByGrows(rows, rows', key, rows[r].parent.value);
    }
  }

  /** With unique keys a key names at most one row of a table. */
  lemma {:induction false} NamesOne(rows: Rows, key: EpisodeKey, a: Ref, b: Ref)
    requires Unique(rows) && NamedBy(rows, key, a) && NamedBy(rows, key, b) && a.table == b.table
    ensures a == b
    decreases 4 - Level(a.table)
  {
    if !a.table.SeriesTable? {
      NamesOne(rows, key, rows[a].parent.value, rows[b].parent.value);
    }
    assert SameKey(rows, a, b);
  }

  /** Inserting a row under a key that is not taken. */
  lemma InsertKeeps(rows: Rows, ref: Ref, parent: Option<Ref>, number: int)
    requires WellTyped(rows) && Unique(rows) && ref !in rows
    requires parent.Some? == ParentTable(ref.table).Some?
    requires parent.Some? ==> parent.value.table == ParentTable(ref.table).value
    requires forall r :: r in rows ==> !HasKey(rows, r, ref.table, parent, number)
    ensures WellTyped(rows[ref := Row(parent, number, 0)]) && Unique(rows[ref := Row(parent, number, 0)])
  {
    forall a | a in rows && a.table == ref.table ensures rows[a].parent != parent || rows[a].number != number {
      assert !HasKey(rows, a, ref.table, parent, number);
    }
  }

  // ----- the declarative result of collecting garbage -----

  /** `r` is one of the files or has one of them below it. */
  ghost predicate Kept(rows: Rows, files: set<Ref>, r: Ref)
    requires WellTyped(rows)
    decreases Level(r.table)
  {
    r in rows &&
    if IsFile(r) then r in files
    else exists c :: c in rows && rows[c].parent == Some(r) && Kept(rows, files, c)
  }

  /** Exactly the given files and their ancestors. */
  ghost function Ancestry(rows: Rows, files: set<Ref>): Rows
    requires WellTyped(rows)
  {
    map r | r in rows && Kept(rows, files, r) :: rows[r]
  }

  lemma {:induction false} TightRowIsKept(before: Rows, rows: Rows, r: Ref)
    requires WellTyped(before) && Shrunk(before, rows) && Tight(rows) && r in rows
    ensures Kept(before, FilesOf(rows), r)
    decreases Level(r.table)
  {
    if !IsFile(r) {
      assert HasChild(rows, r);
      var c :| c in rows && rows[c].parent == Some(r);
      TightRowIsKept(before, rows, c);
    }
  }

  lemma {:induction false} KeptRowRemains(before: Rows, rows: Rows, r: Ref)
    requires WellTyped(before) && Shrunk(before, rows) && NoneOrphaned(before, rows)
    requires Kept(before, FilesOf(rows), r)
    ensures r in rows
    decreases Level(r.table)
  {
    if !IsFile(r) {
      var c :| c in before && before[c].parent == Some(r) && Kept(before, FilesOf(rows), c);
      KeptRowRemains(before, rows, c);
    }
  }

  /** Tables that only shrank, are tight and orphaned nothing are determined by the files left. */
  lemma TightIsAncestry(before: Rows, rows: Rows)
    requires WellTyped(before) && Shrunk(before, rows) && Tight(rows) && NoneOrphaned(before, rows)
    ensures rows == Ancestry(before, FilesOf(rows))
  {
    forall r | r in rows ensures Kept(before, FilesOf(rows), r) {
      TightRowIsKept(before, rows, r);
    }
    forall r | r in before && Kept(before, FilesOf(rows), r) ensures r in rows {
      KeptRowRemains(before, rows, r);
    }
  }
}
