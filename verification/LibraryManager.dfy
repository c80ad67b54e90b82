/** metadata/managers/library.go: adding a probed file, removing missing files and deleting a library. */
module LibraryManagement {
  import opened Catalog
  import opened GarbageCollection
  import opened CreationOutcome
  import opened MetadataManagement

  datatype Kind = MovieKind | SeriesKind | OtherKind

  function FileTable(kind: Kind): Option<Table> {
    match kind
    case MovieKind => Some(MovieFiles)
    case SeriesKind => Some(EpisodeFiles)
    case OtherKind => None
  }

  /** The files of a library in one of the file tables. */
  function LibraryFiles(rows: Rows, table: Table, library: nat): set<Ref> {
    set r | r in rows && IsFile(r) && r.table == table && rows[r].library == library
  }

  /** `files` lists the set, in some order and without repetition. */
  predicate Lists(files: seq<Ref>, s: set<Ref>) {
    ToSet(files) == s && forall i, j :: 0 <= i < j < |files| ==> files[i] != files[j]
  }

  lemma {:induction false} AllRemovedShrinks(listed: Rows, files: seq<Ref>)
    requires WellTyped(listed) && AllFilesIn(files, listed)
    ensures Shrunk(listed, AllRemoved(listed, files))
    ensures forall f :: f in AllRemoved(listed, files) ==> f !in files
  {
    if files != [] {
      var n := |files| - 1;
      AllRemovedShrinks(listed, files[..n]);
      var rows := AllRemoved(listed, files[..n]);
      CollectedShrinks(rows - {files[n]}, listed[files[n]].parent.value);
    }
  }

  lemma {:induction false} AllRemovedFiles(listed: Rows, files: seq<Ref>)
    requires WellTyped(listed) && AllFilesIn(files, listed)
    ensures Shrunk(listed, AllRemoved(listed, files))
    ensures FilesOf(AllRemoved(listed, files)) == FilesOf(listed) - ToSet(files)
  {
    AllRemovedShrinks(listed, files);
    if files != [] {
      var n := |files| - 1;
      AllRemovedFiles(listed, files[..n]);
      var rest := AllRemoved(listed, files[..n]) - {files[n]};
      CollectedKeepsFiles(rest, listed[files[n]].parent.value);
      assert FilesOf(rest) == FilesOf(AllRemoved(listed, files[..n])) - {files[n]};
      assert ToSet(files) == ToSet(files[..n]) + {files[n]};
    }
  }

  lemma OneMoreInLoop(listed: Rows, files: seq<Ref>, file: Ref)
    requires WellTyped(listed) && AllFilesIn(files, listed) && file in listed && IsFile(file)
    ensures AllFilesIn(files + [file], listed)
    ensures AllRemoved(listed, files + [file]) == FileRemoved(listed, AllRemoved(listed, files), file)
  {
    assert (files + [file])[..|files|] == files;
  }

  /** Removals in two loops, the second over files listed after the first. */
  lemma {:induction false} RemovedInTwoLoops(listed: Rows, first: seq<Ref>, second: seq<Ref>)
    requires WellTyped(listed) && AllFilesIn(first, listed) && AllFilesIn(second, AllRemoved(listed, first))
    ensures AllFilesIn(first + second, listed)
    ensures AllRemoved(AllRemoved(listed, first), second) == AllRemoved(listed, first + second)
  {
    AllRemovedShrinks(listed, first);
    if second == [] {
      assert first + second == first;
    } else {
      var n := |second| - 1;
      var f, mid, init := second[n], AllRemoved(listed, first), second[..n];
      assert second == init + [f];
      RemovedInTwoLoops(listed, first, init);
      OneMoreInLoop(mid, init, f);
      OneMoreInLoop(listed, first + init, f);
      assert first + second == (first + init) + [f];
    }
  }

  function FileParent(rows: Rows, file: Ref): Ref
    requires WellTyped(rows) && file in rows && IsFile(file)
  {
    rows[file].parent.value
  }

  /** The files that a pass over missing files removes. */
  function Gone(rows: Rows, library: nat, under: set<Ref>, missing: set<Ref>): set<Ref> {
    (LibraryFiles(rows, MovieFiles, library) + LibraryFiles(rows, EpisodeFiles, library)) * under * missing
  }

  lemma ListMembers(files: seq<Ref>, s: set<Ref>)
    requires Lists(files, s)
    ensures forall f :: f in files <==> f in s
  {
    assert forall f :: f in files <==> f in ToSet(files);
  }

  lemma ListedAreFiles(files: seq<Ref>, rows: Rows, table: Table, library: nat)
    requires Lists(files, LibraryFiles(rows, table, library))
    ensures AllFilesIn(files, rows)
  {
    ListMembers(files, LibraryFiles(rows, table, library));
  }

  /** Which files the removal of a library's files takes away. */
  lemma FilesTaken(rows: Rows, files: seq<Ref>, table: Table, library: nat)
    requires WellTyped(rows) && AllFilesIn(files, rows) && Lists(files, LibraryFiles(rows, table, library))
    ensures forall r :: r in rows && (r.table == MovieFiles || r.table == EpisodeFiles) ==>
              (r !in AllRemoved(rows, files) <==> r.table == table && rows[r].library == library)
  {
    AllRemovedFiles(rows, files);
    forall r | r in rows && (r.table == MovieFiles || r.table == EpisodeFiles)
      ensures r !in AllRemoved(rows, files) <==> r.table == table && rows[r].library == library
    {
      assert r in AllRemoved(rows, files) <==> r in FilesOf(AllRemoved(rows, files));
      assert r in FilesOf(rows);
    }
  }

  lemma EpisodeFilesRemain(rows: Rows, mid: Rows, gone: seq<Ref>, library: nat)
    requires Shrunk(rows, mid) && FilesOf(mid) == FilesOf(rows) - ToSet(gone)
    requires forall f :: f in gone ==> f.table == MovieFiles
    ensures LibraryFiles(mid, EpisodeFiles, library) == LibraryFiles(rows, EpisodeFiles, library)
  {
    forall r | r in LibraryFiles(rows, EpisodeFiles, library) ensures r in mid {
      assert r in FilesOf(rows) - ToSet(gone);
    }
  }

  /** The files that two loops over the missing files of both kinds list, one after the other. */
  lemma TwoLoopsFiles(rows: Rows, movieFiles: seq<Ref>, episodeFiles: seq<Ref>, library: nat, under: set<Ref>,
      missing: set<Ref>)
    requires WellTyped(rows) && AllFilesIn(movieFiles, rows)
    requires Lists(movieFiles, LibraryFiles(rows, MovieFiles, library) * under * missing)
    requires Lists(episodeFiles, LibraryFiles(AllRemoved(rows, movieFiles), EpisodeFiles, library) * under * missing)
    ensures ToSet(movieFiles + episodeFiles) == Gone(rows, library, under, missing)
  {
    AllRemovedFiles(rows, movieFiles);
    ListMembers(movieFiles, LibraryFiles(rows, MovieFiles, library) * under * missing);
    EpisodeFilesRemain(rows, AllRemoved(rows, movieFiles), movieFiles, library);
    assert ToSet(movieFiles + episodeFiles) == ToSet(movieFiles) + ToSet(episodeFiles);
  }

  /** Two loops over the missing files of both kinds remove just these files and what they leave empty. */
  lemma TwoLoopsOutcome(rows: Rows, movieFiles: seq<Ref>, episodeFiles: seq<Ref>, library: nat, under: set<Ref>,
      missing: set<Ref>)
    requires WellTyped(rows) && AllFilesIn(movieFiles, rows)
    requires Lists(movieFiles, LibraryFiles(rows, MovieFiles, library) * under * missing)
    requires AllFilesIn(episodeFiles, AllRemoved(rows, movieFiles))
    requires Lists(episodeFiles, LibraryFiles(AllRemoved(rows, movieFiles), EpisodeFiles, library) * under * missing)
    ensures forall r :: r in rows && (r.table == MovieFiles || r.table == EpisodeFiles) ==>
              (r !in AllRemoved(AllRemoved(rows, movieFiles), episodeFiles) <==>
               rows[r].library == library && r in under && r in missing)
    ensures var after, files := AllRemoved(AllRemoved(rows, movieFiles), episodeFiles), movieFiles + episodeFiles;
            && AllFilesIn(files, rows) && ToSet(files) == Gone(rows, library, under, missing)
            && after == AllRemoved(rows, files)
            && (Tight(rows) ==>
                Tight(after) && after == Ancestry(rows, FilesOf(rows) - Gone(rows, library, under, missing)))
  {
    TwoLoopsFiles(rows, movieFiles, episodeFiles, library, under, missing);
    RemovedInTwoLoops(rows, movieFiles, episodeFiles);
    AllRemovedFiles(rows, movieFiles + episodeFiles);
    forall r | r in rows && (r.table == MovieFiles || r.table == EpisodeFiles)
      ensures r !in AllRemoved(rows, movieFiles + episodeFiles) <==>
              rows[r].library == library && r in under && r in missing
    {
      assert r in AllRemoved(rows, movieFiles + episodeFiles) <==>
             r in FilesOf(AllRemoved(rows, movieFiles + episodeFiles));
      assert r in FilesOf(rows);
    }
    if Tight(rows) {
      AllRemovedCleansUp(rows, movieFiles + episodeFiles);
      RemovalIsAncestry(rows, movieFiles + episodeFiles);
    }
  }

  lemma AddedFile(before: Rows, added: Rows, file: Ref, library: nat)
    requires file !in before && file.table == EpisodeFiles && file.id != 0
    requires added == before[file := Row(Some(Ref(Episodes, 0)), 0, library)]
    ensures added - {file} == before && Shrunk(added, before)
    ensures FilesOf(added) == FilesOf(before) + {file}
    ensures ParentsPresent(before) ==> ParentsPresent(added)
    ensures Tight(before) ==> Tight(added)
    ensures Unique(before) ==> Unique(added)
  {
    forall x | Tight(before) && x in added && !IsFile(x) ensures HasChild(added, x) {
      assert HasChild(before, x);
      var c :| c in before && before[c].parent == Some(x);
      assert added[c].parent == Some(x);
    }
    forall a, b | Unique(before) && a in added && b in added && SameKey(added, a, b) ensures a == b {
      assert SameKey(before, a, b);
    }
  }

  lemma ProbedFile(before: Rows, added: Rows, after: Rows, key: Option<EpisodeKey>, file: Ref, fails: set<Table>,
      r: Result)
    requires file !in before && IsFile(file) && SameButFiles(before, added)
    requires r.Ok? ==> key.Some? && exists mid :: IdentifiedAs(added, mid, after, key.value, file, r.row)
    ensures r.Ok? ==> NamedBy(after, key.value, r.row) && after[file].parent == Some(r.row)
    ensures key.Some? ==>
              (MustFail(before, key.value, Episodes, fails) <==> MustFail(added, key.value, Episodes, fails))
  {
    if r.Ok? {
      var mid :| IdentifiedAs(added, mid, after, key.value, file, r.row);
      NamedByIgnoresFiles(mid, after, key.value, r.row);
    }
    if key.Some? && MustFail(before, key.value, Episodes, fails) {
      MustFailIgnoresFiles(before, added, key.value, Episodes, fails);
    }
    if key.Some? && MustFail(added, key.value, Episodes, fails) {
      MustFailIgnoresFiles(added, before, key.value, Episodes, fails);
    }
  }

  lemma ProbedOutcome(before: Rows, added: Rows, after: Rows, key: Option<EpisodeKey>, file: Ref, library: nat,
      r: Result)
    requires WellTyped(before) && WellTyped(after) && Tight(before) && ParentsPresent(before)
    requires file !in before && file.table == EpisodeFiles && file.id != 0
    requires added == before[file := Row(Some(Ref(Episodes, 0)), 0, library)]
    requires r.Ok? ==> key.Some? && exists mid :: IdentifiedAs(added, mid, after, key.value, file, r.row)
    requires r.Failed? ==> after == added || !Tight(after)
    ensures r.Ok? ==> Tight(after)
    ensures Tight(after) ==> file in after && FileRemoved(after, after, file) == before
  {
    AddedFile(before, added, file, library);
    if r.Ok? {
      var mid :| IdentifiedAs(added, mid, after, key.value, file, r.row);
      IdentifiedIsTight(added, mid, after, key.value, file, r.row);
    }
    if Tight(after) {
      RemovingUndoesAdding(before, after, file);
    }
  }

  class LibraryManager {
    const manager: MetadataManager
    const library: nat
    const kind: Kind
    var registered: bool   // the library's own row

    constructor (manager: MetadataManager, library: nat, kind: Kind)
      ensures this.manager == manager && this.library == library && this.kind == kind && registered
    {
      this.manager := manager;
      this.library := library;
      this.kind := kind;
      registered := true;
    }

    /** A query: the files of a set in the order the database happens to return them. */
    method FindFiles(s: set<Ref>) returns (files: seq<Ref>)
      ensures Lists(files, s)
    {
      files := [];
      var rest := s;
      while rest != {}
        invariant ToSet(files) + rest == s && ToSet(files) !! rest
        invariant forall i, j :: 0 <= i < j < |files| ==> files[i] != files[j]
        decreases rest
      {
        var f :| f in rest;
        assert ToSet(files + [f]) == ToSet(files) + {f};
        assert forall i :: 0 <= i < |files| ==> files[i] in ToSet(files);
        files := files + [f];
        rest := rest - {f};
      }
    }

    /** The body of the loops of library.go: delete the file, then collect what it named. */
    method RemoveFile(file: Ref, parent: Ref)
      requires manager.Valid() && (parent.table == Movies || parent.table == Episodes)
      modifies manager
      ensures manager.Valid()
      ensures manager.rows == Collected(old(manager.rows) - {file}, parent)
      ensures manager.log == old(manager.log) + CollectEvents(old(manager.rows) - {file}, parent)
    {
      manager.rows := manager.rows - {file};
      if parent.table == Movies {
        manager.GarbageCollectMovieIfRequired(parent.id);
      } else {
        manager.GarbageCollectEpisodeIfRequired(parent.id);
      }
    }

    method RemoveFiles(files: seq<Ref>)
      requires manager.Valid() && AllFilesIn(files, manager.rows)
      modifies manager
      ensures manager.Valid()
      ensures manager.rows == AllRemoved(old(manager.rows), files)
      ensures LogAnnounces(old(manager.rows), manager.rows, old(manager.log), manager.log)
    {
      var listed := manager.rows;
      ghost var log0 := manager.log;
      for i := 0 to |files|
        invariant manager.Valid() && manager.rows == AllRemoved(listed, files[..i])
        invariant LogAnnounces(listed, manager.rows, log0, manager.log)
      {
        AllRemovedShrinks(listed, files[..i]);
        ghost var rows, log := manager.rows, manager.log;
        var parent := FileParent(listed, files[i]);
        RemoveFile(files[i], parent);
        assert files[..i + 1] == files[..i] + [files[i]];
        OneMoreInLoop(listed, files[..i], files[i]);
        CollectionAnnounced(listed, rows, rows - {files[i]}, parent, log0, log);
      }
      assert files[..|files|] == files;
    }

    /** The library's files go, everything that is left without a file goes with them, and nothing else;
        every removed row is announced once. */
    method DeleteLibrary()
      requires manager.Valid()
      modifies this, manager
      ensures manager.Valid() && !registered
      ensures forall r :: r in old(manager.rows) && (r.table == MovieFiles || r.table == EpisodeFiles) ==>
                (r !in manager.rows <==>
                 && ((kind.MovieKind? && r.table == MovieFiles) || (kind.SeriesKind? && r.table == EpisodeFiles))
                 && old(manager.rows)[r].library == library)
      ensures kind.OtherKind? ==> manager.rows == old(manager.rows) && manager.log == old(manager.log)
      ensures !kind.OtherKind? ==>
                exists files :: Lists(files, LibraryFiles(old(manager.rows), FileTable(kind).value, library))
                  && AllFilesIn(files, old(manager.rows)) && manager.rows == AllRemoved(old(manager.rows), files)
      ensures !kind.OtherKind? && Tight(old(manager.rows)) ==>
                && Tight(manager.rows)
                && manager.rows ==
                   Ancestry(old(manager.rows),
                            FilesOf(old(manager.rows)) -
                                LibraryFiles(old(manager.rows), FileTable(kind).value, library))
      ensures LogAnnounces(old(manager.rows), manager.rows, old(manager.log), manager.log)
    {
      ghost var rows := manager.rows;
      match kind {
        case MovieKind =>
          var movieFiles := FindFiles(LibraryFiles(manager.rows, MovieFiles, library));
          ListedAreFiles(movieFiles, rows, MovieFiles, library);
          RemoveFiles(movieFiles);
          FilesTaken(rows, movieFiles, MovieFiles, library);
          if Tight(rows) {
            AllRemovedCleansUp(rows, movieFiles);
            RemovalIsAncestry(rows, movieFiles);
          }
        case SeriesKind =>
          var episodeFiles := FindFiles(LibraryFiles(manager.rows, EpisodeFiles, library));
          ListedAreFiles(episodeFiles, rows, EpisodeFiles, library);
          RemoveFiles(episodeFiles);
          FilesTaken(rows, episodeFiles, EpisodeFiles, library);
          if Tight(rows) {
            AllRemovedCleansUp(rows, episodeFiles);
            RemovalIsAncestry(rows, episodeFiles);
          }
        case OtherKind =>
      }
      registered := false;
    }

    /** The missing files of the library below a locator go the same way; `under` and `missing` are what
        the path filter and the file system say. */
    method RemoveMissingFiles(under: set<Ref>, missing: set<Ref>)
      requires manager.Valid()
      modifies manager
      ensures manager.Valid()
      ensures LogAnnounces(old(manager.rows), manager.rows, old(manager.log), manager.log)
      ensures forall r :: r in old(manager.rows) && (r.table == MovieFiles || r.table == EpisodeFiles) ==>
                (r !in manager.rows <==> old(manager.rows)[r].library == library && r in under && r in missing)
      ensures exists files ::
                AllFilesIn(files, old(manager.rows)) && ToSet(files) == Gone(old(manager.rows), library, under, missing)
                && manager.rows == AllRemoved(old(manager.rows), files)
      ensures Tight(old(manager.rows)) ==>
                && Tight(manager.rows)
                && manager.rows == Ancestry(old(manager.rows),
                    FilesOf(old(manager.rows)) - Gone(old(manager.rows), library, under, missing))
    {
      ghost var rows, log := manager.rows, manager.log;
      var movieFiles := FindFiles(LibraryFiles(manager.rows, MovieFiles, library) * under * missing);
      ListMembers(movieFiles, LibraryFiles(rows, MovieFiles, library) * under * missing);
      RemoveFiles(movieFiles);
      ghost var mid, midLog := manager.rows, manager.log;
      var episodeFiles := FindFiles(LibraryFiles(manager.rows, EpisodeFiles, library) * under * missing);
      ListMembers(episodeFiles, LibraryFiles(mid, EpisodeFiles, library) * under * missing);
      RemoveFiles(episodeFiles);
      AllRemovedShrinks(rows, movieFiles);
      AllRemovedShrinks(mid, episodeFiles);
      AnnouncedBoth(rows, mid, mid, manager.rows, log, midLog, manager.log);
      TwoLoopsOutcome(rows, movieFiles, episodeFiles, library, under, missing);
    }

    /** Add a file of a series library and identify it.  If the tables were tight and complete, then
        removing the file again gives back exactly the tables from before, unless the metadata agent or
        the database failed below the first new row and so left it without children. */
    method ProbeEpisodeFile(key: Option<EpisodeKey>, fails: set<Table>) returns (file: Ref, r: Result)
      requires manager.Valid()
      modifies manager
      ensures manager.Valid() && (Unique(old(manager.rows)) ==> Unique(manager.rows))
      ensures file in manager.rows && file !in old(manager.rows) && file.table == EpisodeFiles
      ensures manager.rows[file].library == library
      ensures match r
              case Ok(episode) =>
                key.Some? && episode.table.Episodes? && NamedBy(manager.rows, key.value, episode)
                    && manager.rows[file].parent == Some(episode)
              case Failed => manager.rows[file].parent == Some(Ref(Episodes, 0))
      ensures key == None ==> r.Failed?
      ensures key.Some? && Unique(old(manager.rows)) && ParentsPresent(old(manager.rows)) ==>
                (r.Failed? <==> MustFail(old(manager.rows), key.value, Episodes, fails))
      ensures key.Some? && fails == {} ==> r.Ok?
      ensures AnnouncedAdded(old(manager.rows), manager.rows, old(manager.log), manager.log, Episodes)
      ensures Tight(old(manager.rows)) && ParentsPresent(old(manager.rows)) ==>
                && (r.Ok? ==> Tight(manager.rows))
                && (Tight(manager.rows) ==> FileRemoved(manager.rows, manager.rows, file) == old(manager.rows))
    {
      ghost var before := manager.rows;
      FreshIdExists(manager.rows, EpisodeFiles);
      var id: nat :| id != 0 && Ref(EpisodeFiles, id) !in manager.rows;
      file := Ref(EpisodeFiles, id);
      manager.rows := manager.rows[file := Row(Some(Ref(Episodes, 0)), 0, library)];
      ghost var added := manager.rows;
      r := manager.GetOrCreateEpisodeForEpisodeFile(file, key, fails);
      AddedFile(before, added, file, library);
      ProbedFile(before, added, manager.rows, key, file, fails, r);
      if Tight(before) && ParentsPresent(before) {
        ProbedOutcome(before, added, manager.rows, key, file, library, r);
      }
    }
  }
}
