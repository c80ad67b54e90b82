/** What one uninterrupted call of the collectors computes, and what a loop of file removals adds up to. */
module GarbageCollection {
  import opened Catalog

  // ----- one call -----

  /** Remove the row if it has no child left, then look at its parent. */
  ghost function Collected(rows: Rows, r: Ref): Rows
    requires WellTyped(rows)
    decreases 4 - Level(r.table)
  {
    if r !in rows || HasChild(rows, r) then rows
    else
      match rows[r].parent
      case None => rows - {r}
      case Some(p) => Collected(rows - {r}, p)
  }

  /** The events of that call, in order. */
  ghost function CollectEvents(rows: Rows, r: Ref): seq<Event>
    requires WellTyped(rows)
    decreases 4 - Level(r.table)
  {
    if r !in rows || HasChild(rows, r) then []
    else
      [Deleted(r)] +
      match rows[r].parent
      case None => []
      case Some(p) => CollectEvents(rows - {r}, p)
  }

  /** A childless row goes, and the collection goes on with its parent. */
  lemma CollectedUp(rows: Rows, r: Ref)
    requires WellTyped(rows) && r in rows && !HasChild(rows, r) && rows[r].parent.Some?
    ensures Collected(rows, r) == Collected(rows - {r}, rows[r].parent.value)
    ensures CollectEvents(rows, r) == [Deleted(r)] + CollectEvents(rows - {r}, rows[r].parent.value)
  {
  }

  /** All rows but possibly `r` have children. */
  predicate TightBut(rows: Rows, r: Ref) {
    forall x :: x in rows && !IsFile(x) && x != r ==> HasChild(rows, x)
  }

  lemma ChildrenWithout(rows: Rows, x: Ref, r: Ref)
    ensures HasChild(rows - {x}, r) ==> HasChild(rows, r)
    ensures x !in rows || rows[x].parent != Some(r) ==> (HasChild(rows - {x}, r) <==> HasChild(rows, r))
  {
    var rest := rows - {x};
    if (x !in rows || rows[x].parent != Some(r)) && HasChild(rows, r) {
      var c :| c in rows && rows[c].parent == Some(r);
      assert c in rest && rest[c].parent == Some(r);
    }
  }

  /** After removing a childless row only its parent can be childless. */
  lemma RemovedOne(before: Rows, rows: Rows, r: Ref)
    requires Shrunk(before, rows) && NoneOrphaned(before, rows)
    requires TightBut(rows, r) && !HasChild(rows, r) && r in rows && !IsFile(r)
    ensures var rest := rows - {r};
            && NoneOrphaned(before, rest)
            && FilesOf(rest) == FilesOf(rows)
            && (forall x :: x in rest && !IsFile(x) && rows[r].parent != Some(x) ==> HasChild(rest, x))
  {
    var rest := rows - {r};
    forall x | x in rest && !IsFile(x) && rows[r].parent != Some(x) ensures HasChild(rest, x) {
      ChildrenWithout(rows, r, x);
    }
    forall x | x in rest && rest[x].parent.Some? && rest[x].parent.value in before
      ensures rest[x].parent.value in rest
    {
      assert rows[x].parent == rest[x].parent;
    }
  }

  /** One call makes the tables tight again, orphans nothing and touches no file. */
  lemma {:induction false} CollectedIsTight(before: Rows, rows: Rows, r: Ref)
    requires WellTyped(rows) && Shrunk(before, rows) && NoneOrphaned(before, rows)
    requires TightBut(rows, r) && !IsFile(r)
    ensures var after := Collected(rows, r);
            && WellTyped(after) && Tight(after) && Shrunk(rows, after) && Shrunk(before, after)
            && NoneOrphaned(before, after) && FilesOf(after) == FilesOf(rows)
    decreases 4 - Level(r.table)
  {
    if r in rows && !HasChild(rows, r) {
      RemovedOne(before, rows, r);
      var rest := rows - {r};
      match rows[r].parent
      case None =>
      case Some(p) =>
        CollectedIsTight(before, rest, p);
        assert FilesOf(Collected(rest, p)) == FilesOf(rest);
    }
  }

  function Count(log: seq<Event>, e: Event): nat {
    multiset(log)[e]
  }

  /** The events announce exactly the rows, files apart, that are gone: once each, and nothing else. */
  ghost predicate Announces(before: Rows, after: Rows, events: seq<Event>) {
    && (forall e :: e in events ==> e.Deleted?)
    && (forall r :: Count(events, Deleted(r)) == if r in before && r !in after && !IsFile(r) then 1 else 0)
  }

  lemma CountAppend(log: seq<Event>, e: Event, f: Event)
    ensures Count(log + [e], f) == Count(log, f) + (if e == f then 1 else 0)
  {
  }

  lemma CountConcat(a: seq<Event>, b: seq<Event>, e: Event)
    ensures Count(a + b, e) == Count(a, e) + Count(b, e)
  {
  }

  lemma {:induction false} CollectedShrinks(rows: Rows, r: Ref)
    requires WellTyped(rows)
    ensures Shrunk(rows, Collected(rows, r))
    decreases 4 - Level(r.table)
  {
    if r in rows && !HasChild(rows, r) && rows[r].parent.Some? {
      CollectedShrinks(rows - {r}, rows[r].parent.value);
    }
  }

  lemma AnnouncesAfter(rows: Rows, r: Ref, after: Rows, events: seq<Event>)
    requires r in rows && !IsFile(r) && Shrunk(rows - {r}, after) && Announces(rows - {r}, after, events)
    ensures Announces(rows, after, [Deleted(r)] + events)
  {
    forall x
      ensures Count([Deleted(r)] + events, Deleted(x)) == (if x in rows && x !in after && !IsFile(x) then 1 else 0)
    {
      CountConcat([Deleted(r)], events, Deleted(x));
      assert Count([Deleted(r)], Deleted(x)) == if x == r then 1 else 0;
    }
  }

  lemma {:induction false} CollectAnnounces(rows: Rows, r: Ref)
    requires WellTyped(rows) && !IsFile(r)
    ensures Announces(rows, Collected(rows, r), CollectEvents(rows, r))
    decreases 4 - Level(r.table)
  {
    if r in rows && !HasChild(rows, r) && rows[r].parent.Some? {
      var p, rest := rows[r].parent.value, rows - {r};
      CollectAnnounces(rest, p);
      CollectedShrinks(rest, p);
      AnnouncesAfter(rows, r, Collected(rest, p), CollectEvents(rest, p));
    }
  }

  /** They come in the order of the deletions: from the row up. */
  lemma {:induction false} CollectEventsGoUp(rows: Rows, r: Ref)
    requires WellTyped(rows)
    ensures var events := CollectEvents(rows, r);
            && (forall e :: e in events ==> Level(r.table) <= Level(e.row.table))
            && (forall i, j :: 0 <= i < j < |events| ==> Level(events[i].row.table) < Level(events[j].row.table))
    decreases 4 - Level(r.table)
  {
    if r in rows && !HasChild(rows, r) && rows[r].parent.Some? {
      CollectEventsGoUp(rows - {r}, rows[r].parent.value);
    }
  }

  /** Which rows a collection removes, row by row: the one it is called on if that has no child, and above
      it the parent of a removed row if that was its only child. */
  lemma {:induction false} CollectedExactly(rows: Rows, r: Ref, x: Ref)
    requires WellTyped(rows) && !IsFile(r) && x in rows
    ensures var after := Collected(rows, r);
            x !in after <==>
              !IsFile(x) && (x == r || HasChild(rows, x)) && Level(r.table) <= Level(x.table)
              && forall c :: c in rows && rows[c].parent == Some(x) ==> c !in after
    decreases 4 - Level(r.table)
  {
    CollectedShrinks(rows, r);
    if r in rows && !HasChild(rows, r) {
      match rows[r].parent
      case None =>
      case Some(p) =>
        var rest := rows - {r};
        CollectedShrinks(rest, p);
        if x != r {
          CollectedExactly(rest, p, x);
          ChildrenWithout(rows, r, x);
          if x != p && HasChild(rest, x) {
            var c :| c in rest && rest[c].parent == Some(x);
            CollectedExactly(rest, p, c);
          }
        }
    }
  }

  /** A collection touches no file. */
  lemma {:induction false} CollectedKeepsFiles(rows: Rows, r: Ref)
    requires WellTyped(rows) && !IsFile(r)
    ensures FilesOf(Collected(rows, r)) == FilesOf(rows)
    decreases 4 - Level(r.table)
  {
    if r in rows && !HasChild(rows, r) && rows[r].parent.Some? {
      CollectedKeepsFiles(rows - {r}, rows[r].parent.value);
      assert FilesOf(rows - {r}) == FilesOf(rows);
    }
  }

  /** The log grew by one event for each row, files apart, that went. */
  ghost predicate LogAnnounces(before: Rows, after: Rows, log: seq<Event>, log': seq<Event>) {
    log <= log' && Announces(before, after, log'[|log|..])
  }

  lemma AnnouncesBoth(before: Rows, mid: Rows, mid': Rows, after: Rows, first: seq<Event>, second: seq<Event>)
    requires Shrunk(before, mid) && Shrunk(mid, mid') && Shrunk(mid', after)
    requires forall r :: r in mid && r !in mid' ==> IsFile(r)
    requires Announces(before, mid, first) && Announces(mid', after, second)
    ensures Announces(before, after, first + second)
  {
    forall r ensures Count(first + second, Deleted(r)) == (if r in before && r !in after && !IsFile(r) then 1 else 0) {
      CountConcat(first, second, Deleted(r));
    }
  }

  /** Two stretches of the log, between which only files may have gone unannounced. */
  lemma AnnouncedBoth(before: Rows, mid: Rows, mid': Rows, after: Rows, l0: seq<Event>, l1: seq<Event>, l2: seq<Event>)
    requires Shrunk(before, mid) && Shrunk(mid, mid') && Shrunk(mid', after)
    requires forall r :: r in mid && r !in mid' ==> IsFile(r)
    requires LogAnnounces(before, mid, l0, l1) && LogAnnounces(mid', after, l1, l2)
    ensures LogAnnounces(before, after, l0, l2)
  {
    var first, second := l1[|l0|..], l2[|l1|..];
    assert l2[|l0|..] == first + second;
    AnnouncesBoth(before, mid, mid', after, first, second);
  }

  lemma CollectionAnnounced(before: Rows, mid: Rows, mid': Rows, r: Ref, l0: seq<Event>, l1: seq<Event>)
    requires WellTyped(mid') && Shrunk(before, mid) && Shrunk(mid, mid') && !IsFile(r)
    requires forall x :: x in mid && x !in mid' ==> IsFile(x)
    requires LogAnnounces(before, mid, l0, l1)
    ensures LogAnnounces(before, Collected(mid', r), l0, l1 + CollectEvents(mid', r))
  {
    CollectedShrinks(mid', r);
    CollectAnnounces(mid', r);
    assert (l1 + CollectEvents(mid', r))[|l1|..] == CollectEvents(mid', r);
    AnnouncedBoth(before, mid, mid', Collected(mid', r), l0, l1, l1 + CollectEvents(mid', r));
  }

  // ----- loops of file removals -----

  /** Delete the file's row, then collect the episode or movie that the file names in `listed`. */
  ghost function FileRemoved(listed: Rows, rows: Rows, file: Ref): Rows
    requires WellTyped(rows) && file in listed && listed[file].parent.Some?
  {
    Collected(rows - {file}, listed[file].parent.value)
  }

  predicate AllFilesIn(files: seq<Ref>, rows: Rows) {
    forall f :: f in files ==> f in rows && IsFile(f)
  }

  /** The removals of the listed files one after the other. */
  ghost function AllRemoved(listed: Rows, files: seq<Ref>): (rows: Rows)
    requires WellTyped(listed) && AllFilesIn(files, listed)
    ensures WellTyped(rows)
  {
    if files == [] then listed
    else
      var n := |files| - 1;
      var rows := AllRemoved(listed, files[..n]);
      CollectedShrinks(rows - {files[n]}, listed[files[n]].parent.value);
      FileRemoved(listed, rows, files[n])
  }

  /** `rows` is what is left of tight tables, tight again, once the files `gone` are gone. */
  ghost predicate CleanedUp(listed: Rows, rows: Rows, gone: set<Ref>) {
    && WellTyped(rows) && Tight(rows) && Shrunk(listed, rows) && NoneOrphaned(listed, rows)
    && FilesOf(rows) == FilesOf(listed) - gone
  }

  lemma CleanedUpIsAncestry(listed: Rows, rows: Rows, gone: set<Ref>)
    requires WellTyped(listed) && CleanedUp(listed, rows, gone)
    ensures rows == Ancestry(listed, FilesOf(listed) - gone)
  {
    TightIsAncestry(listed, rows);
  }

  lemma OneMoreRemoved(listed: Rows, rows: Rows, gone: set<Ref>, file: Ref)
    requires WellTyped(listed) && CleanedUp(listed, rows, gone) && file in listed && IsFile(file)
    ensures CleanedUp(listed, FileRemoved(listed, rows, file), gone + {file})
  {
    var rest, p := rows - {file}, listed[file].parent.value;
    forall x | x in rest && !IsFile(x) && x != p ensures HasChild(rest, x) {
      ChildrenWithout(rows, file, x);
    }
    assert NoneOrphaned(listed, rest);
    CollectedIsTight(listed, rest, p);
    assert FilesOf(rest) == FilesOf(rows) - {file};
  }

  function ToSet(files: seq<Ref>): set<Ref> {
    set f | f in files
  }

  lemma {:induction false} AllRemovedCleansUp(listed: Rows, files: seq<Ref>)
    requires WellTyped(listed) && Tight(listed) && AllFilesIn(files, listed)
    ensures CleanedUp(listed, AllRemoved(listed, files), ToSet(files))
  {
    if files == [] {
      assert FilesOf(listed) - ToSet(files) == FilesOf(listed);
    } else {
      var n := |files| - 1;
      AllRemovedCleansUp(listed, files[..n]);
      OneMoreRemoved(listed, AllRemoved(listed, files[..n]), ToSet(files[..n]), files[n]);
      assert ToSet(files) == ToSet(files[..n]) + {files[n]};
    }
  }

  /** Removing files from tight tables leaves exactly the ancestry of the remaining files, in whatever
      order the files come. */
  lemma RemovalIsAncestry(listed: Rows, files: seq<Ref>)
    requires WellTyped(listed) && Tight(listed) && AllFilesIn(files, listed)
    ensures AllRemoved(listed, files) == Ancestry(listed, FilesOf(listed) - ToSet(files))
  {
    AllRemovedCleansUp(listed, files);
    CleanedUpIsAncestry(listed, AllRemoved(listed, files), ToSet(files));
  }

  // ----- creating and removing undo each other -----

  /** Parents are there, or the row is a file that was not identified; id 0 is never given out. */
  predicate ParentsPresent(rows: Rows) {
    forall r :: r in rows ==>
        r.id != 0 && (rows[r].parent.Some? ==> rows[r].parent.value in rows || rows[r].parent.value.id == 0)
  }

  /** If adding a file and what is above it left the tables tight, removing the file and collecting
      gives back the tables from before. */
  lemma RemovingUndoesAdding(before: Rows, after: Rows, file: Ref)
    requires WellTyped(before) && Tight(before) && ParentsPresent(before)
    requires WellTyped(after) && Tight(after) && ParentsPresent(after) && Shrunk(after, before)
    requires IsFile(file) && file in after && FilesOf(after) - {file} == FilesOf(before)
    ensures FileRemoved(after, after, file) == before
  {
    assert CleanedUp(after, after, {});
    OneMoreRemoved(after, after, {}, file);
    CleanedUpIsAncestry(after, FileRemoved(after, after, file), {} + {file});
    assert {} + {file} == {file};
    assert CleanedUp(after, before, {file});
    CleanedUpIsAncestry(after, before, {file});
  }
}
