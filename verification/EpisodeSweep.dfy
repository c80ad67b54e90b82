/** What a collection of all episodes leaves of tables that need not be tight to begin with. */
module EpisodeSweep {
  import opened Catalog
  import opened GarbageCollection

  /** Rows that no collection of an episode can remove: whatever had nothing below it, episodes apart. */
  function Leaves(rows: Rows): set<Ref> {
    set r | r in rows && !r.table.Episodes? && !HasChild(rows, r)
  }

  /** `r` is one of the leaves or has one of them below it. */
  ghost predicate Rooted(rows: Rows, leaves: set<Ref>, r: Ref)
    requires WellTyped(rows)
    decreases Level(r.table)
  {
    r in rows && (r in leaves || exists c :: c in rows && rows[c].parent == Some(r) && Rooted(rows, leaves, c))
  }

  /** The leaves and what is above them. */
  ghost function Swept(rows: Rows): Rows
    requires WellTyped(rows)
  {
    map r | r in rows && Rooted(rows, Leaves(rows), r) :: rows[r]
  }

  /** Between two calls: leaves are there, and nothing but an episode or `r` lost its last child. */
  ghost predicate SweptSoFar(before: Rows, rows: Rows, r: Option<Ref>) {
    && WellTyped(before) && Shrunk(before, rows) && NoneOrphaned(before, rows)
    && (forall x :: x in Leaves(before) ==> x in rows)
    && (forall x :: x in rows && !x.table.Episodes? && Some(x) != r && HasChild(before, x) ==> HasChild(rows, x))
  }

  predicate Checked(rows: Rows, r: Ref) {
    r in rows ==> HasChild(rows, r)
  }

  lemma RemovedChildless(before: Rows, rows: Rows, r: Ref)
    requires SweptSoFar(before, rows, Some(r)) && r in rows && !HasChild(rows, r)
    requires r.table.Episodes? || HasChild(before, r)
    ensures SweptSoFar(before, rows - {r}, rows[r].parent)
  {
    var rest := rows - {r};
    forall x | x in rest && !x.table.Episodes? && Some(x) != rows[r].parent && HasChild(before, x)
      ensures HasChild(rest, x)
    {
      ChildrenWithout(rows, r, x);
    }
    forall x | x in rest && rest[x].parent.Some? && rest[x].parent.value in before
      ensures rest[x].parent.value in rest
    {
      assert rows[x].parent == rest[x].parent;
    }
  }

  lemma {:induction false} CollectedSweeps(before: Rows, rows: Rows, r: Ref)
    requires SweptSoFar(before, rows, Some(r)) && (r.table.Episodes? || (r in rows ==> HasChild(before, r)))
    ensures SweptSoFar(before, Collected(rows, r), None) && Checked(Collected(rows, r), r)
    decreases 4 - Level(r.table)
  {
    if r in rows && !HasChild(rows, r) {
      RemovedChildless(before, rows, r);
      var rest := rows - {r};
      match before[r].parent
      case None =>
      case Some(p) =>
        assert HasChild(before, p);
        CollectedSweeps(before, rest, p);
        CollectedShrinks(rest, p);
    }
  }

  /** Episodes found with files keep them. */
  lemma StillChecked(rows: Rows, r: Ref, episode: Ref)
    requires WellTyped(rows) && !IsFile(r) && episode.table.Episodes? && Checked(rows, episode)
    ensures Checked(Collected(rows, r), episode)
  {
    CollectedShrinks(rows, r);
    CollectedKeepsFiles(rows, r);
    if episode in rows {
      var c :| c in rows && rows[c].parent == Some(episode);
      assert c in FilesOf(rows);
    }
  }

  lemma {:induction false} RemainingIsRooted(before: Rows, rows: Rows, r: Ref)
    requires SweptSoFar(before, rows, None) && r in rows
    requires forall e :: e in rows && e.table.Episodes? ==> Checked(rows, e)
    ensures Rooted(before, Leaves(before), r)
    decreases Level(r.table)
  {
    if HasChild(rows, r) {
      var c :| c in rows && rows[c].parent == Some(r);
      RemainingIsRooted(before, rows, c);
      assert c in before && before[c].parent == Some(r);
    } else {
      assert !r.table.Episodes? && !HasChild(before, r);
      assert r in Leaves(before);
    }
  }

  lemma {:induction false} RootedRemains(before: Rows, rows: Rows, r: Ref)
    requires SweptSoFar(before, rows, None) && Rooted(before, Leaves(before), r)
    ensures r in rows
    decreases Level(r.table)
  {
    if r !in Leaves(before) {
      var c :| c in before && before[c].parent == Some(r) && Rooted(before, Leaves(before), c);
      RootedRemains(before, rows, c);
    }
  }

  /** Once every episode has been checked, the tables are determined: in whatever order the episodes
      were collected, exactly the leaves and what is above them is left. */
  lemma SweepOutcome(before: Rows, rows: Rows)
    requires SweptSoFar(before, rows, None)
    requires forall e :: e in rows && e.table.Episodes? ==> Checked(rows, e)
    ensures rows == Swept(before)
  {
    forall r | r in rows ensures Rooted(before, Leaves(before), r) {
      RemainingIsRooted(before, rows, r);
    }
    forall r | r in before && Rooted(before, Leaves(before), r) ensures r in rows {
      RootedRemains(before, rows, r);
    }
  }

  /** A sweep makes tables tight exactly if no season, series or movie was empty before. */
  lemma SweptIsTightExactly(rows: Rows)
    requires WellTyped(rows)
    ensures Tight(Swept(rows)) <==> forall r :: r in Leaves(rows) ==> IsFile(r)
  {
    var after := Swept(rows);
    forall r | r in Leaves(rows) ensures r in after && !HasChild(after, r) {
      assert Rooted(rows, Leaves(rows), r);
    }
    forall r | r in after && !IsFile(r) && r !in Leaves(rows) ensures HasChild(after, r) {
      var c :| c in rows && rows[c].parent == Some(r) && Rooted(rows, Leaves(rows), c);
      assert c in after && after[c].parent == Some(r);
    }
  }
}
