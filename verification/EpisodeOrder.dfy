/** The episode order queries: GetNextEpisodes and GetPreviousEpisodes of metadata/db/series.go and
    UpNextEpisodes of metadata/db/play_state.go.  An entry is an episode joined with its season. */
module EpisodeOrder {
  import opened Catalog

  datatype Entry = Entry(id: nat, series: nat, season: int, num: int)

  predicate Less(a: Entry, b: Entry) {
    a.season < b.season || (a.season == b.season && a.num < b.num)
  }

  /** No two episodes of a series share season and number. */
  predicate Numbered(entries: set<Entry>) {
    forall a, b :: a in entries && b in entries && a.series == b.series ==>
      a.season == b.season && a.num == b.num ==> a == b
  }

  function InSeries(entries: set<Entry>, series: nat): set<Entry> {
    set e | e in entries && e.series == series
  }

  function Following(entries: set<Entry>, t: Entry): set<Entry> {
    set e | e in entries && e.series == t.series && Less(t, e)
  }

  function Preceding(entries: set<Entry>, t: Entry): set<Entry> {
    set e | e in entries && e.series == t.series && Less(e, t)
  }

  // ----- ORDER BY and LIMIT -----

  predicate Ordered(rows: seq<Entry>) {
    forall i, j :: 0 <= i < j < |rows| ==> !Less(rows[j], rows[i])
  }

  predicate Distinct(rows: seq<Entry>) {
    forall i, j :: 0 <= i < j < |rows| ==> rows[i] != rows[j]
  }

  /** A query may return: the matching rows, each once, in season and episode order. */
  ghost predicate Sorts(rows: seq<Entry>, matching: set<Entry>) {
    Ordered(rows) && Distinct(rows) && forall e :: e in rows <==> e in matching
  }

  function Reverse(rows: seq<Entry>): (r: seq<Entry>)
    ensures |r| == |rows| && forall i :: 0 <= i < |r| ==> r[i] == rows[|rows| - 1 - i]
  {
    seq(|rows|, i requires 0 <= i < |rows| => rows[|rows| - 1 - i])
  }

  /** A negative limit means none. */
  function Limit(rows: seq<Entry>, limit: int): seq<Entry> {
    if 0 <= limit < |rows| then rows[..limit] else rows
  }

  /** `rows` is an answer to GetNextEpisodes(t, limit). */
  ghost predicate IsNext(entries: set<Entry>, t: Entry, limit: int, rows: seq<Entry>) {
    exists full :: Sorts(full, Following(entries, t)) && rows == Limit(full, limit)
  }

  /** `rows` is an answer to GetPreviousEpisodes(t, limit), which counts backwards from t. */
  ghost predicate IsPrevious(entries: set<Entry>, t: Entry, limit: int, rows: seq<Entry>) {
    exists full :: Sorts(full, Preceding(entries, t)) && rows == Limit(Reverse(full), limit)
  }

  // ----- the order is total where numbering is unique -----

  predicate StrictlyOrdered(rows: seq<Entry>) {
    forall i, j :: 0 <= i < j < |rows| ==> Less(rows[i], rows[j])
  }

  lemma SortsStrictly(rows: seq<Entry>, matching: set<Entry>, entries: set<Entry>, series: nat)
    requires Sorts(rows, matching) && Numbered(entries) && matching <= InSeries(entries, series)
    ensures StrictlyOrdered(rows)
  {
    forall i, j | 0 <= i < j < |rows| ensures Less(rows[i], rows[j]) {
      assert rows[i] in matching && rows[j] in matching;
      assert rows[i] != rows[j];
    }
  }

  lemma {:induction false} StrictOrderUnique(xs: seq<Entry>, ys: seq<Entry>)
    requires StrictlyOrdered(xs) && StrictlyOrdered(ys) && forall e :: e in xs <==> e in ys
    ensures xs == ys
  {
    assert xs != [] ==> xs[0] in ys;
    assert ys != [] ==> ys[0] in xs;
    if xs != [] {
      var i :| 0 <= i < |ys| && ys[i] == xs[0];
      var j :| 0 <= j < |xs| && xs[j] == ys[0];
      assert i == 0;
      forall e ensures e in xs[1..] <==> e in ys[1..] {
        if e in xs[1..] {
          var k :| 1 <= k < |xs| && xs[k] == e;
          assert Less(xs[0], e) && e in ys;
        }
        if e in ys[1..] {
          var k :| 1 <= k < |ys| && ys[k] == e;
          assert Less(ys[0], e) && e in xs;
        }
      }
      StrictOrderUnique(xs[1..], ys[1..]);
    }
  }

  /** The previous episodes read backwards, the episode and the next episodes are the whole series in
      order. */
  lemma AroundIsWhole(entries: set<Entry>, t: Entry, limit: int, prev: seq<Entry>, next: seq<Entry>, whole: seq<Entry>)
    requires Numbered(entries) && t in entries && limit < 0
    requires IsPrevious(entries, t, limit, prev) && IsNext(entries, t, limit, next)
    requires Sorts(whole, InSeries(entries, t.series))
    ensures Reverse(prev) + [t] + next == whole
  {
    var full :| Sorts(full, Preceding(entries, t)) && prev == Limit(Reverse(full), limit);
    assert Reverse(prev) == full;
    SortsStrictly(full, Preceding(entries, t), entries, t.series);
    SortsStrictly(next, Following(entries, t), entries, t.series);
    SortsStrictly(whole, InSeries(entries, t.series), entries, t.series);
    var joined := full + [t] + next;
    JoinedStrictly(full, t, next);
    forall e ensures e in joined <==> e in whole {
      assert e in full <==> e in Preceding(entries, t);
      assert e in next <==> e in Following(entries, t);
      assert e in whole <==> e in InSeries(entries, t.series);
    }
    StrictOrderUnique(joined, whole);
  }

  lemma JoinedStrictly(before: seq<Entry>, t: Entry, after: seq<Entry>)
    requires StrictlyOrdered(before) && StrictlyOrdered(after)
    requires (forall e :: e in before ==> Less(e, t)) && (forall e :: e in after ==> Less(t, e))
    ensures StrictlyOrdered(before + [t] + after)
  {
    var joined := before + [t] + after;
    forall i, j | 0 <= i < j < |joined| ensures Less(joined[i], joined[j]) {
      assert i < |before| ==> joined[i] in before;
      assert j > |before| ==> joined[j] in after;
    }
  }

  lemma LimitSplits(full: seq<Entry>, limit: int)
    ensures var rows := Limit(full, limit);
            && rows <= full && (if 0 <= limit < |full| then |rows| == limit else rows == full)
            && forall e :: e in full && e !in rows ==> exists j :: |rows| <= j < |full| && full[j] == e
  {
  }

  lemma ReverseMembers(full: seq<Entry>)
    ensures forall e :: e in Reverse(full) <==> e in full
  {
    assert forall i :: 0 <= i < |full| ==> full[i] == Reverse(full)[|full| - 1 - i];
  }

  /** What an answer to GetNextEpisodes is, for any limit: episodes of the same series after t, in ascending
      order of (season, number), each once; all of them up to the limit, and before those left out. */
  lemma NextAnswer(entries: set<Entry>, t: Entry, limit: int, rows: seq<Entry>)
    requires Numbered(entries) && IsNext(entries, t, limit, rows)
    ensures forall e :: e in rows ==>
              e in entries && e.series == t.series
              && (e.season > t.season || (e.season == t.season && e.num > t.num))
    ensures forall i, j :: 0 <= i < j < |rows| ==>
              rows[i].season < rows[j].season || (rows[i].season == rows[j].season && rows[i].num < rows[j].num)
    ensures forall e, i :: e in entries && e.series == t.series && e !in rows && 0 <= i < |rows| ==>
              (e.season > t.season || (e.season == t.season && e.num > t.num)) ==>
              rows[i].season < e.season || (rows[i].season == e.season && rows[i].num < e.num)
    ensures limit >= 0 ==> |rows| <= limit
    ensures limit < 0 || |rows| < limit ==>
              forall e :: e in entries && e.series == t.series && e !in rows ==>
                e.season < t.season || (e.season == t.season && e.num <= t.num)
  {
    var full :| Sorts(full, Following(entries, t)) && rows == Limit(full, limit);
    SortsStrictly(full, Following(entries, t), entries, t.series);
    LimitSplits(full, limit);
    forall e | e in Following(entries, t) && e !in rows
      ensures |rows| == limit && forall i :: 0 <= i < |rows| ==> Less(rows[i], e)
    {
      var j :| |rows| <= j < |full| && full[j] == e;
    }
    forall e | e in rows ensures e in Following(entries, t) {
      assert e in full;
    }
  }

  /** And to GetPreviousEpisodes: episodes before t, in descending order, and after those left out. */
  lemma PreviousAnswer(entries: set<Entry>, t: Entry, limit: int, rows: seq<Entry>)
    requires Numbered(entries) && IsPrevious(entries, t, limit, rows)
    ensures forall e :: e in rows ==>
              e in entries && e.series == t.series
              && (e.season < t.season || (e.season == t.season && e.num < t.num))
    ensures forall i, j :: 0 <= i < j < |rows| ==>
              rows[i].season > rows[j].season || (rows[i].season == rows[j].season && rows[i].num > rows[j].num)
    ensures forall e, i :: e in entries && e.series == t.series && e !in rows && 0 <= i < |rows| ==>
              (e.season < t.season || (e.season == t.season && e.num < t.num)) ==>
              rows[i].season > e.season || (rows[i].season == e.season && rows[i].num > e.num)
    ensures limit >= 0 ==> |rows| <= limit
    ensures limit < 0 || |rows| < limit ==>
              forall e :: e in entries && e.series == t.series && e !in rows ==>
                e.season > t.season || (e.season == t.season && e.num >= t.num)
  {
    var full :| Sorts(full, Preceding(entries, t)) && rows == Limit(Reverse(full), limit);
    SortsStrictly(full, Preceding(entries, t), entries, t.series);
    var back := Reverse(full);
    ReverseMembers(full);
    LimitSplits(back, limit);
    forall e | e in Preceding(entries, t) && e !in rows
      ensures |rows| == limit && forall i :: 0 <= i < |rows| ==> Less(e, rows[i])
    {
      var j :| |rows| <= j < |back| && back[j] == e;
    }
    forall e | e in rows ensures e in Preceding(entries, t) {
      assert e in back;
    }
  }

  /** A limited answer counts back from t: it is a prefix of the unlimited one. */
  lemma LimitedPreviousIsPrefix(entries: set<Entry>, t: Entry, limit: nat, some: seq<Entry>, all: seq<Entry>)
    requires Numbered(entries) && IsPrevious(entries, t, limit, some) && IsPrevious(entries, t, -1, all)
    ensures some <= all && |some| == (if limit < |all| then limit else |all|)
  {
    var full :| Sorts(full, Preceding(entries, t)) && some == Limit(Reverse(full), limit);
    var full' :| Sorts(full', Preceding(entries, t)) && all == Limit(Reverse(full'), -1);
    SortsStrictly(full, Preceding(entries, t), entries, t.series);
    SortsStrictly(full', Preceding(entries, t), entries, t.series);
    StrictOrderUnique(full, full');
  }

  /** Forwards as well. */
  lemma LimitIsPrefix(entries: set<Entry>, t: Entry, limit: nat, some: seq<Entry>, all: seq<Entry>)
    requires Numbered(entries) && IsNext(entries, t, limit, some) && IsNext(entries, t, -1, all)
    ensures some <= all && |some| == (if limit < |all| then limit else |all|)
  {
    var full :| Sorts(full, Following(entries, t)) && some == Limit(full, limit);
    SortsStrictly(full, Following(entries, t), entries, t.series);
    SortsStrictly(all, Following(entries, t), entries, t.series);
    StrictOrderUnique(full, all);
  }

  // ----- what to watch next -----

  function Height(e: Entry): int {
    e.season * 100 + e.num
  }

  predicate NumbersUpTo(entries: set<Entry>, bound: int) {
    forall e :: e in entries ==> 1 <= e.num <= bound
  }

  /** Season times 100 plus number orders episodes like (season, number), for every pair numbered from 1
      up to some bound, exactly if that bound is at most 100. */
  lemma HeightOrdersExactly(bound: int)
    requires bound >= 1
    ensures bound <= 100 <==>
            forall a, b :: NumbersUpTo({a, b}, bound) ==> (Less(a, b) <==> Height(a) < Height(b))
  {
    if bound <= 100 {
      forall a, b | NumbersUpTo({a, b}, bound) ensures Less(a, b) <==> Height(a) < Height(b) {
        HeightOrders(a, b, {a, b});
      }
    } else {
      var a, b := Entry(0, 0, 1, 101), Entry(0, 0, 2, 1);
      assert NumbersUpTo({a, b}, bound) && Less(a, b) && !(Height(a) < Height(b));
    }
  }

  lemma HeightOrders(a: Entry, b: Entry, entries: set<Entry>)
    requires NumbersUpTo(entries, 100) && a in entries && b in entries
    ensures Less(a, b) <==> Height(a) < Height(b)
  {
  }

  /** The first of the matching rows, as ORDER BY season_number, episode_num LIMIT 1 returns it. */
  predicate IsFirst(matching: set<Entry>, r: Option<Entry>) {
    match r
    case None => matching == {}
    case Some(x) => x in matching && forall y :: y in matching ==> !Less(y, x)
  }

  method First(matching: set<Entry>) returns (r: Option<Entry>)
    ensures IsFirst(matching, r)
  {
    r := None;
    var rest := matching;
    while rest != {}
      invariant rest <= matching && IsFirst(matching - rest, r)
      decreases rest
    {
      var e :| e in rest;
      assert matching - (rest - {e}) == matching - rest + {e};
      if r == None || Less(e, r.value) {
        r := Some(e);
      }
      rest := rest - {e};
    }
    assert matching - {} == matching;
  }

  /** The play states of one user: for each episode id whether it was finished. */
  function Played(entries: set<Entry>, states: map<nat, bool>, series: nat): set<Entry> {
    set e | e in entries && e.series == series && e.id in states
  }

  predicate IsHighest(matching: set<Entry>, r: Entry) {
    r in matching && forall y :: y in matching ==> Height(y) <= Height(r)
  }

  method Highest(matching: set<Entry>) returns (r: Entry)
    requires matching != {}
    ensures IsHighest(matching, r)
  {
    r :| r in matching;
    var rest := matching - {r};
    while rest != {}
      invariant rest <= matching && IsHighest(matching - rest, r)
      decreases rest
    {
      var e :| e in rest;
      assert matching - (rest - {e}) == matching - rest + {e};
      if Height(e) > Height(r) {
        r := e;
      }
      rest := rest - {e};
    }
    assert matching - {} == matching;
  }

  function LaterInSeason(entries: set<Entry>, r: Entry): set<Entry> {
    set e | e in entries && e.series == r.series && e.season == r.season && e.num > r.num
  }

  function InLaterSeasons(entries: set<Entry>, r: Entry): set<Entry> {
    set e | e in entries && e.series == r.series && e.season > r.season && e.num > 0
  }

  /** The answer of the two-stage search after a finished episode. */
  predicate IsSuccessor(entries: set<Entry>, r: Entry, next: Option<Entry>) {
    if LaterInSeason(entries, r) != {} then IsFirst(LaterInSeason(entries, r), next)
    else IsFirst(InLaterSeasons(entries, r), next)
  }

  ghost predicate IsUpNext(entries: set<Entry>, states: map<nat, bool>, series: nat, pick: Option<Entry>) {
    exists r ::
      && IsHighest(Played(entries, states, series), r)
      && if states[r.id] then IsSuccessor(entries, r, pick) else pick == Some(r)
  }

  /** The loop body of UpNextEpisodes. */
  method UpNextInSeries(entries: set<Entry>, states: map<nat, bool>, series: nat) returns (pick: Option<Entry>)
    requires Played(entries, states, series) != {}  // the series come from the user's play states
    ensures IsUpNext(entries, states, series, pick)
  {
    var r := Highest(Played(entries, states, series));
    if !states[r.id] {
      pick := Some(r);
    } else {
      pick := First(LaterInSeason(entries, r));
      if pick == None {
        pick := First(InLaterSeasons(entries, r));
      }
      assert IsSuccessor(entries, r, pick);
    }
  }

  ghost predicate AreUpNext(entries: set<Entry>, states: map<nat, bool>, seriesIDs: seq<nat>,
                            picks: seq<Option<Entry>>)
  {
    |picks| == |seriesIDs| && forall i :: 0 <= i < |picks| ==> IsUpNext(entries, states, seriesIDs[i], picks[i])
  }

  /** The series with a play state, each once, in the order the database happens to return them. */
  predicate ListsPlayed(seriesIDs: seq<nat>, entries: set<Entry>, states: map<nat, bool>) {
    && (forall e :: e in entries && e.id in states ==> e.series in seriesIDs)
    && (forall s :: s in seriesIDs ==> exists e :: e in entries && e.id in states && e.series == s)
    && (forall i, j :: 0 <= i < j < |seriesIDs| ==> seriesIDs[i] != seriesIDs[j])
  }

  lemma PlayedSeries(entries: set<Entry>, states: map<nat, bool>, seriesIDs: seq<nat>, i: nat)
    requires ListsPlayed(seriesIDs, entries, states) && i < |seriesIDs|
    ensures Played(entries, states, seriesIDs[i]) != {}
  {
    var s := seriesIDs[i];
    assert s in seriesIDs;
    var e :| e in entries && e.id in states && e.series == s;
    assert e in Played(entries, states, s);
  }

  /** The first query of UpNextEpisodes. */
  method FindPlayedSeries(entries: set<Entry>, states: map<nat, bool>) returns (seriesIDs: seq<nat>)
    ensures ListsPlayed(seriesIDs, entries, states)
  {
    seriesIDs := [];
    var rest := set e | e in entries && e.id in states;
    while rest != {}
      invariant rest <= set e | e in entries && e.id in states
      invariant ListsPlayed(seriesIDs, entries - rest, states)
      decreases rest
    {
      var e :| e in rest;
      assert e in Played({e}, states, e.series);
      forall s: nat
        ensures Played(entries - (rest - {e}), states, s) == Played(entries - rest, states, s) + Played({e}, states, s)
      {
      }
      if e.series !in seriesIDs {
        seriesIDs := seriesIDs + [e.series];
      }
      rest := rest - {e};
    }
    assert entries - {} == entries;
  }

  /** `eps` are the answers that there are, in order, and `at` says which. */
  ghost predicate Compacts(picks: seq<Option<Entry>>, eps: seq<Entry>, at: seq<nat>) {
    && |at| == |eps| && (forall k :: 0 <= k < |at| ==> at[k] < |picks| && picks[at[k]] == Some(eps[k]))
    && (forall j, k :: 0 <= j < k < |at| ==> at[j] < at[k])
    && (forall i: nat :: i < |picks| ==> (picks[i].Some? <==> i in at))
  }

  lemma CompactsMore(picks: seq<Option<Entry>>, eps: seq<Entry>, at: seq<nat>, pick: Option<Entry>)
    requires Compacts(picks, eps, at)
    ensures pick == None ==> Compacts(picks + [pick], eps, at)
    ensures pick.Some? ==> Compacts(picks + [pick], eps + [pick.value], at + [|picks|])
  {
    assert |picks| !in at;
    assert pick.Some? ==> |picks| in at + [|picks|];
  }

  /** One answer for each series the user has a play state in, in the order the series are found: `at` says
      which of the answers each episode is, and leaves out only the series with no answer. */
  method UpNextEpisodes(entries: set<Entry>, states: map<nat, bool>) returns (eps: seq<Entry>)
    ensures exists seriesIDs, picks: seq<Option<Entry>>, at: seq<nat> ::
              && ListsPlayed(seriesIDs, entries, states) && AreUpNext(entries, states, seriesIDs, picks)
              && |at| == |eps| && (forall k :: 0 <= k < |at| ==> at[k] < |picks| && picks[at[k]] == Some(eps[k]))
              && (forall j, k :: 0 <= j < k < |at| ==> at[j] < at[k])
              && (forall i: nat :: i < |picks| ==> (picks[i].Some? <==> i in at))
  {
    var seriesIDs := FindPlayedSeries(entries, states);
    eps := [];
    ghost var picks: seq<Option<Entry>>, at: seq<nat> := [], [];
    for i := 0 to |seriesIDs|
      invariant AreUpNext(entries, states, seriesIDs[..i], picks)
      invariant Compacts(picks, eps, at)
    {
      PlayedSeries(entries, states, seriesIDs, i);
      var pick := UpNextInSeries(entries, states, seriesIDs[i]);
      assert (picks + [pick])[..i] == picks;
      CompactsMore(picks, eps, at, pick);
      picks := picks + [pick];
      match pick {
        case Some(e) =>
          eps := eps + [e];
          at := at + [i];
        case None =>
      }
    }
    assert seriesIDs[..|seriesIDs|] == seriesIDs;
  }

  /** The two-stage search finds the first of the next episodes that is in the same season or numbered from
      1, and nothing if there is none. */
  lemma SuccessorIsFirst(entries: set<Entry>, r: Entry, pick: Option<Entry>, next: seq<Entry>)
    requires Numbered(entries) && IsSuccessor(entries, r, pick) && IsNext(entries, r, -1, next)
    ensures match pick
            case None => forall e :: e in next ==> e.season != r.season && e.num <= 0
            case Some(x) =>
              && (x.season == r.season || x.num > 0)
              && exists i :: 0 <= i < |next| && next[i] == x
                  && forall j :: 0 <= j < i ==> next[j].season != r.season && next[j].num <= 0
  {
    SortsStrictly(next, Following(entries, r), entries, r.series);
    assert forall e :: e in next <==> e in Following(entries, r);
    match pick
    case None =>
      forall e | e in next ensures e.season != r.season && e.num <= 0 {
        assert e !in LaterInSeason(entries, r) && e !in InLaterSeasons(entries, r);
      }
    case Some(x) =>
      assert x in Following(entries, r);
      var i :| 0 <= i < |next| && next[i] == x;
      forall j | 0 <= j < i ensures next[j].season != r.season && next[j].num <= 0 {
        var y := next[j];
        assert Less(y, x) && y in Following(entries, r);
        assert y.season == r.season ==> y in LaterInSeason(entries, r);
        assert y.season > r.season && y.num > 0 ==> y in InLaterSeasons(entries, r);
      }
  }

  /** The two-stage search finds the head of GetNextEpisodes, exactly if that head is in the same season
      or is not numbered 0 or below; with no next episode it finds nothing. */
  lemma SuccessorIsNextExactly(entries: set<Entry>, r: Entry, pick: Option<Entry>, next: seq<Entry>)
    requires Numbered(entries) && IsSuccessor(entries, r, pick) && IsNext(entries, r, -1, next)
    ensures pick == (if next == [] then None else Some(next[0])) <==>
            next == [] || next[0].season == r.season || next[0].num > 0
  {
    SortsStrictly(next, Following(entries, r), entries, r.series);
    assert LaterInSeason(entries, r) <= Following(entries, r) && InLaterSeasons(entries, r) <= Following(entries, r);
    assert forall e :: e in Following(entries, r) ==> e in next;
    if next != [] {
      var head := next[0];
      assert head in Following(entries, r);
      assert forall e :: e in Following(entries, r) ==> e == head || Less(head, e);
      assert head.season == r.season <==> head in LaterInSeason(entries, r);
      assert head.season > r.season && head.num > 0 <==> head in InLaterSeasons(entries, r);
    }
  }

  /** For example, after the only episode of season 1 a special numbered 0 of season 2 comes next, and the
      search skips it. */
  lemma SpecialIsSkipped() returns (entries: set<Entry>, r: Entry, pick: Option<Entry>, next: seq<Entry>)
    ensures Numbered(entries) && r in entries && IsSuccessor(entries, r, pick) && IsNext(entries, r, -1, next)
    ensures next != [] && pick.Some? && pick != Some(next[0])
  {
    var special, first := Entry(2, 1, 2, 0), Entry(3, 1, 2, 1);
    r := Entry(1, 1, 1, 1);
    entries, pick, next := {r, special, first}, Some(first), [special, first];
    assert LaterInSeason(entries, r) == {} && InLaterSeasons(entries, r) == {first};
    assert Following(entries, r) == {special, first} && Sorts(next, Following(entries, r));
  }

  lemma HighestIsFurthest(entries: set<Entry>, states: map<nat, bool>, series: nat, r: Entry)
    requires Numbered(entries) && NumbersUpTo(InSeries(entries, series), 100)
    requires IsHighest(Played(entries, states, series), r)
    ensures r in entries && r.series == series && r.id in states
    ensures forall e :: e in entries && e.series == series && e.id in states && e != r ==>
              e.season < r.season || (e.season == r.season && e.num < r.num)
  {
    forall e | e in entries && e.series == series && e.id in states && e != r ensures Less(e, r) {
      assert e in Played(entries, states, series);
      HeightOrders(r, e, InSeries(entries, series));
      HeightOrders(e, r, InSeries(entries, series));
    }
  }

  /** With the series' episodes numbered 1 to 100 the pick is the furthest episode played, or if that is finished the
      episode GetNextEpisodes lists first. */
  lemma UpNextIsNext(entries: set<Entry>, states: map<nat, bool>, series: nat, pick: Option<Entry>)
    requires Numbered(entries) && NumbersUpTo(InSeries(entries, series), 100)
    requires IsUpNext(entries, states, series, pick)
    ensures exists r ::
              && r in entries && r.series == series && r.id in states
              && (forall e :: e in entries && e.series == series && e.id in states && e != r ==>
                    e.season < r.season || (e.season == r.season && e.num < r.num))
              && (!states[r.id] ==> pick == Some(r))
              && (states[r.id] ==> forall next :: IsNext(entries, r, -1, next) ==>
                                     pick == if next == [] then None else Some(next[0]))
  {
    var r :| && IsHighest(Played(entries, states, series), r)
             && if states[r.id] then IsSuccessor(entries, r, pick) else pick == Some(r);
    HighestIsFurthest(entries, states, series, r);
    if states[r.id] {
      forall next | IsNext(entries, r, -1, next) ensures pick == if next == [] then None else Some(next[0]) {
        SuccessorIsNextExactly(entries, r, pick, next);
        if next != [] { assert next[0] in Following(entries, r) && next[0] in InSeries(entries, series); }
      }
    }
  }
}
