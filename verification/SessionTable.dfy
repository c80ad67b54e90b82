/** streaming/session.go and the counters of streaming/segments.go as a state machine: a table from keys
    to sessions, the sessions ever created with their reference counts, and the references that request
    handlers hold.  `S` is the identity of a session.  Every step is atomic. */
module SessionTable {

  const INIT_SEGMENT_IDX: int := -1

  datatype StreamKey = StreamKey(fileLocator: string, streamId: int)

  datatype Key = Key(stream: StreamKey, sessionID: string, representationID: string, userID: nat)

  /** `start` is the index the session was created for, `trail` the indices served, oldest first, and
      `destroyed` the number of times its transcoder has been destroyed. */
  datatype Info = Info(key: Key, id: nat, start: int, requested: int, served: int, refs: int, accessed: int,
                       destroyed: nat, trail: seq<int>)

  datatype State<S> = State(table: map<Key, S>, info: map<S, Info>, held: multiset<S>)

  function NewInfo(key: Key, id: nat, start: int, now: int): Info {
    Info(key, id, start, start - 1, start - 1, 1, now, 0, [])
  }

  function Retained(i: Info): Info {
    i.(refs := i.refs + 1)
  }

  /** Release with CleanupIfRequired. */
  function Released(i: Info): Info {
    i.(refs := i.refs - 1, destroyed := i.destroyed + if i.refs - 1 > 0 then 0 else 1)
  }

  /** One answer to a request for index `idx`: the next segment is written, and counted unless the
      request repeats the last one. */
  function Answered(i: Info, idx: int, now: int): Info {
    if i.requested != idx then
      i.(trail := i.trail + [i.served + 1], requested := idx, served := i.served + 1, accessed := now)
    else
      i.(trail := i.trail + [i.served + 1], accessed := now)
  }

  // ----- steps -----

  datatype Step<S> =
    | Get(key: Key, idx: int, created: S, id: nat, now: int)  // GetPlaybackSession; creation succeeds
    | GetByID(s: S)                                         // GetPlaybackSessionByID finds s
    | Release(s: S)                                         // a handler is done with s
    | Serve(s: S, idx: int, now: int)                       // a handler writes a media segment
    | ServeInit(s: S, now: int)                             // a handler writes the init segment
    | Timeout(s: S)                                         // the timer of s removes it
    | Collect(keep: set<S>)                                 // one pass of garbage collection

  predicate Mapped<S(==)>(st: State<S>, s: S) {
    s in st.info && st.info[s].key in st.table && st.table[st.info[s].key] == s
  }

  /** Whether a request can use a session with the given counter: the init segment always can, a media
      segment within the next four. */
  predicate InWindow(requested: int, idx: int) {
    idx == INIT_SEGMENT_IDX || requested < idx < requested + 5
  }

  predicate Hit<S(==)>(st: State<S>, key: Key, idx: int) {
    key in st.table && st.table[key] in st.info && InWindow(st.info[st.table[key]].requested, idx)
  }

  predicate SameGroup(a: Info, b: Info) {
    a.key.stream == b.key.stream && a.key.userID == b.key.userID
  }

  /** One mapped session per (stream, user) that has any, accessed last in its group. */
  predicate Survivors<S(==)>(st: State<S>, keep: set<S>) {
    && (forall s :: s in keep ==> Mapped(st, s))
    && (forall s, t :: s in keep && t in keep && SameGroup(st.info[s], st.info[t]) ==> s == t)
    && (forall k :: k in st.table && st.table[k] in st.info ==> Outlived(st, keep, st.table[k]))
  }

  predicate Outlived<S(==)>(st: State<S>, keep: set<S>, t: S)
    requires t in st.info
  {
    exists s :: s in keep && s in st.info && SameGroup(st.info[s], st.info[t])
        && st.info[t].accessed <= st.info[s].accessed
  }

  predicate Enabled<S(==)>(st: State<S>, step: Step<S>) {
    match step
    case Get(key, idx, created, _, _) => !Hit(st, key, idx) ==> created !in st.info
    case GetByID(s) => Mapped(st, s)
    case Release(s) => s in st.held && s in st.info
    case Serve(s, _, _) => s in st.held && s in st.info
    case ServeInit(s, _) => s in st.held && s in st.info
    case Timeout(s) => Mapped(st, s)
    case Collect(keep) => Survivors(st, keep)
  }

  function AfterGet<S(==)>(st: State<S>, key: Key, idx: int, created: S, id: nat, now: int): State<S> {
    if Hit(st, key, idx) then
      var s := st.table[key];
      st.(info := st.info[s := Retained(st.info[s])], held := st.held + multiset{s})
    else
      var info := if key in st.table && st.table[key] in st.info
                  then st.info[st.table[key] := Released(st.info[st.table[key]])] else st.info;
      var start := if idx == INIT_SEGMENT_IDX then 0 else idx;
      State(st.table[key := created], info[created := Retained(NewInfo(key, id, start, now))],
          st.held + multiset{created})
  }

  /** GetPlaybackSession when the creation of the new session fails. */
  function AfterFailedGet<S(==)>(st: State<S>, key: Key): State<S> {
    if key in st.table && st.table[key] in st.info then
      st.(info := st.info[st.table[key] := Released(st.info[st.table[key]])])
    else st
  }

  /** removePlaybackSession: it deletes by key, whatever session the key is mapped to. */
  function AfterRemove<S(==)>(st: State<S>, s: S): State<S>
    requires s in st.info
  {
    st.(table := st.table - {st.info[s].key}, info := st.info[s := Released(st.info[s])])
  }

  function AfterCollect<S(==)>(st: State<S>, keep: set<S>): State<S> {
    st.(table := map k | k in st.table && st.table[k] in keep :: st.table[k],
        info := map s | s in st.info :: if Mapped(st, s) && s !in keep then Released(st.info[s]) else st.info[s])
  }

  function Apply<S(==)>(st: State<S>, step: Step<S>): State<S>
    requires Enabled(st, step)
  {
    match step
    case Get(key, idx, created, id, now) => AfterGet(st, key, idx, created, id, now)
    case GetByID(s) => st.(info := st.info[s := Retained(st.info[s])], held := st.held + multiset{s})
    case Release(s) => st.(info := st.info[s := Released(st.info[s])], held := st.held - multiset{s})
    case Serve(s, idx, now) => st.(info := st.info[s := Answered(st.info[s], idx, now)])
    case ServeInit(s, now) => st.(info := st.info[s := st.info[s].(accessed := now)])
    case Timeout(s) => AfterRemove(st, s)
    case Collect(keep) => AfterCollect(st, keep)
  }

  // ----- the invariant -----

  function MappedCount<S(==)>(st: State<S>, s: S): nat {
    if Mapped(st, s) then 1 else 0
  }

  /** The reference count is one for the table plus one for each holding handler, and the transcoder has
      been destroyed once if it is zero and not at all otherwise. */
  predicate Conserved<S(==)>(st: State<S>, s: S)
    requires s in st.info
  {
    && st.info[s].refs == MappedCount(st, s) + st.held[s]
    && st.info[s].destroyed == (if st.info[s].refs == 0 then 1 else 0)
  }

  /** Every index from the start to the last one served has been served, and none past the next. */
  predicate InOrder(i: Info) {
    && i.start - 1 <= i.served
    && (forall x :: i.start <= x <= i.served ==> x in i.trail)
    && (forall x :: x in i.trail ==> i.start <= x <= i.served + 1)
  }

  /** The table maps each key to a session created for it, and handlers hold sessions that were created. */
  predicate Keyed<S(==)>(st: State<S>) {
    && (forall k :: k in st.table ==> st.table[k] in st.info && st.info[st.table[k]].key == k)
    && (forall s :: s in st.held ==> s in st.info)
  }

  /** The first two clauses are Keyed. */
  predicate Inv<S(==)>(st: State<S>) {
    && (forall k :: k in st.table ==> st.table[k] in st.info && st.info[st.table[k]].key == k)
    && (forall s :: s in st.held ==> s in st.info)
    && (forall s :: s in st.info ==> Conserved(st, s))
    && (forall s :: s in st.info ==> InOrder(st.info[s]))
  }

  // ----- every step keeps it -----

  /** Whom the table returns after a lookup that created a session: the new one in place of the old. */
  lemma MissMapped<S>(st: State<S>, key: Key, idx: int, created: S, id: nat, now: int, s: S)
    requires Keyed(st) && !Hit(st, key, idx) && created !in st.info
    ensures var st' := AfterGet(st, key, idx, created, id, now);
            Mapped(st', s) <==> s == created || (Mapped(st, s) && st.info[s].key != key)
  {
  }

  lemma MissInfo<S>(st: State<S>, key: Key, idx: int, created: S, id: nat, now: int, s: S)
    requires Keyed(st) && !Hit(st, key, idx) && created !in st.info && s in st.info
    ensures var st' := AfterGet(st, key, idx, created, id, now);
            && s in st'.info && st'.held[s] == st.held[s]
            && st'.info[s] == if Mapped(st, s) && st.info[s].key == key then Released(st.info[s]) else st.info[s]
  {
    if key in st.table { assert st.table[key] in st.info; }
  }

  lemma MissConserves<S>(st: State<S>, key: Key, idx: int, created: S, id: nat, now: int, s: S)
    requires Inv(st) && !Hit(st, key, idx) && created !in st.info
    requires s in AfterGet(st, key, idx, created, id, now).info
    ensures var st' := AfterGet(st, key, idx, created, id, now);
            Conserved(st', s) && InOrder(st'.info[s])
  {
    MissMapped(st, key, idx, created, id, now, s);
    if s == created {
      assert st.held[s] == 0;
    } else {
      assert Conserved(st, s) && InOrder(st.info[s]);
      MissInfo(st, key, idx, created, id, now, s);
    }
  }

  lemma GetKeeps<S>(st: State<S>, key: Key, idx: int, created: S, id: nat, now: int)
    requires Inv(st) && Enabled(st, Get(key, idx, created, id, now))
    ensures Inv(AfterGet(st, key, idx, created, id, now))
  {
    if Hit(st, key, idx) {
      var s := st.table[key];
      assert Conserved(st, s) && InOrder(st.info[s]);
      TouchKeeps(st, s, Retained(st.info[s]), st.held + multiset{s});
    } else {
      var st' := AfterGet(st, key, idx, created, id, now);
      forall s | s in st'.info ensures Conserved(st', s) && InOrder(st'.info[s]) {
        MissConserves(st, key, idx, created, id, now, s);
      }
    }
  }

  lemma RemoveKeeps<S>(st: State<S>, s: S)
    requires Inv(st) && Mapped(st, s)
    ensures Inv(AfterRemove(st, s))
  {
    var st' := AfterRemove(st, s);
    forall t | t in st'.info ensures Conserved(st', t) && InOrder(st'.info[t]) {
      assert Conserved(st, t) && InOrder(st.info[t]);
    }
  }

  lemma CollectMapped<S>(st: State<S>, keep: set<S>, t: S)
    requires Keyed(st) && t in st.info
    ensures Mapped(AfterCollect(st, keep), t) <==> Mapped(st, t) && t in keep
  {
  }

  lemma CollectConserves<S>(st: State<S>, keep: set<S>, t: S)
    requires Inv(st) && t in st.info
    ensures Conserved(AfterCollect(st, keep), t) && InOrder(AfterCollect(st, keep).info[t])
  {
    assert Conserved(st, t) && InOrder(st.info[t]);
    CollectMapped(st, keep, t);
  }

  lemma CollectKeeps<S>(st: State<S>, keep: set<S>)
    requires Inv(st) && Survivors(st, keep)
    ensures Inv(AfterCollect(st, keep))
  {
    var st' := AfterCollect(st, keep);
    forall t | t in st'.info ensures Conserved(st', t) && InOrder(st'.info[t]) {
      CollectConserves(st, keep, t);
    }
  }

  function MappedSet<S(==)>(st: State<S>): set<S> {
    set s | s in st.info && Mapped(st, s)
  }

  lemma CollectNone<S>(st: State<S>)
    requires Inv(st)
    ensures AfterCollect(st, MappedSet(st)) == st
  {
    forall k | k in st.table ensures st.table[k] in MappedSet(st) {
      assert Mapped(st, st.table[k]);
    }
    assert AfterCollect(st, MappedSet(st)).table == st.table;
    assert AfterCollect(st, MappedSet(st)).info == st.info;
  }

  lemma CollectTable<S>(st: State<S>, keep: set<S>, s: S)
    requires Inv(st) && Mapped(st, s) && s in keep
    ensures AfterCollect(st, keep).table - {st.info[s].key} == AfterCollect(st, keep - {s}).table
  {
    var a, b := AfterCollect(st, keep).table - {st.info[s].key}, AfterCollect(st, keep - {s}).table;
    assert forall k :: k in a <==> k in b;
  }

  lemma CollectInfo<S>(st: State<S>, keep: set<S>, s: S)
    requires Mapped(st, s) && s in keep
    ensures var info := AfterCollect(st, keep).info;
            s in info && info[s] == st.info[s] && info[s := Released(info[s])] == AfterCollect(st, keep - {s}).info
  {
    var a, b := AfterCollect(st, keep).info, AfterCollect(st, keep - {s}).info;
    assert b[s] == Released(a[s]);
    assert forall t :: t in st.info && t != s ==> a[t] == b[t];
  }

  /** Removing one more session in the course of a collection. */
  lemma CollectOneMore<S>(st: State<S>, keep: set<S>, s: S)
    requires Inv(st) && Mapped(st, s) && s in keep
    ensures AfterRemove(AfterCollect(st, keep), s) == AfterCollect(st, keep - {s})
  {
    CollectTable(st, keep, s);
    CollectInfo(st, keep, s);
  }

  /** Changing one session without its key, together with the references handlers hold to it. */
  lemma TouchConserves<S>(st: State<S>, s: S, i: Info, held: multiset<S>, t: S)
    requires Inv(st) && s in st.info && i.key == st.info[s].key && InOrder(i) && t in st.info
    requires t != s ==> held[t] == st.held[t]
    requires i.refs == MappedCount(st, s) + held[s]
    requires i.destroyed == (if i.refs == 0 then 1 else 0)
    ensures var st' := st.(info := st.info[s := i], held := held);
            Conserved(st', t) && InOrder(st'.info[t])
  {
    var st' := st.(info := st.info[s := i], held := held);
    assert Conserved(st, t) && InOrder(st.info[t]);
    assert Mapped(st', t) <==> Mapped(st, t);
  }

  lemma TouchHeld<S>(st: State<S>, s: S, held: multiset<S>)
    requires (forall t :: t in st.held ==> t in st.info) && s in st.info
    requires forall t :: t != s ==> held[t] == st.held[t]
    ensures forall t :: t in held ==> t in st.info
  {
    forall t | t in held ensures t in st.info {
      if t != s { assert t in st.held; }
    }
  }

  lemma TouchKeeps<S>(st: State<S>, s: S, i: Info, held: multiset<S>)
    requires Inv(st) && s in st.info && i.key == st.info[s].key && InOrder(i)
    requires forall t :: t != s ==> held[t] == st.held[t]
    requires i.refs == MappedCount(st, s) + held[s]
    requires i.destroyed == (if i.refs == 0 then 1 else 0)
    ensures Inv(st.(info := st.info[s := i], held := held))
  {
    var st' := st.(info := st.info[s := i], held := held);
    forall t | t in st'.info ensures Conserved(st', t) && InOrder(st'.info[t]) {
      TouchConserves(st, s, i, held, t);
    }
    TouchHeld(st, s, held);
  }

  lemma AnsweredInOrder(i: Info, idx: int, now: int)
    requires InOrder(i)
    ensures InOrder(Answered(i, idx, now))
  {
    var i' := Answered(i, idx, now);
    assert i'.trail[|i.trail|] == i.served + 1;
    forall x | i.start <= x <= i.served ensures x in i'.trail {
      assert x in i.trail;
    }
  }

  lemma StepKeeps<S>(st: State<S>, step: Step<S>)
    requires Inv(st) && Enabled(st, step)
    ensures Inv(Apply(st, step))
  {
    match step
    case Get(key, idx, created, id, now) => GetKeeps(st, key, idx, created, id, now);
    case GetByID(s) =>
      assert Conserved(st, s) && InOrder(st.info[s]);
      TouchKeeps(st, s, Retained(st.info[s]), st.held + multiset{s});
    case Release(s) =>
      assert Conserved(st, s) && InOrder(st.info[s]);
      TouchKeeps(st, s, Released(st.info[s]), st.held - multiset{s});
    case Serve(s, idx, now) =>
      assert Conserved(st, s) && InOrder(st.info[s]);
      AnsweredInOrder(st.info[s], idx, now);
      TouchKeeps(st, s, Answered(st.info[s], idx, now), st.held);
    case ServeInit(s, now) =>
      assert Conserved(st, s) && InOrder(st.info[s]);
      TouchKeeps(st, s, st.info[s].(accessed := now), st.held);
    case Timeout(s) => RemoveKeeps(st, s);
    case Collect(keep) => CollectKeeps(st, keep);
  }

  /** The state after a handler got a session, served from it or not, and released it again. */
  function AfterRequest<S(==)>(st: State<S>, s: S, served: bool, idx: int, now: int): State<S>
    requires s in st.info
  {
    var i := if served then Answered(st.info[s], idx, now) else st.info[s];
    st.(info := st.info[s := Released(i)], held := st.held - multiset{s})
  }

  lemma GotIsMapped<S>(st: State<S>, key: Key, idx: int, s: S, id: nat, now: int)
    requires Inv(st) && if Hit(st, key, idx) then s == st.table[key] else s !in st.info
    ensures var got := AfterGet(st, key, idx, s, id, now);
            Mapped(got, s) && got.info[s].key == key && got.held == st.held + multiset{s} && s in got.held
  {
  }

  /** Using and releasing a session that is held and mapped keeps everything conserved. */
  lemma RequestKeeps<S>(got: State<S>, s: S, served: bool, idx: int, now: int)
    requires Inv(got) && s in got.held && Mapped(got, s)
    ensures Inv(AfterRequest(got, s, served, idx, now)) && Mapped(AfterRequest(got, s, served, idx, now), s)
  {
    assert Conserved(got, s) && InOrder(got.info[s]);
    var i := if served then Answered(got.info[s], idx, now) else got.info[s];
    AnsweredInOrder(got.info[s], idx, now);
    TouchKeeps(got, s, Released(i), got.held - multiset{s});
  }

  /** A whole request leaves the session mapped and returns its reference, so that all counts stay
      conserved and every other handler's references are untouched. */
  lemma RequestReturnsReference<S>(st: State<S>, key: Key, idx: int, s: S, id: nat, now: int, served: bool)
    requires Inv(st) && if Hit(st, key, idx) then s == st.table[key] else s !in st.info
    ensures var got := AfterGet(st, key, idx, s, id, now);
            && s in got.info
            && var st' := AfterRequest(got, s, served, idx, now);
            Inv(st') && Mapped(st', s) && st'.info[s].key == key && st'.held == st.held
  {
    GetKeeps(st, key, idx, s, id, now);
    GotIsMapped(st, key, idx, s, id, now);
    var got := AfterGet(st, key, idx, s, id, now);
    RequestKeeps(got, s, served, idx, now);
  }

  // ----- every run -----

  /** The state after a run from the empty table, step after step; `Possible` says that each step was. */
  function Empty<S>(): State<S> {
    State(map[], map[], multiset{})
  }

  predicate Possible<S(==)>(steps: seq<Step<S>>)
    decreases |steps|, 0
  {
    steps == [] ||
    var n := |steps| - 1;
    Possible(steps[..n]) && Enabled(After(steps[..n]), steps[n])
  }

  function After<S(==)>(steps: seq<Step<S>>): State<S>
    requires Possible(steps)
    decreases |steps|, 1
  {
    if steps == [] then Empty() else Apply(After(steps[..|steps| - 1]), steps[|steps| - 1])
  }

  lemma {:induction false} Reachable<S>(steps: seq<Step<S>>)
    requires Possible(steps)
    ensures Inv(After(steps))
  {
    if steps != [] {
      var n := |steps| - 1;
      Reachable(steps[..n]);
      StepKeeps(After(steps[..n]), steps[n]);
    }
  }

  /** Reference conservation, in every run: the transcoder of a session is destroyed at most once, and
      exactly when no handler holds the session and the table cannot return it. */
  lemma ReferencesConserved<S>(steps: seq<Step<S>>, s: S)
    requires Possible(steps) && s in After(steps).info
    ensures var st := After(steps);
            && st.info[s].refs == MappedCount(st, s) + st.held[s]
            && st.info[s].destroyed <= 1
            && (st.info[s].destroyed == 1 <==> s !in st.held && !Mapped(st, s))
  {
    Reachable(steps);
    assert Conserved(After(steps), s);
  }

  /** What a release means for the transcoder, in every run: it runs until then, and the release destroys
      it exactly if no other handler holds the session and the table cannot return it. */
  lemma ReleaseDestroysExactly<S>(steps: seq<Step<S>>, s: S)
    requires Possible(steps) && Enabled(After(steps), Release(s))
    ensures var st := After(steps);
            && st.info[s].destroyed == 0
            && (Apply(st, Release(s)).info[s].destroyed == 1 <==> st.held[s] == 1 && !Mapped(st, s))
            && Apply(st, Release(s)).info[s].destroyed <= 1
  {
    Reachable(steps);
    assert Conserved(After(steps), s);
  }

  /** Serving order, in every run: what a session has served. */
  lemma ServedInOrder<S>(steps: seq<Step<S>>, s: S, x: int)
    requires Possible(steps) && s in After(steps).info
    ensures var i := After(steps).info[s];
            && (i.start <= x <= i.served ==> x in i.trail)
            && (x in i.trail ==> i.start <= x <= i.served + 1)
  {
    Reachable(steps);
    assert InOrder(After(steps).info[s]);
  }

  /** `s` is still mapped, is of the same stream and user as `t` and was accessed no earlier. */
  predicate Outlasts<S(==)>(st: State<S>, st': State<S>, s: S, t: S)
    requires t in st.info
  {
    && Mapped(st', s) && s in st.info && st.info[t].accessed <= st.info[s].accessed
    && st.info[s].key.stream == st.info[t].key.stream && st.info[s].key.userID == st.info[t].key.userID
  }

  /** From `st` to `st'` exactly one session stays mapped per (stream, user) that had any, of maximal last
      access; it is untouched, the others lose the table's reference, and nothing else changes. */
  ghost predicate OneLeftPerGroup<S>(st: State<S>, st': State<S>) {
    && st'.info.Keys == st.info.Keys && st'.held == st.held
    && (forall t :: t in st.info && Mapped(st, t) ==> exists s :: s in st.info && Outlasts(st, st', s, t))
    && (forall s, u :: s in st'.info && u in st'.info && Mapped(st', s) && Mapped(st', u) && s != u ==>
          st.info[s].key.stream != st.info[u].key.stream || st.info[s].key.userID != st.info[u].key.userID)
    && (forall s :: s in st'.info && Mapped(st', s) ==> Mapped(st, s))
    && (forall s :: s in st.info ==>
          st'.info[s] == if Mapped(st, s) && !Mapped(st', s) then Released(st.info[s]) else st.info[s])
  }

  lemma CollectLeavesOne<S>(st: State<S>, keep: set<S>)
    requires Inv(st) && Survivors(st, keep)
    ensures OneLeftPerGroup(st, AfterCollect(st, keep))
  {
    var st' := AfterCollect(st, keep);
    forall t | t in st.info ensures Mapped(st', t) <==> Mapped(st, t) && t in keep {
      CollectMapped(st, keep, t);
    }
    forall t | t in st.info && Mapped(st, t) ensures exists s :: s in st.info && Outlasts(st, st', s, t) {
      assert Outlived(st, keep, st.table[st.info[t].key]);
      var s :| s in keep && s in st.info && SameGroup(st.info[s], st.info[t])
          && st.info[t].accessed <= st.info[s].accessed;
      assert Outlasts(st, st', s, t);
    }
  }

  // ----- the two guards cannot be dropped -----

  /** The timer of a session that is no longer mapped breaks the invariant, always: it removes whatever
      the key is mapped to now, and releases a reference that is gone. */
  lemma TimeoutKeepsExactlyIfMapped<S>(st: State<S>, s: S)
    requires Inv(st) && s in st.info
    ensures Inv(AfterRemove(st, s)) <==> Mapped(st, s)
  {
    var st' := AfterRemove(st, s);
    if Mapped(st, s) {
      RemoveKeeps(st, s);
    } else {
      assert Conserved(st, s);
      assert !Conserved(st', s);
    }
  }

  /** A failed creation leaves the released session in the table, so it keeps the invariant exactly if
      the key had no session. */
  lemma FailedGetKeepsExactlyIfUnmapped<S>(st: State<S>, key: Key)
    requires Inv(st)
    ensures Inv(AfterFailedGet(st, key)) <==> key !in st.table
  {
    if key in st.table {
      var s := st.table[key];
      assert Conserved(st, s) && Mapped(st, s);
      assert !Conserved(AfterFailedGet(st, key), s);
    }
  }

  /** A run of the guarded steps up to which both happen: a client seeks, and twenty minutes later the
      timer of the replaced session fires.  It destroys that session a second time and unmaps the new
      one, whose remaining reference nobody holds any more. */
  lemma StaleTimerExample(key: Key) returns (steps: seq<Step<int>>)
    ensures steps == [Get(key, 0, 1, 1, 0), Release(1), Get(key, 100, 2, 2, 0), Release(2)]
    ensures Possible(steps) && 1 in After(steps).info && 2 in After(steps).info
    ensures var st := AfterRemove(After(steps), 1);
            && st.info[1].destroyed == 2
            && st.info[2].refs == 1 && !Mapped(st, 2) && 2 !in st.held && st.info[2].destroyed == 0
  {
    steps := [];
    Extend(steps, Get(key, 0, 1, 1, 0));
    steps := steps + [Get(key, 0, 1, 1, 0)];
    assert After(steps) == State(map[key := 1], map[1 := Retained(NewInfo(key, 1, 0, 0))], multiset{1});
    Extend(steps, Release(1));
    steps := steps + [Release(1)];
    assert After(steps) == State(map[key := 1], map[1 := NewInfo(key, 1, 0, 0)], multiset{});
    Extend(steps, Get(key, 100, 2, 2, 0));
    steps := steps + [Get(key, 100, 2, 2, 0)];
    var old1, new2 := Released(NewInfo(key, 1, 0, 0)), NewInfo(key, 2, 100, 0);
    assert After(steps) == State(map[key := 2], map[1 := old1, 2 := Retained(new2)], multiset{2});
    Extend(steps, Release(2));
    steps := steps + [Release(2)];
    assert After(steps) == State(map[key := 2], map[1 := old1, 2 := new2], multiset{});
  }

  /** A run up to which a failed creation does harm: a client seeks, the new session cannot be created,
      and the old one is destroyed although it stays in the table.  The next request for a segment in
      its window is given that destroyed session. */
  lemma FailedSeekExample(key: Key) returns (steps: seq<Step<int>>)
    ensures steps == [Get(key, 0, 1, 1, 0), Release(1)] && Possible(steps)
    ensures !Hit(After(steps), key, 100)
    ensures var st := AfterFailedGet(After(steps), key);
            && 1 in st.info && st.info[1].destroyed == 1 && Mapped(st, 1) && Hit(st, key, 1)
            && var next := AfterGet(st, key, 1, 2, 2, 0);
            next.held == multiset{1} && 1 in next.info && next.info[1].destroyed == 1
  {
    steps := [];
    Extend(steps, Get(key, 0, 1, 1, 0));
    steps := steps + [Get(key, 0, 1, 1, 0)];
    assert After(steps) == State(map[key := 1], map[1 := Retained(NewInfo(key, 1, 0, 0))], multiset{1});
    Extend(steps, Release(1));
    steps := steps + [Release(1)];
    assert After(steps) == State(map[key := 1], map[1 := NewInfo(key, 1, 0, 0)], multiset{});
    var st := AfterFailedGet(After(steps), key);
    assert st == State(map[key := 1], map[1 := Released(NewInfo(key, 1, 0, 0))], multiset{});
  }

  lemma Extend<S>(steps: seq<Step<S>>, step: Step<S>)
    requires Possible(steps) && Enabled(After(steps), step)
    ensures Possible(steps + [step]) && After(steps + [step]) == Apply(After(steps), step)
  {
    assert (steps + [step])[..|steps|] == steps;
  }
}
