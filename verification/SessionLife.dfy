/** Where a session comes from and when it times out, in every run: stale timers and failed creations
    included (streaming/session.go, streaming/segments.go).  Times are in seconds. */
module SessionLife {
  import opened SessionTable
  import opened StrayReferences

  // ----- lookups -----

  /** A lookup keeps the session of its key if it asks for the init segment, and else exactly if it asks for
      one of the next four segments; then the session has one more reference and nothing else changes. */
  lemma KeptExactly<S>(st: State<S>, key: Key, idx: int, created: S, id: nat, now: int)
    requires Keyed(st) && key in st.table && Enabled(st, Get(key, idx, created, id, now))
    ensures var s, st' := st.table[key], Apply(st, Get(key, idx, created, id, now));
            && (st'.table == st.table <==>
                idx == -1 || (st.info[s].requested < idx && idx <= st.info[s].requested + 4))
            && (st'.table == st.table ==>
                && st'.info == st.info[s := st.info[s].(refs := st.info[s].refs + 1)]
                && st'.held == st.held + multiset{s})
            && (st'.table != st.table ==>
                && st'.table == st.table[key := created]
                && st'.info[s].refs == st.info[s].refs - 1
                && (st'.info[s].destroyed > st.info[s].destroyed <==> st.info[s].refs <= 1))
  {
    var s, st' := st.table[key], Apply(st, Get(key, idx, created, id, now));
    assert s in st.info;
    if !Hit(st, key, idx) {
      assert created != s && st'.table[key] == created;
    }
  }

  /** `m` creates `s` in `st`: it looks up a key that has no session, or seeks. */
  predicate Creates<S(==)>(st: State<S>, m: Move<S>, s: S) {
    && m.Guarded? && m.step.Get? && m.step.created == s && s !in st.info
    && (m.step.key in st.table ==>
        && st.table[m.step.key] in st.info && m.step.idx != -1
        && var requested := st.info[st.table[m.step.key]].requested;
        m.step.idx <= requested || m.step.idx >= requested + 5)
  }

  /** The session as it is handed to the first handler: from the segment asked for, or from the beginning if
      that was the init segment, with the references of the table and of the handler. */
  predicate FreshFrom(i: Info, key: Key, idx: int, id: nat, now: int) {
    && i.key == key && i.id == id && i.start == (if idx == -1 then 0 else idx)
    && i.requested == i.start - 1 && i.served == i.start - 1 && i.trail == []
    && i.refs == 2 && i.destroyed == 0 && i.accessed == now
  }

  /** When a step answers a request with `s`. */
  function AnswerTimes<S(==)>(step: Step<S>, s: S): seq<int> {
    match step
    case Serve(t, _, now) => if t == s then [now] else []
    case ServeInit(t, now) => if t == s then [now] else []
    case _ => []
  }

  predicate SameSession(i: Info, i': Info) {
    i'.key == i.key && i'.id == i.id && i'.start == i.start
  }

  lemma KnownAfterGet<S>(st: State<S>, key: Key, idx: int, created: S, id: nat, now: int, s: S)
    requires Keyed(st) && Enabled(st, Get(key, idx, created, id, now)) && s in st.info
    ensures var st' := AfterGet(st, key, idx, created, id, now);
            s in st'.info && SameSession(st.info[s], st'.info[s]) && st'.info[s].accessed == st.info[s].accessed
  {
    if !Hit(st, key, idx) {
      MissInfo(st, key, idx, created, id, now, s);
    }
  }

  lemma KnownAfterStep<S>(st: State<S>, step: Step<S>, s: S)
    requires Keyed(st) && Enabled(st, step) && s in st.info
    ensures var st', times := Apply(st, step), AnswerTimes(step, s);
            && s in st'.info && SameSession(st.info[s], st'.info[s])
            && st'.info[s].accessed == if times == [] then st.info[s].accessed else times[0]
  {
    match step
    case Get(key, idx, created, id, now) => KnownAfterGet(st, key, idx, created, id, now, s);
    case Timeout(x) => assert AfterRemove(st, x).info.Keys == st.info.Keys;
    case _ =>
  }

  lemma KnownAfterMove<S>(st: State<S>, m: Move<S>, s: S)
    requires Keyed(st) && Can(st, m) && s in st.info
    ensures var st', times := Do(st, m), if m.Guarded? then AnswerTimes(m.step, s) else [];
            && s in st'.info && SameSession(st.info[s], st'.info[s])
            && st'.info[s].accessed == if times == [] then st.info[s].accessed else times[0]
  {
    match m
    case Guarded(step) => KnownAfterStep(st, step, s);
    case AnyTimeout(x) => assert AfterRemove(st, x).info.Keys == st.info.Keys;
    case FailedGet(key, _) =>
  }

  lemma NewAfterGet<S>(st: State<S>, key: Key, idx: int, created: S, id: nat, now: int, s: S)
    requires Keyed(st) && Enabled(st, Get(key, idx, created, id, now)) && s !in st.info
    ensures var st' := AfterGet(st, key, idx, created, id, now);
            && (s in st'.info <==> Creates(st, Guarded(Get(key, idx, created, id, now)), s))
            && (s in st'.info ==> FreshFrom(st'.info[s], key, idx, id, now))
  {
    if key in st.table {
      assert st.table[key] in st.info;
    }
  }

  lemma NewAfterStep<S>(st: State<S>, step: Step<S>, s: S)
    requires Keyed(st) && Enabled(st, step) && s !in st.info
    ensures s in Apply(st, step).info <==> Creates(st, Guarded(step), s)
    ensures Creates(st, Guarded(step), s) ==>
              s in Apply(st, step).info && FreshFrom(Apply(st, step).info[s], step.key, step.idx, step.id, step.now)
  {
    match step
    case Get(key, idx, created, id, now) => NewAfterGet(st, key, idx, created, id, now, s);
    case Timeout(x) => assert AfterRemove(st, x).info.Keys == st.info.Keys;
    case _ =>
  }

  lemma NewAfterMove<S>(st: State<S>, m: Move<S>, s: S)
    requires Keyed(st) && Can(st, m) && s !in st.info
    ensures s in Do(st, m).info <==> Creates(st, m, s)
    ensures Creates(st, m, s) ==>
              s in Do(st, m).info && FreshFrom(Do(st, m).info[s], m.step.key, m.step.idx, m.step.id, m.step.now)
  {
    match m
    case Guarded(step) => NewAfterStep(st, step, s);
    case AnyTimeout(x) => assert AfterRemove(st, x).info.Keys == st.info.Keys;
    case FailedGet(key, _) => assert key in st.table ==> st.table[key] in st.info;
  }

  lemma PrefixRuns<S>(moves: seq<Move<S>>, i: nat)
    requires CanRun(moves) && i <= |moves|
    ensures CanRun(moves[..i])
  {
    if i < |moves| {
      PrefixRuns(moves[..|moves| - 1], i);
      assert moves[..|moves| - 1][..i] == moves[..i];
    } else {
      assert moves[..i] == moves;
    }
  }

  /** Every session was created by one lookup for its key, which found none or was a seek, and starts at the
      index that lookup asked for, or at 0 if it asked for the init segment. */
  lemma {:induction false} CreatedByLookup<S>(moves: seq<Move<S>>, s: S) returns (i: nat)
    requires CanRun(moves) && s in Run(moves).info
    ensures i < |moves| && CanRun(moves[..i]) && Creates(Run(moves[..i]), moves[i], s)
    ensures var step, info := moves[i].step, Run(moves).info[s];
            info.key == step.key && info.id == step.id && info.start == if step.idx == -1 then 0 else step.idx
  {
    var n := |moves| - 1;
    RunSurplus(moves[..n], s);
    if s in Run(moves[..n]).info {
      KnownAfterMove(Run(moves[..n]), moves[n], s);
      i := CreatedByLookup(moves[..n], s);
      assert moves[..n][..i] == moves[..i];
    } else {
      NewAfterMove(Run(moves[..n]), moves[n], s);
      i := n;
    }
  }

  // ----- timeouts -----

  /** When `m` uses `s`: creates it, or answers a request with it. */
  function UseTimes<S(==)>(st: State<S>, m: Move<S>, s: S): seq<int> {
    if Creates(st, m, s) then [m.step.now] else if m.Guarded? then AnswerTimes(m.step, s) else []
  }

  function Uses<S(==)>(moves: seq<Move<S>>, s: S): seq<int>
    requires CanRun(moves)
  {
    if moves == [] then []
    else
      var n := |moves| - 1;
      Uses(moves[..n], s) + UseTimes(Run(moves[..n]), moves[n], s)
  }

  /** A session was accessed when it was last used. */
  lemma {:induction false} AccessedAtLastUse<S>(moves: seq<Move<S>>, s: S)
    requires CanRun(moves)
    ensures var uses := Uses(moves, s);
            && (s in Run(moves).info <==> uses != [])
            && (s in Run(moves).info ==> Run(moves).info[s].accessed == uses[|uses| - 1])
  {
    if moves != [] {
      var n := |moves| - 1;
      AccessedAtLastUse(moves[..n], s);
      RunSurplus(moves[..n], s);
      if s in Run(moves[..n]).info {
        KnownAfterMove(Run(moves[..n]), moves[n], s);
      } else {
        NewAfterMove(Run(moves[..n]), moves[n], s);
      }
    }
  }

  predicate Ascending(times: seq<int>) {
    forall i, j :: 0 <= i < j < |times| ==> times[i] <= times[j]
  }

  lemma LastIsLatest(times: seq<int>, limit: int)
    requires times != [] && Ascending(times)
    ensures times[|times| - 1] < limit <==> forall t :: t in times ==> t < limit
  {
    assert times[|times| - 1] in times;
  }

  /** If the clock never goes back, a tick of the timer of a session finds it left alone for too long
      exactly if it was created, and last answered any request, more than twenty minutes ago. */
  lemma TimesOutExactly<S>(moves: seq<Move<S>>, s: S, now: int)
    requires CanRun(moves) && s in Run(moves).info
    requires Ascending(Uses(moves, s))
    ensures now - Run(moves).info[s].accessed > 1200 <==> forall t :: t in Uses(moves, s) ==> now - t > 1200
  {
    AccessedAtLastUse(moves, s);
    LastIsLatest(Uses(moves, s), now - 1200);
  }
}
