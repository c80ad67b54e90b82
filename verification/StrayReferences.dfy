/** The two steps that SessionTable guards against, allowed to happen: the timer of a session that is no
    longer mapped, and a lookup whose new session cannot be created (streaming/session.go).  Every
    session's reference count is then off by exactly what such steps did to it. */
module StrayReferences {
  import opened SessionTable

  datatype Move<S> =
    | Guarded(step: Step<S>)
    | AnyTimeout(s: S)                 // the timer of s fires, mapped or not
    | FailedGet(key: Key, idx: int)    // the lookup misses and the creation fails

  predicate Can<S(==)>(st: State<S>, m: Move<S>) {
    match m
    case Guarded(step) => Enabled(st, step)
    case AnyTimeout(s) => s in st.info
    case FailedGet(key, idx) => !Hit(st, key, idx)
  }

  function Do<S(==)>(st: State<S>, m: Move<S>): State<S>
    requires Can(st, m)
  {
    match m
    case Guarded(step) => Apply(st, step)
    case AnyTimeout(s) => AfterRemove(st, s)
    case FailedGet(key, _) => AfterFailedGet(st, key)
  }

  predicate CanRun<S(==)>(moves: seq<Move<S>>)
    decreases |moves|, 0
  {
    moves == [] ||
    var n := |moves| - 1;
    CanRun(moves[..n]) && Can(Run(moves[..n]), moves[n])
  }

  function Run<S(==)>(moves: seq<Move<S>>): State<S>
    requires CanRun(moves)
    decreases |moves|, 1
  {
    if moves == [] then Empty() else Do(Run(moves[..|moves| - 1]), moves[|moves| - 1])
  }

  // ----- the ledger -----

  /** Whether the removal of `x`, which is not mapped, takes `s` out of the table. */
  function Unmapped<S(==)>(st: State<S>, x: S, s: S): int {
    if x in st.info && Mapped(st, s) && st.info[s].key == st.info[x].key then 1 else 0
  }

  /** What a move does to the count of `s` beyond the references to it: a stale timer releases a reference
      of its own session that is gone and unmaps whatever the key maps to now, which keeps the table's
      reference; a failed creation releases the table's reference and leaves the session mapped. */
  function Stray<S(==)>(st: State<S>, m: Move<S>, s: S): int {
    match m
    case Guarded(_) => 0
    case AnyTimeout(x) => if Mapped(st, x) then 0 else Unmapped(st, x, s) - if s == x then 1 else 0
    case FailedGet(key, _) =>
      if Mapped(st, s) && st.info[s].key == key then -1 else 0
  }

  function StrayTotal<S(==)>(moves: seq<Move<S>>, s: S): int
    requires CanRun(moves)
  {
    if moves == [] then 0
    else
      var n := |moves| - 1;
      StrayTotal(moves[..n], s) + Stray(Run(moves[..n]), moves[n], s)
  }

  /** By how much the count of `s` exceeds the references to it. */
  function Surplus<S(==)>(st: State<S>, s: S): int
    requires s in st.info
  {
    st.info[s].refs - MappedCount(st, s) - st.held[s]
  }

  // ----- every move keeps to it -----

  lemma GetSurplus<S>(st: State<S>, key: Key, idx: int, created: S, id: nat, now: int, s: S)
    requires Keyed(st) && Enabled(st, Get(key, idx, created, id, now))
    ensures var st' := AfterGet(st, key, idx, created, id, now);
            && Keyed(st')
            && (s in st.info ==> s in st'.info && Surplus(st', s) == Surplus(st, s))
            && (s !in st.info && s in st'.info ==> Surplus(st', s) == 0)
  {
    if Hit(st, key, idx) {
      assert Mapped(AfterGet(st, key, idx, created, id, now), s) <==> Mapped(st, s);
    } else {
      MissMapped(st, key, idx, created, id, now, s);
      if s in st.info {
        MissInfo(st, key, idx, created, id, now, s);
      } else {
        assert st.held[s] == 0;
      }
    }
  }

  lemma CollectSurplus<S>(st: State<S>, keep: set<S>, s: S)
    requires Keyed(st)
    ensures var st' := AfterCollect(st, keep);
            Keyed(st') && st'.info.Keys == st.info.Keys && (s in st.info ==> Surplus(st', s) == Surplus(st, s))
  {
    if s in st.info {
      CollectMapped(st, keep, s);
    }
  }

  /** Changing one session without its key, together with the references handlers hold to it. */
  lemma TouchSurplus<S>(st: State<S>, x: S, i: Info, held: multiset<S>, s: S)
    requires Keyed(st) && x in st.info && i.key == st.info[x].key
    requires forall t :: t != x ==> held[t] == st.held[t]
    requires i.refs + st.held[x] == st.info[x].refs + held[x]
    ensures var st' := st.(info := st.info[x := i], held := held);
            Keyed(st') && (s in st.info ==> Surplus(st', s) == Surplus(st, s))
  {
    var st' := st.(info := st.info[x := i], held := held);
    assert Mapped(st', s) <==> Mapped(st, s);
    TouchHeld(st, x, held);
  }

  lemma RemoveSurplus<S>(st: State<S>, x: S, s: S)
    requires Keyed(st) && x in st.info
    ensures var st' := AfterRemove(st, x);
            && Keyed(st') && st'.info.Keys == st.info.Keys
            && (s in st.info ==> Surplus(st', s) == Surplus(st, s) + Stray(st, AnyTimeout(x), s))
  {
    var st' := AfterRemove(st, x);
    assert Mapped(st', s) <==> Mapped(st, s) && st.info[s].key != st.info[x].key;
  }

  lemma FailedGetSurplus<S>(st: State<S>, key: Key, idx: int, s: S)
    requires Keyed(st)
    ensures var st' := AfterFailedGet(st, key);
            && Keyed(st') && st'.info.Keys == st.info.Keys
            && (s in st.info ==> Surplus(st', s) == Surplus(st, s) + Stray(st, FailedGet(key, idx), s))
  {
    assert key in st.table ==> st.table[key] in st.info;
    assert Mapped(AfterFailedGet(st, key), s) <==> Mapped(st, s);
  }

  lemma StepSurplus<S>(st: State<S>, step: Step<S>, s: S)
    requires Keyed(st) && Enabled(st, step)
    ensures var st' := Apply(st, step);
            && Keyed(st')
            && (s in st.info ==> s in st'.info && Surplus(st', s) == Surplus(st, s))
            && (s !in st.info && s in st'.info ==> Surplus(st', s) == 0)
  {
    match step
    case Get(key, idx, created, id, now) => GetSurplus(st, key, idx, created, id, now, s);
    case GetByID(x) => TouchSurplus(st, x, Retained(st.info[x]), st.held + multiset{x}, s);
    case Release(x) => TouchSurplus(st, x, Released(st.info[x]), st.held - multiset{x}, s);
    case Serve(x, idx, now) => TouchSurplus(st, x, Answered(st.info[x], idx, now), st.held, s);
    case ServeInit(x, now) => TouchSurplus(st, x, st.info[x].(accessed := now), st.held, s);
    case Timeout(x) => RemoveSurplus(st, x, s);
    case Collect(keep) => CollectSurplus(st, keep, s);
  }

  lemma MoveSurplus<S>(st: State<S>, m: Move<S>, s: S)
    requires Keyed(st) && Can(st, m)
    ensures var st' := Do(st, m);
            && Keyed(st')
            && (s in st.info ==> s in st'.info && Surplus(st', s) == Surplus(st, s) + Stray(st, m, s))
            && (s !in st.info ==> Stray(st, m, s) == 0)
            && (s !in st.info && s in st'.info ==> Surplus(st', s) == 0)
  {
    match m
    case Guarded(step) => StepSurplus(st, step, s);
    case AnyTimeout(x) => RemoveSurplus(st, x, s);
    case FailedGet(key, idx) => FailedGetSurplus(st, key, idx, s);
  }

  // ----- every run -----

  lemma {:induction false} RunSurplus<S>(moves: seq<Move<S>>, s: S)
    requires CanRun(moves)
    ensures Keyed(Run(moves))
    ensures if s in Run(moves).info then Surplus(Run(moves), s) == StrayTotal(moves, s) else StrayTotal(moves, s) == 0
  {
    if moves != [] {
      var n := |moves| - 1;
      RunSurplus(moves[..n], s);
      MoveSurplus(Run(moves[..n]), moves[n], s);
    }
  }

  /** In every run, stale timers and failed creations included, the count of a session is one if it is
      mapped, plus the references handlers hold, plus what the stray steps did to it. */
  lemma CountsAccounted<S>(moves: seq<Move<S>>, s: S)
    requires CanRun(moves) && s in Run(moves).info
    ensures var st := Run(moves);
            st.info[s].refs == MappedCount(st, s) + st.held[s] + StrayTotal(moves, s)
  {
    RunSurplus(moves, s);
  }

  /** So a session that nobody can reach any more still has references, which nobody will release, exactly if
      it was unmapped more often than it was released astray. */
  lemma LeakedExactly<S>(moves: seq<Move<S>>, s: S)
    requires CanRun(moves) && s in Run(moves).info && s !in Run(moves).held && !Mapped(Run(moves), s)
    ensures Run(moves).info[s].refs > 0 <==> StrayTotal(moves, s) > 0
  {
    CountsAccounted(moves, s);
  }

  /** And a session that can still be reached has no reference left to keep its transcoder exactly if it was
      released astray at least as often as it has references. */
  lemma ExhaustedExactly<S>(moves: seq<Move<S>>, s: S)
    requires CanRun(moves) && s in Run(moves).info
    ensures var st := Run(moves);
            st.info[s].refs <= 0 <==> MappedCount(st, s) + st.held[s] <= -StrayTotal(moves, s)
  {
    CountsAccounted(moves, s);
  }
}
