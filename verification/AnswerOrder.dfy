/** The counters of streaming/segments.go when requests of any number of handlers are answered in any
    order: what they come to, and exactly when the client is served in order. */
module AnswerOrder {
  import opened SessionTable

  /** The indices that were requested, in the order the requests were answered. */
  type Answers = seq<int>

  datatype Counters = Counters(start: int, requested: int, served: int, trail: seq<int>)

  function CountersOf(i: Info): Counters {
    Counters(i.start, i.requested, i.served, i.trail)
  }

  function AnswerTo(c: Counters, idx: int): Counters {
    var trail := c.trail + [c.served + 1];
    if c.requested != idx then Counters(c.start, idx, c.served + 1, trail) else c.(trail := trail)
  }

  function CountersAfter(start: int, answers: Answers): (c: Counters)
    ensures c.start == start
  {
    if answers == [] then Counters(start, start - 1, start - 1, [])
    else
      var n := |answers| - 1;
      AnswerTo(CountersAfter(start, answers[..n]), answers[n])
  }

  /** The last index answered, or the one before the start. */
  function Last(start: int, answers: Answers): int {
    if answers == [] then start - 1 else answers[|answers| - 1]
  }

  predicate NoneRepeatsPrevious(start: int, answers: Answers) {
    answers == [] ||
    var n := |answers| - 1;
    NoneRepeatsPrevious(start, answers[..n]) && answers[n] != Last(start, answers[..n])
  }

  // ----- every run of the session machine -----

  function AnswersOf<S(==)>(steps: seq<Step<S>>, s: S): Answers {
    if steps == [] then []
    else
      var n := |steps| - 1;
      AnswersOf(steps[..n], s) + match steps[n]
                                 case Serve(t, idx, _) => if t == s then [idx] else []
                                 case _ => []
  }

  lemma KnownSessionStep<S>(st: State<S>, step: Step<S>, s: S)
    requires Inv(st) && Enabled(st, step) && s in st.info
    ensures s in Apply(st, step).info
    ensures CountersOf(Apply(st, step).info[s]) ==
            if step.Serve? && step.s == s then CountersOf(Answered(st.info[s], step.idx, step.now))
            else CountersOf(st.info[s])
  {
    match step
    case Get(key, idx, created, id, now) =>
      if !Hit(st, key, idx) { MissInfo(st, key, idx, created, id, now, s); }
    case Timeout(t) => assert AfterRemove(st, t).info.Keys == st.info.Keys + {t};
    case Collect(keep) => assert AfterCollect(st, keep).info.Keys == st.info.Keys;
    case _ =>
  }

  lemma NewSessionStep<S>(st: State<S>, step: Step<S>, s: S)
    requires Inv(st) && Enabled(st, step) && s !in st.info
    ensures !(step.Serve? && step.s == s)
    ensures s in Apply(st, step).info ==>
              var i := Apply(st, step).info[s];
              CountersOf(i) == CountersAfter(i.start, [])
  {
    if step.Get? && !Hit(st, step.key, step.idx) && step.key in st.table {
      assert st.table[step.key] in st.info;
    }
  }

  lemma LastStepAnswers<S>(steps: seq<Step<S>>, s: S)
    requires steps != []
    ensures var n := |steps| - 1;
            var before := AnswersOf(steps[..n], s);
            AnswersOf(steps, s) == if steps[n].Serve? && steps[n].s == s then before + [steps[n].idx] else before
  {
  }

  lemma CountersThen(start: int, answers: Answers, idx: int)
    ensures CountersAfter(start, answers + [idx]) == AnswerTo(CountersAfter(start, answers), idx)
  {
    assert (answers + [idx])[..|answers|] == answers;
  }

  /** The counters of `s` are those that the answers come to. */
  predicate Accounts<S(==)>(st: State<S>, s: S, answers: Answers) {
    if s in st.info then CountersOf(st.info[s]) == CountersAfter(st.info[s].start, answers) else answers == []
  }

  lemma StepAccounts<S>(st: State<S>, step: Step<S>, s: S, answers: Answers)
    requires Inv(st) && Enabled(st, step) && Accounts(st, s, answers)
    ensures Accounts(Apply(st, step), s, if step.Serve? && step.s == s then answers + [step.idx] else answers)
  {
    if s in st.info {
      KnownSessionStep(st, step, s);
      if step.Serve? && step.s == s {
        CountersThen(st.info[s].start, answers, step.idx);
      }
    } else {
      NewSessionStep(st, step, s);
    }
  }

  /** In every run the counters of a session are determined by the order of its answers, whichever
      handlers gave them. */
  lemma {:induction false} RunCounters<S>(steps: seq<Step<S>>, s: S)
    requires Possible(steps)
    ensures Accounts(After(steps), s, AnswersOf(steps, s))
  {
    if steps != [] {
      var n := |steps| - 1;
      RunCounters(steps[..n], s);
      Reachable(steps[..n]);
      StepAccounts(After(steps[..n]), steps[n], s, AnswersOf(steps[..n], s));
      LastStepAnswers(steps, s);
    }
  }

  // ----- exactly when the client is served in order -----

  lemma {:induction false} RequestedIsLast(start: int, answers: Answers)
    ensures CountersAfter(start, answers).requested == Last(start, answers)
    ensures |CountersAfter(start, answers).trail| == |answers|
  {
    if answers != [] {
      RequestedIsLast(start, answers[..|answers| - 1]);
    }
  }

  /** Each answer is counted exactly if none repeats the request answered before it. */
  lemma {:induction false} CountsEveryAnswerExactly(start: int, answers: Answers)
    ensures var c := CountersAfter(start, answers);
            && c.served - (start - 1) <= |answers|
            && (c.served - (start - 1) == |answers| <==> NoneRepeatsPrevious(start, answers))
  {
    if answers != [] {
      var n := |answers| - 1;
      CountsEveryAnswerExactly(start, answers[..n]);
      RequestedIsLast(start, answers[..n]);
    }
  }

  predicate InOrderFrom(start: int, trail: seq<int>) {
    forall k :: 0 <= k < |trail| ==> trail[k] == start + k
  }

  lemma InOrderThen(start: int, trail: seq<int>, x: int)
    ensures InOrderFrom(start, trail + [x]) <==> InOrderFrom(start, trail) && x == start + |trail|
  {
    var longer := trail + [x];
    assert longer[|trail|] == x;
    assert forall k :: 0 <= k < |trail| ==> longer[k] == trail[k];
  }

  lemma {:induction false} RepeatStays(start: int, answers: Answers)
    requires answers != [] && NoneRepeatsPrevious(start, answers)
    ensures NoneRepeatsPrevious(start, answers[..|answers| - 1])
  {
  }

  /** The client is served consecutive indices, without gap or repetition, exactly if no answer but
      perhaps the last repeats the request answered before it. */
  lemma {:induction false} ServedInOrderExactly(start: int, answers: Answers)
    ensures InOrderFrom(start, CountersAfter(start, answers).trail) <==>
            answers == [] || NoneRepeatsPrevious(start, answers[..|answers| - 1])
  {
    if answers != [] {
      var init := answers[..|answers| - 1];
      var c := CountersAfter(start, init);
      ServedInOrderExactly(start, init);
      CountsEveryAnswerExactly(start, init);
      RequestedIsLast(start, init);
      InOrderThen(start, c.trail, c.served + 1);
      if init != [] && NoneRepeatsPrevious(start, init) {
        RepeatStays(start, init);
      }
    }
  }

  /** So in any run of the session machine the answers of a session are all counted exactly if none repeats
      the request answered before it. */
  lemma RunCountsExactly<S>(steps: seq<Step<S>>, s: S)
    requires Possible(steps) && s in After(steps).info
    ensures var i, answers := After(steps).info[s], AnswersOf(steps, s);
            i.served - (i.start - 1) == |answers| <==> NoneRepeatsPrevious(i.start, answers)
  {
    var i, answers := After(steps).info[s], AnswersOf(steps, s);
    RunCounters(steps, s);
    assert i.served == CountersAfter(i.start, answers).served;
    CountsEveryAnswerExactly(i.start, answers);
  }

  /** And its client is served consecutive indices exactly if none but perhaps the last does. */
  lemma RunServesInOrderExactly<S>(steps: seq<Step<S>>, s: S)
    requires Possible(steps) && s in After(steps).info
    ensures var i, answers := After(steps).info[s], AnswersOf(steps, s);
            InOrderFrom(i.start, i.trail) <==> answers == [] || NoneRepeatsPrevious(i.start, answers[..|answers| - 1])
  {
    var i, answers := After(steps).info[s], AnswersOf(steps, s);
    RunCounters(steps, s);
    assert i.trail == CountersAfter(i.start, answers).trail;
    ServedInOrderExactly(i.start, answers);
  }

  // ----- the bound on what is served -----

  /** Counted from the index before the session's start: served <= requested <= 4 * served. */
  predicate WithinBound(c: Counters) {
    var base := c.start - 1;
    c.served - base <= c.requested - base <= 4 * (c.served - base)
  }

  /** An index that repeats the last one, or is higher but not more than four times what can have been
      served at least once it is answered. */
  predicate KeepsBound(start: int, requested: int, idx: int) {
    var base := start - 1;
    idx == requested || requested < idx <= base + 4 * ((requested - base + 3) / 4 + 1)
  }

  /** Exactly these answers keep the bound, whatever was served within the bound so far. */
  lemma KeepsBoundExactly(start: int, requested: int, idx: int)
    requires requested >= start - 1
    ensures KeepsBound(start, requested, idx) <==>
            forall c: Counters :: c.start == start && c.requested == requested && WithinBound(c) ==>
                WithinBound(AnswerTo(c, idx))
  {
    var base := start - 1;
    var least := Counters(start, requested, base + (requested - base + 3) / 4, []);
    var most := Counters(start, requested, requested, []);
    assert WithinBound(least) && WithinBound(most);
    if !KeepsBound(start, requested, idx) {
      assert !WithinBound(AnswerTo(least, idx)) || !WithinBound(AnswerTo(most, idx));
    }
  }

  /** What the window of GetPlaybackSession lets through keeps the bound, if it is still in the window when
      it is answered. */
  lemma WindowKeepsBound(start: int, requested: int, idx: int)
    requires requested >= start - 1 && idx != INIT_SEGMENT_IDX && InWindow(requested, idx)
    ensures KeepsBound(start, requested, idx)
  {
  }

  /** Each index kept the bound when it was answered, not only when its handler got the session. */
  predicate AllKeepBound(start: int, answers: Answers) {
    answers == [] ||
    var n := |answers| - 1;
    AllKeepBound(start, answers[..n]) && KeepsBound(start, Last(start, answers[..n]), answers[n])
  }

  lemma {:induction false} AllKeptBound(start: int, answers: Answers)
    requires AllKeepBound(start, answers)
    ensures WithinBound(CountersAfter(start, answers)) && Last(start, answers) >= start - 1
  {
    if answers != [] {
      var init := answers[..|answers| - 1];
      AllKeptBound(start, init);
      RequestedIsLast(start, init);
      KeepsBoundExactly(start, Last(start, init), answers[|answers| - 1]);
    }
  }

  /** So in any run of the session machine whose answers keep it, the bound holds of the session, for
      overlapping handlers and repeated requests too. */
  lemma RunKeepsBound<S>(steps: seq<Step<S>>, s: S)
    requires Possible(steps) && s in After(steps).info
    requires AllKeepBound(After(steps).info[s].start, AnswersOf(steps, s))
    ensures WithinBound(CountersOf(After(steps).info[s]))
  {
    RunCounters(steps, s);
    AllKeptBound(After(steps).info[s].start, AnswersOf(steps, s));
  }

  /** How many answers do not repeat the request answered before them. */
  function Counted(start: int, answers: Answers): nat {
    if answers == [] then 0
    else
      var n := |answers| - 1;
      Counted(start, answers[..n]) + if answers[n] != Last(start, answers[..n]) then 1 else 0
  }

  lemma {:induction false} CountedIsServed(start: int, answers: Answers)
    ensures CountersAfter(start, answers).served == start - 1 + Counted(start, answers)
  {
    if answers != [] {
      CountedIsServed(start, answers[..|answers| - 1]);
      RequestedIsLast(start, answers[..|answers| - 1]);
    }
  }

  /** In any run of the session machine the bound holds of a session exactly if the last index answered is
      between n and 4 * n past the start, n being the number of its answers that repeat no request. */
  lemma RunBoundExactly<S>(steps: seq<Step<S>>, s: S)
    requires Possible(steps) && s in After(steps).info
    ensures var i, answers := After(steps).info[s], AnswersOf(steps, s);
            var n := Counted(i.start, answers);
            WithinBound(CountersOf(i)) <==> n <= Last(i.start, answers) - (i.start - 1) <= 4 * n
  {
    var i, answers := After(steps).info[s], AnswersOf(steps, s);
    RunCounters(steps, s);
    CountedIsServed(i.start, answers);
    RequestedIsLast(i.start, answers);
  }

  /** Two handlers get the session for index 5 and for another one, each in the window then. */
  lemma BothGet(key: Key, other: int) returns (steps: seq<Step<int>>)
    requires 5 <= other < 9
    ensures steps == [Get(key, 5, 1, 1, 0), Get(key, other, 2, 2, 0)] && Possible(steps)
    ensures After(steps) == State(map[key := 1], map[1 := Retained(Retained(NewInfo(key, 1, 5, 0)))], multiset{1, 1})
  {
    steps := [];
    Extend(steps, Get(key, 5, 1, 1, 0));
    steps := steps + [Get(key, 5, 1, 1, 0)];
    assert After(steps) == State(map[key := 1], map[1 := Retained(NewInfo(key, 1, 5, 0))], multiset{1});
    Extend(steps, Get(key, other, 2, 2, 0));
    steps := steps + [Get(key, other, 2, 2, 0)];
  }

  /** And they answer in the given order. */
  lemma BothAnswer(key: Key, other: int, first: int, second: int) returns (steps: seq<Step<int>>)
    requires 5 <= other < 9
    ensures steps == [Get(key, 5, 1, 1, 0), Get(key, other, 2, 2, 0), Serve(1, first, 0), Serve(1, second, 0)]
    ensures Possible(steps) && 1 in After(steps).info
    ensures CountersOf(After(steps).info[1]) == CountersAfter(5, [first, second])
  {
    steps := BothGet(key, other);
    CountersThen(5, [], first);
    CountersThen(5, [first], second);
    assert [] + [first] == [first] && [first] + [second] == [first, second];
    Extend(steps, Serve(1, first, 0));
    steps := steps + [Serve(1, first, 0)];
    Extend(steps, Serve(1, second, 0));
    steps := steps + [Serve(1, second, 0)];
  }

  /** The conditions above can fail in runs whose requests were all in the window when they were
      admitted: answered as 6, 5 they leave more served than requested, and a request sent twice at once
      is answered with two different segments but counted once. */
  lemma OverlappingRequests(key: Key) returns (swapped: seq<Step<int>>, twice: seq<Step<int>>)
    ensures swapped == [Get(key, 5, 1, 1, 0), Get(key, 6, 2, 2, 0), Serve(1, 6, 0), Serve(1, 5, 0)] && Possible(swapped)
    ensures 1 in After(swapped).info && !WithinBound(CountersOf(After(swapped).info[1]))
    ensures twice == [Get(key, 5, 1, 1, 0), Get(key, 5, 2, 2, 0), Serve(1, 5, 0), Serve(1, 5, 0)] && Possible(twice)
    ensures 1 in After(twice).info && After(twice).info[1].trail == [5, 6] && After(twice).info[1].served == 5
  {
    swapped := BothAnswer(key, 6, 6, 5);
    twice := BothAnswer(key, 5, 5, 5);
    CountersThen(5, [], 6);
    CountersThen(5, [6], 5);
    CountersThen(5, [], 5);
    CountersThen(5, [5], 5);
    assert [] + [6] == [6] && [] + [5] == [5] && [6] + [5] == [6, 5] && [5] + [5] == [5, 5];
  }
}
