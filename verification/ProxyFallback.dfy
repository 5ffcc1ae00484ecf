/**
 The proxy failure counter.  Any number of threads interleave the individual atomic operations; a run is
 any sequence of them.  What is proved holds for all runs, hence for every interleaving.
 */
module ProxyFallback {
  import opened Prelude

  type Thread = nat

  const FAILURE_THRESHOLD: nat := 3
  const U32: nat := 0x1_0000_0000

  /** The two atomics, and for each thread between the two steps of `record_failure` the count it saw. */
  datatype State = State(failures: nat, fallenBack: bool, counted: map<Thread, nat>)

  const START: State := State(0, false, map[])

  datatype Event =
    /** First step of `record_failure`: add one to the counter (wrapping at 32 bits). */
    | FetchAdd(t: Thread)
    /** Second step: below the threshold give up, else flip `fallen_back` from false to true. */
    | Decide(t: Thread)
    /** Set the counter to zero: `record_success`, and part of restoring and of a configuration change. */
    | ResetCounter
    /** Overwrite `fallen_back`: true when a fallback is marked, false when restoring or reconfiguring. */
    | StoreFallen(b: bool)

  predicate Enabled(s: State, e: Event) {
    match e
    case FetchAdd(t) => t !in s.counted
    case Decide(t) => t in s.counted
    case _ => true
  }

  function Step(s: State, e: Event): State
    requires Enabled(s, e)
  {
    match e
    case FetchAdd(t) =>
      var count := (s.failures + 1) % U32;
      State(count, s.fallenBack, s.counted[t := count])
    case Decide(t) => State(s.failures, s.fallenBack || s.counted[t] >= FAILURE_THRESHOLD, s.counted - {t})
    case ResetCounter => s.(failures := 0)
    case StoreFallen(b) => s.(fallenBack := b)
  }

  /** This step is a `record_failure` returning true: its compare-exchange succeeds. */
  predicate Fires(s: State, e: Event) {
    e.Decide? && e.t in s.counted && s.counted[e.t] >= FAILURE_THRESHOLD && !s.fallenBack
  }

  predicate Possible(s: State, es: seq<Event>)
    decreases |es|
  {
    es != [] ==> Enabled(s, es[0]) && Possible(Step(s, es[0]), es[1..])
  }

  function Exec(s: State, es: seq<Event>): State
    requires Possible(s, es)
    decreases |es|
  {
    if es == [] then s else Exec(Step(s, es[0]), es[1..])
  }

  /** How many calls of `record_failure` return true during the run. */
  function Fired(s: State, es: seq<Event>): nat
    requires Possible(s, es)
    decreases |es|
  {
    if es == [] then 0
    else (if Fires(s, es[0]) then 1 else 0) + Fired(Step(s, es[0]), es[1..])
  }

  // ---------- at most one trigger between clears ----------

  /** Between two clears of `fallen_back` at most one `record_failure` returns true, and none while it is
      set already. */
  lemma {:induction false} AtMostOneTrigger(s: State, es: seq<Event>)
    requires Possible(s, es) && StoreFallen(false) !in es
    ensures Fired(s, es) <= if s.fallenBack then 0 else 1
    decreases |es|
  {
    if es != [] {
      assert es[0] in es;
      assert forall e :: e in es[1..] ==> e in es;
      AtMostOneTrigger(Step(s, es[0]), es[1..]);
    }
  }

  /** Some thread of the run decides on a count that has reached the threshold. */
  predicate ReachesThreshold(s: State, es: seq<Event>)
    requires Possible(s, es)
    decreases |es|
  {
    es != [] &&
      ((es[0].Decide? && s.counted[es[0].t] >= FAILURE_THRESHOLD) || ReachesThreshold(Step(s, es[0]), es[1..]))
  }

  /** While nobody overwrites a clear flag, exactly one call returns true once the threshold is reached,
      and none before. */
  lemma {:induction false} ExactlyOneTrigger(s: State, es: seq<Event>)
    requires Possible(s, es) && !s.fallenBack
    requires forall e :: e in es ==> !e.StoreFallen?
    ensures Fired(s, es) == if ReachesThreshold(s, es) then 1 else 0
    decreases |es|
  {
    if es != [] {
      assert es[0] in es;
      assert forall e :: e in es[1..] ==> e in es;
      if Fires(s, es[0]) {
        AtMostOneTrigger(Step(s, es[0]), es[1..]);
      } else {
        ExactlyOneTrigger(Step(s, es[0]), es[1..]);
      }
    }
  }

  // ---------- only after enough failures ----------

  /** Failures counted since the counter was last reset. */
  function SinceReset(es: seq<Event>): nat {
    if es == [] then 0
    else
      var before := SinceReset(es[..|es| - 1]);
      match es[|es| - 1]
      case FetchAdd(_) => before + 1
      case ResetCounter => 0
      case _ => before
  }

  lemma {:induction false} PossibleSplits(s: State, a: seq<Event>, e: Event)
    requires Possible(s, a + [e])
    ensures Possible(s, a) && Enabled(Exec(s, a), e) && Exec(s, a + [e]) == Step(Exec(s, a), e)
    decreases |a|
  {
    if a != [] {
      assert (a + [e])[1..] == a[1..] + [e];
      PossibleSplits(Step(s, a[0]), a[1..], e);
    } else {
      assert a + [e] == [e] && [e][1..] == [];
    }
  }

  /** Position of the thread's unfinished count: its latest addition, with no decision after it. */
  ghost predicate CountedAt(es: seq<Event>, t: Thread, j: nat) {
    j < |es| && es[j] == FetchAdd(t) && Decide(t) !in es[j..]
  }

  lemma CountedEarlier(es: seq<Event>, e: Event, t: Thread, j: nat)
    requires CountedAt(es, t, j) && e != Decide(t)
    ensures CountedAt(es + [e], t, j)
    ensures (es + [e])[..j + 1] == es[..j + 1]
  {
    assert (es + [e])[j..] == es[j..] + [e];
  }

  /** The counter is the number of failures since the last reset. */
  lemma {:induction false} CounterIsReal(es: seq<Event>)
    requires Possible(START, es)
    ensures Exec(START, es).failures == SinceReset(es) % 0x1_0000_0000
    decreases |es|
  {
    if es != [] {
      var front, e := es[..|es| - 1], es[|es| - 1];
      assert es == front + [e];
      PossibleSplits(START, front, e);
      CounterIsReal(front);
    }
  }

  /** The count was taken by the thread's unfinished call, from the failures since the last reset. */
  ghost predicate TakenFrom(es: seq<Event>, t: Thread, count: nat) {
    exists j :: CountedAt(es, t, j) && count == SinceReset(es[..j + 1]) % U32
  }

  /** Every count a thread still holds was the number of failures since the last reset when it was taken. */
  lemma {:induction false} CountsAreReal(es: seq<Event>)
    requires Possible(START, es)
    ensures forall t :: t in Exec(START, es).counted ==> TakenFrom(es, t, Exec(START, es).counted[t])
    decreases |es|
  {
    if es != [] {
      var front, e := es[..|es| - 1], es[|es| - 1];
      assert es == front + [e];
      PossibleSplits(START, front, e);
      CountsAreReal(front);
      CounterIsReal(front);
      var s, s' := Exec(START, front), Exec(START, es);
      forall t | t in s'.counted
        ensures TakenFrom(es, t, s'.counted[t])
      {
        if e == FetchAdd(t) {
          JustCounted(front, t);
          assert CountedAt(es, t, |front|);
        } else {
          HeldOn(front, e, t, s.counted[t]);
        }
      }
    }
  }

  lemma HeldOn(es: seq<Event>, e: Event, t: Thread, count: nat)
    requires TakenFrom(es, t, count) && e != Decide(t)
    ensures TakenFrom(es + [e], t, count)
  {
    var j :| CountedAt(es, t, j) && count == SinceReset(es[..j + 1]) % U32;
    CountedEarlier(es, e, t, j);
  }

  lemma JustCounted(front: seq<Event>, t: Thread)
    ensures var es := front + [FetchAdd(t)];
            CountedAt(es, t, |front|) && es[..|front| + 1] == es
            && SinceReset(es) == SinceReset(front) + 1
  {
    var es := front + [FetchAdd(t)];
    assert es[|front|..] == [FetchAdd(t)];
    assert es[..|front|] == front;
  }

  /** A call returns true only if, when it counted its failure, at least the threshold number of failures
      had been counted since some reset (or the start). */
  lemma TriggerNeedsFailures(es: seq<Event>, t: Thread)
    requires Possible(START, es)
    requires Fires(Exec(START, es), Decide(t))
    ensures exists j :: CountedAt(es, t, j) && SinceReset(es[..j + 1]) >= FAILURE_THRESHOLD
  {
    CountsAreReal(es);
    var j :| CountedAt(es, t, j) && Exec(START, es).counted[t] == SinceReset(es[..j + 1]) % U32;
  }

  // ---------- what a restore guarantees ----------

  /** Failures counted during the run, resets or not. */
  function Adds(es: seq<Event>): nat {
    if es == [] then 0 else (if es[0].FetchAdd? then 1 else 0) + Adds(es[1..])
  }

  /** The thread's call counted its failure before the run began and saw the threshold reached. */
  predicate HoldsRipeCount(s: State, t: Thread) { t in s.counted && s.counted[t] >= FAILURE_THRESHOLD }

  /** The counter after the run, when it starts at `count`. */
  function CounterAfter(count: nat, es: seq<Event>): nat
    decreases |es|
  {
    if es == [] then count
    else
      var next := match es[0]
        case FetchAdd(_) => (count + 1) % U32
        case ResetCounter => 0
        case _ => count;
      CounterAfter(next, es[1..])
  }

  /** Position of the thread's last addition. */
  function LastAdd(es: seq<Event>, t: Thread): (r: Option<nat>)
    ensures r.Some? ==> r.value < |es| && es[r.value] == FetchAdd(t)
    ensures r.Some? ==> forall k :: r.value < k < |es| ==> es[k] != FetchAdd(t)
    ensures r.None? ==> FetchAdd(t) !in es
  {
    if es == [] then None
    else
      match LastAdd(es[1..], t)
      case Some(j) => Some(j + 1)
      case None => if es[0] == FetchAdd(t) then Some(0) else None
  }

  /** The decision at position `i` is made on a count at the threshold: the counter as it stood after the
      thread's last addition in the run, or the count it held before the run if it has none. */
  predicate RipeDecision(s: State, es: seq<Event>, i: nat)
    requires i < |es|
  {
    es[i].Decide? &&
      match LastAdd(es[..i], es[i].t)
      case Some(j) => CounterAfter(s.failures, es[..j + 1]) >= FAILURE_THRESHOLD
      case None => HoldsRipeCount(s, es[i].t)
  }

  /** The flag as it was last stored: on its own, without the calls that set it by returning true. */
  function FlagStored(flag: bool, es: seq<Event>): bool
    decreases |es|
  {
    if es == [] then flag else FlagStored(if es[0].StoreFallen? then es[0].b else flag, es[1..])
  }

  /** Such a decision, made while the flag was last stored as false. */
  predicate OpenDecision(s: State, es: seq<Event>, i: nat)
    requires i < |es|
  {
    RipeDecision(s, es, i) && !FlagStored(s.fallenBack, es[..i])
  }

  ghost predicate SomeOpenDecision(s: State, es: seq<Event>) {
    exists i :: 0 <= i < |es| && OpenDecision(s, es, i)
  }

  lemma RipeLater(s: State, es: seq<Event>, i: nat)
    requires es != [] && Possible(s, es) && i < |es[1..]|
    ensures RipeDecision(Step(s, es[0]), es[1..], i) <==> RipeDecision(s, es, i + 1)
  {
    var s', rest := Step(s, es[0]), es[1..];
    assert es[..i + 1][1..] == rest[..i];
    if es[i + 1].Decide? {
      var t := es[i + 1].t;
      match LastAdd(rest[..i], t)
      case Some(j) => assert es[..j + 2][1..] == rest[..j + 1];
      case None =>
        if es[0] == Decide(t) {
          DecidesAfterCounting(s', rest, i);
        } else if es[0] == FetchAdd(t) {
          assert LastAdd(es[..i + 1], t) == Some(0);
          OneStepAfter(s.failures, es);
          assert s'.counted[t] == (s.failures + 1) % U32;
        } else {
          assert LastAdd(es[..i + 1], t) == None;
          assert HoldsRipeCount(s', t) <==> HoldsRipeCount(s, t);
        }
    }
  }

  lemma OpenLater(s: State, es: seq<Event>, i: nat)
    requires es != [] && Possible(s, es) && i < |es[1..]| && !Fires(s, es[0])
    ensures OpenDecision(Step(s, es[0]), es[1..], i) <==> OpenDecision(s, es, i + 1)
  {
    RipeLater(s, es, i);
    assert es[..i + 1][1..] == es[1..][..i];
  }

  lemma OneStepAfter(count: nat, es: seq<Event>)
    requires es != [] && es[0].FetchAdd?
    ensures CounterAfter(count, es[..1]) == (count + 1) % U32
  {
    assert es[..1][1..] == [];
  }

  /** A thread that is not inside a call has to count before it decides. */
  lemma {:induction false} DecidesAfterCounting(s: State, es: seq<Event>, i: nat)
    requires Possible(s, es) && i < |es| && es[i].Decide? && es[i].t !in s.counted
    ensures FetchAdd(es[i].t) in es[..i]
    decreases |es|
  {
    assert i > 0;
    assert es[..i] == [es[0]] + es[1..][..i - 1];
    if es[0] != FetchAdd(es[i].t) {
      DecidesAfterCounting(Step(s, es[0]), es[1..], i - 1);
    }
  }

  /** Exactly when a run triggers, whatever it does to the counter and to the flag: when some decision is
      made on a count at the threshold while the flag was last stored as false. */
  lemma {:induction false} OpenDecisionsTrigger(s: State, es: seq<Event>)
    requires Possible(s, es)
    ensures Fired(s, es) > 0 <==> SomeOpenDecision(s, es)
    decreases |es|
  {
    if es != [] {
      var s', rest := Step(s, es[0]), es[1..];
      assert es[..0] == [];
      assert OpenDecision(s, es, 0) <==> Fires(s, es[0]);
      if !Fires(s, es[0]) {
        OpenDecisionsTrigger(s', rest);
        forall i | 0 <= i < |rest|
          ensures OpenDecision(s', rest, i) <==> OpenDecision(s, es, i + 1)
        {
          OpenLater(s, es, i);
        }
        if i :| 0 <= i < |es| && OpenDecision(s, es, i) { assert i > 0 && OpenDecision(s', rest, i - 1); }
      }
    }
  }

  lemma {:induction false} CounterGrowsByAdds(count: nat, es: seq<Event>)
    ensures CounterAfter(count, es) <= count + Adds(es)
    decreases |es|
  {
    if es != [] {
      var next := match es[0]
        case FetchAdd(_) => (count + 1) % U32
        case ResetCounter => 0
        case _ => count;
      CounterGrowsByAdds(next, es[1..]);
    }
  }

  lemma {:induction false} FewerAdds(es: seq<Event>, n: nat)
    requires n <= |es|
    ensures Adds(es[..n]) <= Adds(es)
  {
    if n > 0 {
      FewerAdds(es[1..], n - 1);
      assert es[..n][1..] == es[1..][..n - 1];
    }
  }

  /** The decision is made on a count from before the run, at the threshold, while the flag was last stored
      as false. */
  predicate OldDecision(s: State, es: seq<Event>, i: nat)
    requires i < |es|
  {
    && es[i].Decide? && FetchAdd(es[i].t) !in es[..i] && HoldsRipeCount(s, es[i].t)
    && !FlagStored(s.fallenBack, es[..i])
  }

  ghost predicate SomeOldDecision(s: State, es: seq<Event>) {
    exists i :: 0 <= i < |es| && OldDecision(s, es, i)
  }

  /** Too few new failures to reach the threshold: the run triggers exactly when a call that had counted its
      failure before the run, at or over the threshold, decides during it with the flag stored as false. */
  lemma OldCountsTrigger(s: State, es: seq<Event>)
    requires Possible(s, es) && s.failures + Adds(es) < FAILURE_THRESHOLD
    ensures Fired(s, es) > 0 <==> SomeOldDecision(s, es)
  {
    OpenDecisionsTrigger(s, es);
    forall i | 0 <= i < |es|
      ensures OpenDecision(s, es, i) <==> OldDecision(s, es, i)
    {
      if es[i].Decide? && LastAdd(es[..i], es[i].t).Some? {
        var j := LastAdd(es[..i], es[i].t).value;
        CounterGrowsByAdds(s.failures, es[..j + 1]);
        FewerAdds(es, j + 1);
        assert es[..i][j] in es[..i];
      }
    }
  }

  lemma {:induction false} RunSplits(s: State, a: seq<Event>, b: seq<Event>)
    requires Possible(s, a + b)
    ensures Possible(s, a) && Possible(Exec(s, a), b)
    ensures Exec(s, a + b) == Exec(Exec(s, a), b)
    ensures Fired(s, a + b) == Fired(s, a) + Fired(Exec(s, a), b)
    decreases |a|
  {
    if a == [] {
      assert a + b == b;
    } else {
      assert (a + b)[0] == a[0] && (a + b)[1..] == a[1..] + b;
      RunSplits(Step(s, a[0]), a[1..], b);
    }
  }

  /** A whole restore: the flag is cleared, other threads run through `window`, the counter is set to
      zero, and the run goes on with `after`. */
  function Restore(window: seq<Event>, after: seq<Event>): seq<Event> {
    [StoreFallen(false)] + window + [ResetCounter] + after
  }

  /**
   What a restore is followed by, whatever the counter and the flag were before it, and whatever runs in
   the window between its two stores and after it, other restores and fallbacks included.  It triggers
   again exactly when some later decision is made on a count at the threshold while the flag was last
   stored as false.  When fewer than three failures follow the second store, such a decision is made in
   the window, or after it on a count held since before the second store.
   */
  lemma RestoreTriggersAgain(s: State, window: seq<Event>, after: seq<Event>)
    requires Possible(s, Restore(window, after))
    ensures var s1, triggers := s.(fallenBack := false), Fired(s, Restore(window, after)) > 0;
            && Possible(s1, window)
            && (triggers <==> SomeOpenDecision(s1, window + ([ResetCounter] + after)))
            && (Adds(after) < FAILURE_THRESHOLD ==>
                  (triggers <==>
                     SomeOpenDecision(s1, window) || SomeOldDecision(Exec(s1, window).(failures := 0), after)))
  {
    var s1 := s.(fallenBack := false);
    var rest := window + ([ResetCounter] + after);
    assert Restore(window, after) == [StoreFallen(false)] + rest;
    assert Restore(window, after)[0] == StoreFallen(false) && Restore(window, after)[1..] == rest;
    assert !Fires(s, StoreFallen(false));
    OpenDecisionsTrigger(s1, rest);
    RunSplits(s1, window, [ResetCounter] + after);
    if Adds(after) < FAILURE_THRESHOLD {
      OpenDecisionsTrigger(s1, window);
      var s2 := Exec(s1, window);
      assert ([ResetCounter] + after)[0] == ResetCounter && ([ResetCounter] + after)[1..] == after;
      OldCountsTrigger(s2.(failures := 0), after);
    }
  }

  /** The simplest case: one new failure, counted and decided while the flag is clear and the counter not
      yet reset, triggers exactly when it brings the counter to the threshold. */
  lemma OneFailureTriggers(s: State, t: Thread)
    requires !s.fallenBack && t !in s.counted
    ensures Possible(s, [FetchAdd(t), Decide(t)])
    ensures Fired(s, [FetchAdd(t), Decide(t)]) == if (s.failures + 1) % U32 >= FAILURE_THRESHOLD then 1 else 0
  {
    var s1 := Step(s, FetchAdd(t));
    assert [FetchAdd(t), Decide(t)][1..] == [Decide(t)] && [Decide(t)][1..] == [];
    assert Possible(Step(s1, Decide(t)), []);
    assert Possible(s1, [Decide(t)]);
    assert Fired(s1, [Decide(t)]) == if Fires(s1, Decide(t)) then 1 else 0;
  }

  /** Two failures answered and a third one counted. */
  const AT_THRESHOLD: seq<Event> := [FetchAdd(1), Decide(1), FetchAdd(1), Decide(1), FetchAdd(1)]

  lemma ThirdFailure()
    ensures Possible(START, AT_THRESHOLD) && Exec(START, AT_THRESHOLD) == State(3, false, map[1 := 3])
  {
    var s1, s2 := State(1, false, map[1 := 1]), State(1, false, map[]);
    var s3, s4 := State(2, false, map[1 := 2]), State(2, false, map[]);
    var s5 := State(3, false, map[1 := 3]);
    assert Step(START, FetchAdd(1)) == s1 && Step(s1, Decide(1)) == s2;
    assert Step(s2, FetchAdd(1)) == s3 && Step(s3, Decide(1)) == s4;
    RunsTo(s4, [FetchAdd(1)], s5);
    RunsTo(s3, [Decide(1), FetchAdd(1)], s5);
    RunsTo(s2, [FetchAdd(1), Decide(1), FetchAdd(1)], s5);
    RunsTo(s1, [Decide(1), FetchAdd(1), Decide(1), FetchAdd(1)], s5);
    RunsTo(START, AT_THRESHOLD, s5);
  }

  /** Both ways do happen from the start: a failure between the two stores of a restore triggers on the
      failures before it, and so does a count taken before the restore and decided on after it, with the
      counter at zero. */
  lemma RestoreCanTriggerAgain()
    ensures var es := AT_THRESHOLD + [Decide(1), StoreFallen(false), FetchAdd(2)];
            Possible(START, es) && Fires(Exec(START, es), Decide(2))
    ensures var es := AT_THRESHOLD + [FetchAdd(2), Decide(1), StoreFallen(false), ResetCounter];
            Possible(START, es) && Exec(START, es).failures == 0 && Fires(Exec(START, es), Decide(2))
  {
    ThirdFailure();
    var s5, s6 := State(3, false, map[1 := 3]), State(3, true, map[]);
    var s7, s8 := State(3, false, map[]), State(4, false, map[2 := 4]);
    assert Step(s5, Decide(1)) == s6 && Step(s6, StoreFallen(false)) == s7;
    RunsTo(s7, [FetchAdd(2)], s8);
    RunsTo(s6, [StoreFallen(false), FetchAdd(2)], s8);
    RunsTo(s5, [Decide(1), StoreFallen(false), FetchAdd(2)], s8);
    RunJoins(START, AT_THRESHOLD, [Decide(1), StoreFallen(false), FetchAdd(2)]);
    var t6, t7 := State(4, false, map[1 := 3, 2 := 4]), State(4, true, map[2 := 4]);
    var t8, t9 := State(4, false, map[2 := 4]), State(0, false, map[2 := 4]);
    assert Step(s5, FetchAdd(2)) == t6 && Step(t6, Decide(1)) == t7;
    assert Step(t7, StoreFallen(false)) == t8;
    RunsTo(t8, [ResetCounter], t9);
    RunsTo(t7, [StoreFallen(false), ResetCounter], t9);
    RunsTo(t6, [Decide(1), StoreFallen(false), ResetCounter], t9);
    RunsTo(s5, [FetchAdd(2), Decide(1), StoreFallen(false), ResetCounter], t9);
    RunJoins(START, AT_THRESHOLD, [FetchAdd(2), Decide(1), StoreFallen(false), ResetCounter]);
  }

  /** And after a fallback that was marked directly, with one failure counted: two more failures in the
      window suffice. */
  lemma MarkedFallbackKeepsCount()
    ensures var es := [FetchAdd(1), Decide(1), StoreFallen(true), StoreFallen(false), FetchAdd(1), Decide(1),
                       FetchAdd(1)];
            Possible(START, es) && Fires(Exec(START, es), Decide(1))
  {
    var s1, s2 := State(1, false, map[1 := 1]), State(1, false, map[]);
    var s3, s4, s5 := State(1, true, map[]), State(2, false, map[1 := 2]), State(2, false, map[]);
    var end := State(3, false, map[1 := 3]);
    assert Step(START, FetchAdd(1)) == s1 && Step(s1, Decide(1)) == s2 && Step(s2, StoreFallen(true)) == s3;
    assert Step(s3, StoreFallen(false)) == s2 && Step(s2, FetchAdd(1)) == s4 && Step(s4, Decide(1)) == s5;
    RunsTo(s5, [FetchAdd(1)], end);
    RunsTo(s4, [Decide(1), FetchAdd(1)], end);
    RunsTo(s2, [FetchAdd(1), Decide(1), FetchAdd(1)], end);
    RunsTo(s3, [StoreFallen(false), FetchAdd(1), Decide(1), FetchAdd(1)], end);
    RunsTo(s2, [StoreFallen(true), StoreFallen(false), FetchAdd(1), Decide(1), FetchAdd(1)], end);
    RunsTo(s1, [Decide(1), StoreFallen(true), StoreFallen(false), FetchAdd(1), Decide(1), FetchAdd(1)], end);
    RunsTo(START, [FetchAdd(1), Decide(1), StoreFallen(true), StoreFallen(false), FetchAdd(1), Decide(1),
                   FetchAdd(1)], end);
  }

  lemma {:induction false} RunJoins(s: State, a: seq<Event>, b: seq<Event>)
    requires Possible(s, a) && Possible(Exec(s, a), b)
    ensures Possible(s, a + b) && Exec(s, a + b) == Exec(Exec(s, a), b)
    decreases |a|
  {
    if a == [] {
      assert a + b == b;
    } else {
      assert (a + b)[0] == a[0] && (a + b)[1..] == a[1..] + b;
      RunJoins(Step(s, a[0]), a[1..], b);
    }
  }

  lemma RunsTo(s: State, es: seq<Event>, end: State)
    requires es != [] && Enabled(s, es[0])
    requires Possible(Step(s, es[0]), es[1..]) && Exec(Step(s, es[0]), es[1..]) == end
    ensures Possible(s, es) && Exec(s, es) == end
  {
  }

  // ---------- the manager as an object, one call at a time ----------

  /** A proxy configuration, as text. */
  type ProxyConfig = string

  datatype RuntimeStatus = NoProxy | NormalProxy | FallenBackToDirect

  /** Seconds after a restore within which a new fallback counts as a flap. */
  const STABILITY_WINDOW: int := 300

  class ProxyFallbackManager {
    var failures: nat
    var fallenBack: bool
    var flaps: nat
    var lastRestore: Option<int>
    var status: RuntimeStatus
    var userProxy: Option<ProxyConfig>
    var probing: bool
    var probeSleepStarted: Option<int>

    /** The state with no other thread inside `record_failure`. */
    function Model(): State
      reads this
    {
      State(failures, fallenBack, map[])
    }

    constructor ()
      ensures Model() == START && flaps == 0 && lastRestore == None && status == NoProxy
      ensures userProxy == None && !probing && probeSleepStarted == None
    {
      userProxy, probing, probeSleepStarted := None, false, None;
      failures, fallenBack, flaps := 0, false, 0;
      lastRestore, status := None, NoProxy;
    }

    /** The two steps in a row. */
    method RecordFailure(t: Thread) returns (trigger: bool)
      modifies this`failures, this`fallenBack
      ensures var counted := Step(old(Model()), FetchAdd(t));
              Model() == Step(counted, Decide(t)) && trigger == Fires(counted, Decide(t))
    {
      failures := (failures + 1) % U32;
      if failures >= FAILURE_THRESHOLD {
        trigger := !fallenBack;
        fallenBack := true;
      } else {
        trigger := false;
      }
      ghost var none: map<Thread, nat> := map[];
      assert map[t := failures] - {t} == none;
    }

    method RecordSuccess()
      modifies this`failures
      ensures Model() == Step(old(Model()), ResetCounter)
    {
      failures := 0;
    }

    method MarkFallenBack()
      modifies this`fallenBack, this`status
      ensures Model() == Step(old(Model()), StoreFallen(true)) && status == FallenBackToDirect
    {
      fallenBack := true;
      status := FallenBackToDirect;
    }

    method MarkRestored(now: int)
      modifies this`fallenBack, this`failures, this`lastRestore, this`status
      ensures Model() == Step(Step(old(Model()), StoreFallen(false)), ResetCounter)
      ensures lastRestore == Some(now) && status == NormalProxy
    {
      fallenBack := false;
      failures := 0;
      lastRestore := Some(now);
      status := NormalProxy;
    }

    /** A fallback within the stability window after a restore is one more flap; a later one starts the
        count again; without a restore nothing is counted. */
    method CheckAndIncrementFlap(now: int) returns (flap: bool)
      modifies this`flaps
      ensures flap <==> lastRestore.Some? && now - lastRestore.value < 300
      ensures flaps == if flap then (old(flaps) + 1) % U32 else if lastRestore.Some? then 0 else old(flaps)
    {
      flap := false;
      if lastRestore.Some? {
        if now - lastRestore.value < STABILITY_WINDOW {
          flaps := (flaps + 1) % U32;
          return true;
        }
        flaps := 0;
      }
    }

    /** A running probe is cancelled and everything else is reset, the flag before the counter. */
    method OnUserConfigChange(proxy: Option<ProxyConfig>)
      modifies this
      ensures Model() == Step(Step(old(Model()), StoreFallen(false)), ResetCounter)
      ensures flaps == 0 && lastRestore == None && !probing && probeSleepStarted == None
      ensures userProxy == proxy && status == if proxy.Some? then NormalProxy else NoProxy
    {
      probing := false;
      fallenBack := false;
      failures := 0;
      flaps := 0;
      lastRestore := None;
      probeSleepStarted := None;
      userProxy := proxy;
      status := if proxy.Some? then NormalProxy else NoProxy;
    }
  }
}
