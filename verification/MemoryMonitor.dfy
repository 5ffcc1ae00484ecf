/** The peak memory record under concurrent updates, and the bounded sample window. */
module MemoryMonitor {
  import opened Prelude

  type Thread = nat

  /** Where a call of `update_peak` stands: submitted, holding the peak it read, or finished. */
  datatype Call = Fresh(v: nat) | Loaded(v: nat, seen: nat) | Finished(v: nat)

  datatype State = State(peak: nat, calls: map<Thread, Call>)

  const START: State := State(0, map[])

  datatype Event =
    | Submit(t: Thread, v: nat)
    | Load(t: Thread)
    /** One round of the loop: leave if the value does not exceed the peak read, otherwise try the
        weak compare-exchange, which may also fail without reason. */
    | Round(t: Thread, spurious: bool)

  predicate Enabled(s: State, e: Event) {
    match e
    case Submit(t, _) => t in s.calls ==> s.calls[t].Finished?
    case Load(t) => t in s.calls && s.calls[t].Fresh?
    case Round(t, _) => t in s.calls && s.calls[t].Loaded?
  }

  function Step(s: State, e: Event): State
    requires Enabled(s, e)
  {
    match e
    case Submit(t, v) => s.(calls := s.calls[t := Fresh(v)])
    case Load(t) => s.(calls := s.calls[t := Loaded(s.calls[t].v, s.peak)])
    case Round(t, spurious) =>
      var c := s.calls[t];
      if c.v <= c.seen then s.(calls := s.calls[t := Finished(c.v)])
      else if s.peak == c.seen && !spurious then State(c.v, s.calls[t := Finished(c.v)])
      else s.(calls := s.calls[t := Loaded(c.v, s.peak)])
  }

  predicate Possible(s: State, es: seq<Event>)
    decreases |es|
  {
    es != [] ==> Enabled(s, es[0]) && Possible(Step(s, es[0]), es[1..])
  }

  function Exec(s: State, es: seq<Event>): State
    requires Possible(s, es)
    decreases |es|
  {
    if es == [] then s else Exec(Step(s, es[0]), es[1..])
  }

  predicate IsSubmitted(es: seq<Event>, v: nat) { exists i :: 0 <= i < |es| && es[i].Submit? && es[i].v == v }

  /** All calls submitted so far have finished. */
  predicate AllFinished(s: State) { forall t :: t in s.calls ==> s.calls[t].Finished? }

  /** What holds between steps, relative to the set of values submitted so far. */
  ghost predicate Inv(s: State, submitted: set<nat>) {
    && (s.peak == 0 || s.peak in submitted)
    && (forall t :: t in s.calls ==> s.calls[t].v in submitted)
    && (forall t :: t in s.calls && s.calls[t].Loaded? ==> s.calls[t].seen <= s.peak)
    && (forall v :: v in submitted ==>
          v <= s.peak || exists t :: t in s.calls && !s.calls[t].Finished? && s.calls[t].v == v)
  }

  function WithSubmitted(submitted: set<nat>, e: Event): set<nat> {
    if e.Submit? then submitted + {e.v} else submitted
  }

  lemma StepKeepsInv(s: State, submitted: set<nat>, e: Event)
    requires Inv(s, submitted) && Enabled(s, e)
    ensures Inv(Step(s, e), WithSubmitted(submitted, e))
    ensures s.peak <= Step(s, e).peak
  {
    var n := Step(s, e);
    forall v | v in WithSubmitted(submitted, e)
      ensures v <= n.peak || exists t :: t in n.calls && !n.calls[t].Finished? && n.calls[t].v == v
    {
      if v in submitted && v > s.peak {
        var t :| t in s.calls && !s.calls[t].Finished? && s.calls[t].v == v;
        assert t in n.calls;
        if v > n.peak { assert !n.calls[t].Finished? && n.calls[t].v == v; }
      } else if v !in submitted {
        assert !n.calls[e.t].Finished? && n.calls[e.t].v == v;
      }
    }
  }

  /** The peak at every moment of the run, first to last. */
  ghost predicate NeverDecreases(s: State, es: seq<Event>)
    requires Possible(s, es)
    decreases |es|
  {
    es != [] ==> s.peak <= Step(s, es[0]).peak && NeverDecreases(Step(s, es[0]), es[1..])
  }

  lemma {:induction false} RunKeepsInv(s: State, submitted: set<nat>, es: seq<Event>)
    requires Inv(s, submitted) && Possible(s, es)
    ensures NeverDecreases(s, es)
    ensures Inv(Exec(s, es), AllSubmitted(submitted, es))
    decreases |es|
  {
    if es != [] {
      StepKeepsInv(s, submitted, es[0]);
      RunKeepsInv(Step(s, es[0]), WithSubmitted(submitted, es[0]), es[1..]);
    }
  }

  function AllSubmitted(submitted: set<nat>, es: seq<Event>): set<nat>
    decreases |es|
  {
    if es == [] then submitted else AllSubmitted(WithSubmitted(submitted, es[0]), es[1..])
  }

  lemma {:induction false} AllSubmittedAre(submitted: set<nat>, es: seq<Event>, v: nat)
    ensures v in AllSubmitted(submitted, es) <==> v in submitted || IsSubmitted(es, v)
    decreases |es|
  {
    if es != [] {
      AllSubmittedAre(WithSubmitted(submitted, es[0]), es[1..], v);
      if IsSubmitted(es[1..], v) {
        var i :| 0 <= i < |es[1..]| && es[1..][i].Submit? && es[1..][i].v == v;
        assert es[i + 1] == es[1..][i];
      }
      if i :| 0 <= i < |es| && es[i].Submit? && es[i].v == v {
        if i > 0 { assert es[1..][i - 1] == es[i]; }
      }
    }
  }

  /**
   Under every interleaving, with spurious failures anywhere, the recorded peak never decreases, is zero
   or a submitted value, and once all calls have finished it is the maximum of all submitted values.
   */
  lemma PeakIsMaximum(es: seq<Event>)
    requires Possible(START, es)
    ensures NeverDecreases(START, es)
    ensures var s := Exec(START, es);
            && (s.peak == 0 || IsSubmitted(es, s.peak))
            && (AllFinished(s) ==> forall v: nat :: IsSubmitted(es, v) ==> v <= s.peak)
  {
    RunKeepsInv(START, {}, es);
    var s := Exec(START, es);
    AllSubmittedAre({}, es, s.peak);
    forall v: nat | IsSubmitted(es, v) && AllFinished(s)
      ensures v <= s.peak
    {
      AllSubmittedAre({}, es, v);
    }
  }

  // ---------- the monitor as an object ----------

  datatype Sample = Sample(timestamp: int, usage: nat)

  /** The last `n` elements. */
  function LastOf<T>(s: seq<T>, n: nat): seq<T> { if |s| <= n then s else s[|s| - n..] }

  /** The window ends where the history ends and has at most `n` elements. */
  lemma LastOfMeans<T>(s: seq<T>, n: nat)
    ensures |LastOf(s, n)| == (if |s| < n then |s| else n)
    ensures forall i :: 0 <= i < |LastOf(s, n)| ==> LastOf(s, n)[i] == s[|s| - |LastOf(s, n)| + i]
  {
  }

  lemma LastOfLast<T>(s: seq<T>, x: T, n: nat)
    ensures LastOf(LastOf(s, n) + [x], n) == LastOf(s + [x], n)
  {
  }

  class MemoryMonitor {
    const maxSamples: nat
    var samples: seq<Sample>
    var peakUsage: nat
    /** Everything sampled since the start. */
    ghost var history: seq<Sample>

    ghost predicate Valid()
      reads this
    {
      samples == LastOf(history, maxSamples) && IsPeak(history, peakUsage)
    }

    constructor (maxSamples: nat)
      ensures Valid() && history == [] && this.maxSamples == maxSamples
    {
      this.maxSamples := maxSamples;
      samples, peakUsage, history := [], 0, [];
    }

    /** The retry loop without other threads; `spurious` exchanges fail before one succeeds. */
    method UpdatePeak(current: nat, spurious: nat)
      modifies this`peakUsage
      ensures peakUsage == Max(old(peakUsage), current)
    {
      var peak := peakUsage;
      var failures := spurious;
      var done := false;
      while !done && current > peak
        invariant peak == old(peakUsage)
        invariant peakUsage == if done then current else peak
        invariant done ==> current > peak
        decreases !done, failures
      {
        if failures > 0 {
          failures := failures - 1;
          peak := peakUsage;
        } else {
          peakUsage := current;
          done := true;
        }
      }
    }

    /** The window always holds the latest samples, at most `maxSamples`, and the peak is that of all
        samples ever taken. */
    method TakeSample(usage: nat, now: int, spurious: nat) returns (sample: Sample)
      requires Valid()
      modifies this
      ensures Valid() && sample == Sample(now, usage) && history == old(history) + [sample]
    {
      sample := Sample(now, usage);
      UpdatePeak(usage, spurious);
      ghost var before := history;
      history := history + [sample];
      samples := samples + [sample];
      LastOfLast(before, sample, maxSamples);
      PeakGrows(before, old(peakUsage), sample);
      DropOldest();
    }

    method DropOldest()
      modifies this`samples
      ensures samples == LastOf(old(samples), maxSamples)
    {
      ghost var window := LastOf(samples, maxSamples);
      while |samples| > maxSamples
        invariant LastOf(samples, maxSamples) == window
      {
        samples := samples[1..];
      }
    }
  }

  /** The highest usage sampled, or zero. */
  ghost predicate IsPeak(history: seq<Sample>, peak: nat) {
    && (history == [] ==> peak == 0)
    && (history != [] ==> exists i :: 0 <= i < |history| && history[i].usage == peak)
    && forall i :: 0 <= i < |history| ==> history[i].usage <= peak
  }

  lemma PeakGrows(before: seq<Sample>, peak: nat, sample: Sample)
    requires IsPeak(before, peak)
    ensures IsPeak(before + [sample], Max(peak, sample.usage))
  {
    var all := before + [sample];
    if before == [] || sample.usage >= peak {
      assert all[|before|].usage == Max(peak, sample.usage);
    } else {
      var i :| 0 <= i < |before| && before[i].usage == peak;
      assert all[i].usage == Max(peak, sample.usage);
    }
  }
}
