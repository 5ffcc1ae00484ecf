/** Throttling progress events per task by elapsed time and by bytes transferred. */
module ProgressThrottler {

  type TaskId = string

  /** Limits: the interval in clock units, and the byte step. */
  datatype Limits = Limits(interval: nat, step: nat)

  datatype State = State(times: map<TaskId, int>, bytes: map<TaskId, nat>)

  datatype Call =
    | ShouldSend(task: TaskId, now: int, current: nat)
    | ForceSend(task: TaskId, now: int, current: nat)
    | Cleanup(task: TaskId)
    | CleanupAll

  function SaturatingSub(a: nat, b: nat): nat { if a < b then 0 else a - b }

  /** Too soon after the last event, and too few bytes since. */
  predicate Held(l: Limits, s: State, task: TaskId, now: int, current: nat) {
    && task in s.times && now - s.times[task] < l.interval
    && task in s.bytes && SaturatingSub(current, s.bytes[task]) < l.step
  }

  function Recorded(s: State, task: TaskId, now: int, current: nat): State {
    State(s.times[task := now], s.bytes[task := current])
  }

  /** The state after a call, and whether an event is sent. */
  function Step(l: Limits, s: State, c: Call): (State, bool) {
    match c
    case ShouldSend(task, now, current) =>
      if Held(l, s, task, now, current) then (s, false) else (Recorded(s, task, now, current), true)
    case ForceSend(task, now, current) => (Recorded(s, task, now, current), true)
    case Cleanup(task) => (State(s.times - {task}, s.bytes - {task}), false)
    case CleanupAll => (State(map[], map[]), false)
  }

  class ProgressThrottler {
    const limits: Limits
    var lastSendTimes: map<TaskId, int>
    var lastSentBytes: map<TaskId, nat>

    function Model(): State
      reads this
    {
      State(lastSendTimes, lastSentBytes)
    }

    constructor (limits: Limits)
      ensures this.limits == limits && Model() == State(map[], map[])
    {
      this.limits := limits;
      lastSendTimes, lastSentBytes := map[], map[];
    }

    method ShouldSend(task: TaskId, now: int, current: nat) returns (send: bool)
      modifies this
      ensures (Model(), send) == Step(limits, old(Model()), Call.ShouldSend(task, now, current))
    {
      if task in lastSendTimes && now - lastSendTimes[task] < limits.interval {
        if task in lastSentBytes && SaturatingSub(current, lastSentBytes[task]) < limits.step {
          return false;
        }
      }
      ForceSend(task, now, current);
      return true;
    }

    method ForceSend(task: TaskId, now: int, current: nat)
      modifies this
      ensures Model() == Recorded(old(Model()), task, now, current)
    {
      lastSendTimes := lastSendTimes[task := now];
      lastSentBytes := lastSentBytes[task := current];
    }

    method CleanupTask(task: TaskId)
      modifies this
      ensures Model() == Step(limits, old(Model()), Cleanup(task)).0
    {
      lastSendTimes := lastSendTimes - {task};
      lastSentBytes := lastSentBytes - {task};
    }

    method CleanupEverything()
      modifies this
      ensures Model() == Step(limits, old(Model()), CleanupAll).0
    {
      lastSendTimes, lastSentBytes := map[], map[];
    }
  }

  // ---------- runs ----------

  function Run(l: Limits, s: State, cs: seq<Call>): State
    decreases |cs|
  {
    if cs == [] then s else Run(l, Step(l, s, cs[0]).0, cs[1..])
  }

  /** The two maps always know the same tasks. */
  lemma {:induction false} KeysStayEqual(l: Limits, s: State, cs: seq<Call>)
    requires s.times.Keys == s.bytes.Keys
    ensures Run(l, s, cs).times.Keys == Run(l, s, cs).bytes.Keys
    decreases |cs|
  {
    if cs != [] {
      var n := Step(l, s, cs[0]).0;
      match cs[0] {
        case Cleanup(task) =>
          assert n.times.Keys == s.times.Keys - {task} && n.bytes.Keys == s.bytes.Keys - {task};
        case _ =>
      }
      KeysStayEqual(l, n, cs[1..]);
    }
  }

  predicate Concerns(c: Call, t: TaskId) { c.ShouldSend? && c.task == t }

  /** How many of the task's own calls answer true. */
  function Sends(l: Limits, s: State, cs: seq<Call>, t: TaskId): nat
    decreases |cs|
  {
    if cs == [] then 0
    else
      (if Concerns(cs[0], t) && Step(l, s, cs[0]).1 then 1 else 0) + Sends(l, Step(l, s, cs[0]).0, cs[1..], t)
  }

  /** The task's own calls come in order of time and bytes, from the given values on; nobody forces an
      event for it or cleans it up.  Other tasks are unrestricted. */
  predicate Orderly(cs: seq<Call>, t: TaskId, now: int, bytes: nat)
    decreases |cs|
  {
    cs != [] ==>
      if Concerns(cs[0], t) then
        now <= cs[0].now && bytes <= cs[0].current && Orderly(cs[1..], t, cs[0].now, cs[0].current)
      else
        && (match cs[0]
            case ForceSend(task, _, _) => task != t
            case Cleanup(task) => task != t
            case CleanupAll => false
            case _ => true)
        && Orderly(cs[1..], t, now, bytes)
  }

  /** Time and bytes of the task's last call, or the given values if it makes none. */
  function LastTime(cs: seq<Call>, t: TaskId, now: int): int
    decreases |cs|
  {
    if cs == [] then now else LastTime(cs[1..], t, if Concerns(cs[0], t) then cs[0].now else now)
  }

  function LastBytes(cs: seq<Call>, t: TaskId, bytes: nat): nat
    decreases |cs|
  {
    if cs == [] then bytes else LastBytes(cs[1..], t, if Concerns(cs[0], t) then cs[0].current else bytes)
  }

  lemma {:induction false} LastIsLater(cs: seq<Call>, t: TaskId, now: int, bytes: nat)
    requires Orderly(cs, t, now, bytes)
    ensures now <= LastTime(cs, t, now) && bytes <= LastBytes(cs, t, bytes)
    decreases |cs|
  {
    if cs != [] {
      if Concerns(cs[0], t) {
        LastIsLater(cs[1..], t, cs[0].now, cs[0].current);
      } else {
        LastIsLater(cs[1..], t, now, bytes);
      }
    }
  }

  lemma OthersDoNotMatter(l: Limits, s: State, c: Call, t: TaskId, now: int, bytes: nat)
    requires t in s.times && t in s.bytes
    requires !Concerns(c, t) && Orderly([c], t, now, bytes)
    ensures var n := Step(l, s, c).0;
            t in n.times && t in n.bytes && n.times[t] == s.times[t] && n.bytes[t] == s.bytes[t]
  {
  }

  /** Once the task is known, its events split into those paid for by an interval of time and those paid
      for by a step of bytes; the payments do not overlap. */
  lemma {:induction false} EventsArePaid(l: Limits, s: State, cs: seq<Call>, t: TaskId, now: int, bytes: nat)
    returns (a: nat, b: nat)
    requires l.interval > 0 && l.step > 0
    requires t in s.times && t in s.bytes && s.times[t] <= now && s.bytes[t] <= bytes
    requires Orderly(cs, t, now, bytes)
    ensures Sends(l, s, cs, t) == a + b
    ensures a * l.interval <= LastTime(cs, t, now) - s.times[t]
    ensures b * l.step <= LastBytes(cs, t, bytes) - s.bytes[t]
    decreases |cs|
  {
    LastIsLater(cs, t, now, bytes);
    if cs == [] {
      return 0, 0;
    }
    var c := cs[0];
    var n := Step(l, s, c).0;
    if !Concerns(c, t) {
      assert [c][1..] == [];
      OthersDoNotMatter(l, s, c, t, now, bytes);
      a, b := EventsArePaid(l, n, cs[1..], t, now, bytes);
    } else {
      a, b := EventsArePaid(l, n, cs[1..], t, c.now, c.current);
      if Step(l, s, c).1 {
        if c.now - s.times[t] >= l.interval {
          OneMore(a, l.interval);
          a := a + 1;
        } else {
          OneMore(b, l.step);
          b := b + 1;
        }
      }
    }
  }

  lemma OneMore(k: int, unit: int)
    ensures (k + 1) * unit == k * unit + unit
  {
  }

  lemma QuotientBounds(k: nat, unit: int, total: int)
    requires unit > 0 && k * unit <= total
    ensures k <= total / unit
  {
    if total >= 0 && k > 0 {
      var q, r := total / unit, total % unit;
      assert total == q * unit + r;
      LessTimes(k, q + 1, unit);
    }
  }

  /** Comparing multiples of a positive unit compares the factors. */
  lemma LessTimes(a: int, b: int, unit: int)
    requires unit > 0 && a * unit < b * unit
    ensures a < b
  {
    assert (b - a) * unit == b * unit - a * unit;
  }

  /**
   The rate limit: starting with a call for a task not seen before, and whatever other tasks do in
   between, the number of events sent for it is at most one, plus the elapsed time over the interval,
   plus the growth in bytes over the step.
   */
  lemma RateLimit(l: Limits, s: State, first: Call, cs: seq<Call>, t: TaskId)
    requires l.interval > 0 && l.step > 0
    requires Concerns(first, t) && t !in s.times
    requires Orderly(cs, t, first.now, first.current)
    ensures Sends(l, s, [first] + cs, t)
         <= 1 + (LastTime(cs, t, first.now) - first.now) / l.interval
              + (LastBytes(cs, t, first.current) - first.current) / l.step
  {
    var n := Step(l, s, first).0;
    assert ([first] + cs)[1..] == cs;
    var a, b := EventsArePaid(l, n, cs, t, first.now, first.current);
    QuotientBounds(a, l.interval, LastTime(cs, t, first.now) - first.now);
    QuotientBounds(b, l.step, LastBytes(cs, t, first.current) - first.current);
  }

  /** The other side: a call is held back only when both limits say so, so an event is never more than one
      interval and one step behind. */
  lemma HeldMeansRecent(l: Limits, s: State, t: TaskId, now: int, current: nat)
    requires s.times.Keys == s.bytes.Keys
    ensures !Step(l, s, ShouldSend(t, now, current)).1 <==>
      t in s.times && now < s.times[t] + l.interval && l.step > 0 && current < s.bytes[t] + l.step
  {
    if t in s.times { assert t in s.times.Keys && t in s.bytes.Keys; }
    if t in s.bytes { assert t in s.bytes.Keys; }
  }

  /** What a call does to the two records: an event that is sent or forced sets both for its task, a clean-up
      forgets its task or all of them, and nothing else changes. */
  lemma CallMeans(l: Limits, s: State, c: Call, t: TaskId)
    ensures var n, sent := Step(l, s, c).0, Step(l, s, c).1;
            && (c.ForceSend? ==> sent) && (c.Cleanup? || c.CleanupAll? ==> !sent)
            && (if (c.ShouldSend? || c.ForceSend?) && c.task == t && sent
                then t in n.times && n.times[t] == c.now && t in n.bytes && n.bytes[t] == c.current
                else if c.CleanupAll? || (c.Cleanup? && c.task == t)
                then t !in n.times && t !in n.bytes
                else (t in n.times <==> t in s.times) && (t in s.times ==> n.times[t] == s.times[t])
                     && (t in n.bytes <==> t in s.bytes) && (t in s.bytes ==> n.bytes[t] == s.bytes[t]))
  {
  }
}
