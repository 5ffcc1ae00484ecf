/** Why a task that keeps reporting progress is never reclaimed, and how tight the limit is. */
module SlotKeepAlive {
  import opened Prelude
  import opened SlotModel
  import opened SlotGrants
  import opened SlotInvariants
  import opened SlotRuns

  /** The longest allowed silence of a progress callback when throttlers are created at most `d` after
      their slots: 29 min 30 s less `d`. */
  function CallbackGap(d: nat): int { STALE_RELEASE_THRESHOLD - TOUCH_INTERVAL - d }

  /** The pool as seen while one task is being watched: when its throttler last refreshed the slot
      and when its progress callback last fired. */
  datatype Watch = Watch(pool: Pool, lastTouch: int, lastBeat: int)

  datatype LifeEvent =
    /** An allocation's throttler is created `delay` after the slots are granted. */
    | PoolOp(op: Op, now: int, delay: nat)
    | Callback(now: int)

  predicate Owns(p: Pool, t: TaskId) {
    exists i :: 0 <= i < |p.slots| && p.slots[i].owner == Some(t)
  }

  /** The operation asks for slots in the name of `t`. */
  predicate AllocatesFor(op: Op, t: TaskId) {
    match op
    case AllocFixed(task, _) => task == t
    case AllocPriority(task, _, _) => task == t
    case AllocBackup(task) => task == t
    case Borrow(folder, _) => folder == t
    case BorrowIdle(folder, _) => folder == t
    case _ => false
  }

  /** A successful allocation for `t` comes with a new throttler and starts the callback clock. */
  function Live(w: Watch, t: TaskId, e: LifeEvent): Watch {
    match e
    case PoolOp(op, now, delay) =>
      var r := Step(w.pool, op, now);
      if AllocatesFor(op, t) && r.granted != [] then Watch(r.pool, now + delay, now + delay)
      else w.(pool := r.pool)
    case Callback(now) =>
      var r := BeatIn(w.pool, t, w.lastTouch, now);
      Watch(r.0, r.1, now)
  }

  /** Time does not run backwards; while `t` owns a slot its callback has fired within the gap; `t` asks for
      one slot at a time and only while it owns none, and has its throttler at most `d` later. */
  ghost predicate Disciplined(w: Watch, t: TaskId, clock: int, d: nat, es: seq<LifeEvent>)
    decreases |es|
  {
    es != [] ==>
      && clock <= es[0].now
      && (Owns(w.pool, t) ==> es[0].now - w.lastBeat <= CallbackGap(d))
      && (es[0].PoolOp? && AllocatesFor(es[0].op, t) ==>
            !Owns(w.pool, t) && es[0].delay <= d
            && (es[0].op.Borrow? || es[0].op.BorrowIdle? ==> es[0].op.count <= 1))
      && Disciplined(Live(w, t, es[0]), t, es[0].now, d, es[1..])
  }

  /** No clean-up of the run takes a slot from `t`. */
  ghost predicate NeverReaped(w: Watch, t: TaskId, es: seq<LifeEvent>)
    decreases |es|
  {
    es != [] ==>
      && (es[0].PoolOp? && es[0].op.Cleanup? ==> t !in Step(w.pool, Cleanup, es[0].now).lost)
      && NeverReaped(Live(w, t, es[0]), t, es[1..])
  }

  /** `t` owns at most one slot, refreshed at most `d` before what the throttler remembers, and the
      throttler's last refresh is less than 30 s older than the last callback. */
  ghost predicate Alive(w: Watch, t: TaskId, clock: int, d: nat) {
    && Inv(w.pool)
    && (forall s, s' :: s in w.pool.slots && s' in w.pool.slots && s.owner == Some(t) && s'.owner == Some(t)
          ==> s == s')
    && (forall s :: s in w.pool.slots && s.owner == Some(t) ==>
          s.lastUpdatedAt.Some? && w.lastTouch - d <= s.lastUpdatedAt.value)
    && (Owns(w.pool, t) ==> w.lastTouch <= clock + d && w.lastBeat - w.lastTouch < TOUCH_INTERVAL)
  }

  lemma OwnsMember(p: Pool, t: TaskId)
    ensures Owns(p, t) <==> exists s :: s in p.slots && s.owner == Some(t)
  {
    if s :| s in p.slots && s.owner == Some(t) {
      var i :| 0 <= i < |p.slots| && p.slots[i] == s;
      assert p.slots[i].owner == Some(t);
    }
  }

  /** Operations that do not allocate for `t` and do not touch its slot give `t` no new slot state. */
  lemma NothingNewFor(p: Pool, e: Event, t: TaskId)
    requires Inv(p)
    requires !AllocatesFor(e.op, t) && e.op != Touch(t)
    ensures forall s :: s in Step(p, e.op, e.now).pool.slots && s.owner == Some(t) ==> s in p.slots
  {
    var r := Step(p, e.op, e.now);
    if e.op.Borrow? {
      GrantLends(p, e.op.folder, e.op.count, e.now);
    } else if e.op.BorrowIdle? {
      IdleGrantLends(p, e.op.folder, e.op.count, e.now);
    } else if e.op.Resize? {
      ResizeKeepsOccupied(p, e.op.max);
    } else {
      SameOrNotOurs(p, e, t);
    }
  }

  lemma SameOrNotOurs(p: Pool, e: Event, t: TaskId)
    requires !AllocatesFor(e.op, t) && e.op != Touch(t)
    requires !e.op.Borrow? && !e.op.BorrowIdle? && !e.op.Resize?
    ensures var q := Step(p, e.op, e.now).pool;
            && |q.slots| == |p.slots|
            && forall i :: 0 <= i < |p.slots| && q.slots[i].owner == Some(t) ==> q.slots[i] == p.slots[i]
  {
  }

  /** What an allocation for a task without slots leaves it with: nothing, or one slot stamped now. */
  lemma OneNewSlot(p: Pool, e: Event, t: TaskId)
    requires Inv(p) && !Owns(p, t) && AllocatesFor(e.op, t)
    requires e.op.Borrow? || e.op.BorrowIdle? ==> e.op.count <= 1
    ensures var r := Step(p, e.op, e.now);
            && (Owns(r.pool, t) ==> r.granted != [])
            && (forall s :: s in r.pool.slots && s.owner == Some(t) ==> s.lastUpdatedAt == Some(e.now))
            && (forall s, s' :: s in r.pool.slots && s' in r.pool.slots && s.owner == Some(t) && s'.owner == Some(t)
                  ==> s == s')
  {
    var r := Step(p, e.op, e.now);
    match e.op
    case Borrow(folder, count) =>
      BorrowGrants(p, folder, count, e.now);
      GrantLends(p, folder, count, e.now);
      LoanIsSingle(p, r.pool, t, e.now, r.granted);
    case BorrowIdle(folder, count) =>
      BorrowIdleGrants(p, folder, count, e.now);
      IdleGrantLends(p, folder, count, e.now);
      LoanIsSingle(p, r.pool, t, e.now, r.granted);
    case _ => OneAllocatedSlot(p, e, t);
  }

  lemma OneAllocatedSlot(p: Pool, e: Event, t: TaskId)
    requires !Owns(p, t) && AllocatesFor(e.op, t) && !e.op.Borrow? && !e.op.BorrowIdle?
    ensures var r := Step(p, e.op, e.now);
            && (Owns(r.pool, t) ==> r.granted != [])
            && (forall s :: s in r.pool.slots && s.owner == Some(t) ==> s.lastUpdatedAt == Some(e.now))
            && (forall s, s' :: s in r.pool.slots && s' in r.pool.slots && s.owner == Some(t) && s'.owner == Some(t)
                  ==> s == s')
  {
  }

  lemma LoanIsSingle(p: Pool, q: Pool, t: TaskId, now: int, ids: seq<nat>)
    requires Ascending(p.slots) && !Owns(p, t) && |ids| <= 1
    requires LendsTo(p, q, t, now, ids)
    ensures Owns(q, t) ==> ids != []
    ensures forall s :: s in q.slots && s.owner == Some(t) ==> s.lastUpdatedAt == Some(now)
    ensures forall s, s' :: s in q.slots && s' in q.slots && s.owner == Some(t) && s'.owner == Some(t) ==> s == s'
  {
    forall i | 0 <= i < |q.slots| && q.slots[i].owner == Some(t)
      ensures ids != [] && p.slots[i].id == ids[0] && q.slots[i].lastUpdatedAt == Some(now)
    {
      assert p.slots[i].owner != Some(t);
    }
    forall i, j | 0 <= i < |q.slots| && 0 <= j < |q.slots| && q.slots[i].owner == Some(t) && q.slots[j].owner == Some(t)
      ensures i == j
    {
      UniqueId(p.slots, i, j);
    }
  }

  lemma TouchOnlySlot(p: Pool, t: TaskId, now: int)
    requires forall s, s' :: s in p.slots && s' in p.slots && s.owner == Some(t) && s'.owner == Some(t) ==> s == s'
    requires Ascending(p.slots)
    ensures var q := TouchIn(p, t, now);
            forall s :: s in q.slots && s.owner == Some(t) ==>
              s.lastUpdatedAt == Some(now) && exists i :: 0 <= i < |p.slots| && s == p.slots[i].Touched(now)
    ensures var q := TouchIn(p, t, now);
            forall s, s' :: s in q.slots && s' in q.slots && s.owner == Some(t) && s'.owner == Some(t) ==> s == s'
    ensures Owns(TouchIn(p, t, now), t) <==> Owns(p, t)
  {
    var k := First(p.slots, OwnedBy(t));
    var q := TouchIn(p, t, now);
    forall i | 0 <= i < |p.slots| && p.slots[i].owner == Some(t)
      ensures i == k
    {
      assert Matches(OwnedBy(t), p.slots[i]);
      assert p.slots[i] in p.slots && p.slots[k] in p.slots;
      UniqueId(p.slots, i, k);
    }
    if Owns(p, t) {
      assert q.slots[k].owner == Some(t);
    }
  }

  /** A clean-up leaves a task that keeps its callback gap alone. */
  lemma CleanupSpares(w: Watch, t: TaskId, clock: int, d: nat, now: int)
    requires Alive(w, t, clock, d)
    requires Owns(w.pool, t) ==> now - w.lastBeat <= CallbackGap(d)
    ensures t !in CleanupIn(w.pool, now).lost
  {
    OwnersAre(w.pool.slots, Expired(w.pool.max, now), t);
    forall i | 0 <= i < |w.pool.slots| && w.pool.slots[i].owner == Some(t)
      ensures !Matches(Expired(w.pool.max, now), w.pool.slots[i])
    {
      assert w.pool.slots[i] in w.pool.slots;
    }
  }

  lemma CallbackKeepsAlive(w: Watch, t: TaskId, clock: int, d: nat, now: int)
    requires Alive(w, t, clock, d) && clock <= now
    ensures Alive(Live(w, t, Callback(now)), t, now, d)
  {
    if now - w.lastTouch >= TOUCH_INTERVAL && First(w.pool.slots, OwnedBy(t)) < |w.pool.slots| {
      TouchKeeps(w.pool, t, now);
      TouchOnlySlot(w.pool, t, now);
    } else if Owns(w.pool, t) {
      var i :| 0 <= i < |w.pool.slots| && w.pool.slots[i].owner == Some(t);
      assert Matches(OwnedBy(t), w.pool.slots[i]);
    }
  }

  lemma StepKeepsAlive(w: Watch, t: TaskId, clock: int, d: nat, e: LifeEvent)
    requires Alive(w, t, clock, d) && clock <= e.now
    requires e.PoolOp? && AllocatesFor(e.op, t) ==>
      !Owns(w.pool, t) && e.delay <= d && (e.op.Borrow? || e.op.BorrowIdle? ==> e.op.count <= 1)
    ensures Alive(Live(w, t, e), t, e.now, d)
  {
    match e
    case Callback(now) => CallbackKeepsAlive(w, t, clock, d, now);
    case PoolOp(op, now, _) =>
      var p := w.pool;
      var q := Step(p, op, now).pool;
      StepKeeps(p, Event(op, now));
      OwnsMember(p, t);
      OwnsMember(q, t);
      if AllocatesFor(op, t) {
        OneNewSlot(p, Event(op, now), t);
      } else if op == Touch(t) {
        TouchOnlySlot(p, t, now);
      } else {
        NothingNewFor(p, Event(op, now), t);
      }
  }

  /**
   Keep-alive: over any run of pool operations by anybody, a task that holds at most one slot, whose
   throttler is created at most `d` after the slot and whose callback is never silent for more than
   29 min 30 s less `d` while it holds it, never loses a slot to a clean-up.
   */
  lemma {:induction false} KeepAlive(w: Watch, t: TaskId, clock: int, d: nat, es: seq<LifeEvent>)
    requires Alive(w, t, clock, d)
    requires Disciplined(w, t, clock, d, es)
    ensures NeverReaped(w, t, es)
    decreases |es|
  {
    if es != [] {
      StepKeepsAlive(w, t, clock, d, es[0]);
      if es[0].PoolOp? && es[0].op.Cleanup? {
        CleanupSpares(w, t, clock, d, es[0].now);
      }
      KeepAlive(Live(w, t, es[0]), t, es[0].now, d, es[1..]);
    }
  }

  /** The same from a new pool, with nothing assumed about the state. */
  lemma KeepAliveFromStart(max: nat, t: TaskId, clock: int, d: nat, es: seq<LifeEvent>)
    requires Disciplined(Watch(NewPool(max), clock, clock), t, clock, d, es)
    ensures NeverReaped(Watch(NewPool(max), clock, clock), t, es)
  {
    NewPoolInv(max);
    KeepAlive(Watch(NewPool(max), clock, clock), t, clock, d, es);
  }

  /** The gap is exact for every delay: one nanosecond more of silence and a clean-up takes the slot. */
  lemma GapIsTight(t: TaskId, d: nat)
    ensures var w0 := Live(Watch(NewPool(1), 0, 0), t, PoolOp(AllocFixed(t, false), 0, d));
            var w1 := Live(w0, t, Callback(d + TOUCH_INTERVAL - 1));
            var end := w1.lastBeat + CallbackGap(d) + 1;
            && Owns(w1.pool, t)
            && Step(w1.pool, Cleanup, end).lost == [t]
            && Step(w1.pool, Cleanup, end - 1).lost == []
  {
    var w0 := Live(Watch(NewPool(1), 0, 0), t, PoolOp(AllocFixed(t, false), 0, d));
    assert w0.pool.slots == [FreshSlot(0).Taken(t, Fixed, false, Normal, 0)];
    var w1 := Live(w0, t, Callback(d + TOUCH_INTERVAL - 1));
    assert w1.pool == w0.pool && w1.pool.slots[0].owner == Some(t);
    var slots := w1.pool.slots;
    assert slots[..|slots| - 1] == [];
    assert Owners(slots[..|slots| - 1], Expired(1, STALE_RELEASE_THRESHOLD)) == [];
  }
}
