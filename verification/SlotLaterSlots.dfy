/** Tasks with several slots: which of them their progress callbacks keep, and which are reclaimed. */
module SlotLaterSlots {
  import opened Prelude
  import opened SlotModel
  import opened SlotGrants
  import opened SlotInvariants
  import opened SlotRuns
  import opened SlotKeepAlive

  function LiveRun(w: Watch, t: TaskId, es: seq<LifeEvent>): Watch
    decreases |es|
  {
    if es == [] then w else LiveRun(Live(w, t, es[0]), t, es[1..])
  }

  /** The operation gives back slots in the name of `t`. */
  predicate GivesBack(op: Op, t: TaskId) {
    match op
    case ReleaseBorrowed(folder, _) => folder == t
    case ReleaseFixed(task) => task == t
    case ReleaseAll(task) => task == t
    case _ => false
  }

  /** Time does not run backwards and the callback of `t` is punctual; everybody does anything, but `t` takes
      no further slots. */
  predicate Undisturbed(w: Watch, t: TaskId, clock: int, d: nat, es: seq<LifeEvent>)
    decreases |es|
  {
    es != [] ==>
      && clock <= es[0].now && es[0].now - w.lastBeat <= CallbackGap(d)
      && (es[0].PoolOp? ==> !AllocatesFor(es[0].op, t))
      && Undisturbed(Live(w, t, es[0]), t, es[0].now, d, es[1..])
  }

  ghost predicate HoldsSlot(p: Pool, t: TaskId, m: nat) {
    exists s :: s in p.slots && s.id == m && s.owner == Some(t)
  }

  /** `s` is the slot with id `m` of `t`, stamped at most `d` before what the throttler remembers. */
  predicate Main(s: Slot, t: TaskId, m: nat, lastTouch: int, d: nat) {
    && s.id == m && s.owner == Some(t)
    && s.lastUpdatedAt.Some? && lastTouch - d <= s.lastUpdatedAt.value
  }

  /** The first slot of `t` is the one with id `m`; its others are in `before`, unchanged. */
  ghost predicate Tracked(before: seq<Slot>, w: Watch, t: TaskId, m: nat, clock: int, d: nat) {
    && Inv(w.pool)
    && (exists s :: s in w.pool.slots && Main(s, t, m, w.lastTouch, d))
    && (forall s :: s in w.pool.slots && s.owner == Some(t) && s.id != m ==> s in before && s.id > m)
    && w.lastTouch <= clock + d && w.lastBeat - w.lastTouch < TOUCH_INTERVAL
  }

  lemma SameId(slots: seq<Slot>, a: Slot, b: Slot)
    requires Ascending(slots) && a in slots && b in slots && a.id == b.id
    ensures a == b
  {
    var i :| 0 <= i < |slots| && slots[i] == a;
    var j :| 0 <= j < |slots| && slots[j] == b;
    UniqueId(slots, i, j);
  }

  lemma MainIsFirst(p: Pool, t: TaskId, a: Slot)
    requires Ascending(p.slots) && a in p.slots && a.owner == Some(t)
    requires forall s :: s in p.slots && s.owner == Some(t) ==> s.id >= a.id
    ensures var i := First(p.slots, OwnedBy(t)); i < |p.slots| && p.slots[i] == a
  {
    var k :| 0 <= k < |p.slots| && p.slots[k] == a;
    var i := First(p.slots, OwnedBy(t));
    assert Matches(OwnedBy(t), p.slots[k]);
    assert p.slots[i] in p.slots;
  }

  /** Refreshing stamps the first slot and leaves the others. */
  lemma RefreshKeeps(before: seq<Slot>, w: Watch, t: TaskId, m: nat, clock: int, d: nat, now: int, next: Watch)
    requires Tracked(before, w, t, m, clock, d) && clock <= now
    requires next.pool == TouchIn(w.pool, t, now) && w.lastTouch <= next.lastTouch <= now + d
    requires next.lastBeat - next.lastTouch < TOUCH_INTERVAL
    ensures Tracked(before, next, t, m, now, d)
  {
    var p, q := w.pool, next.pool;
    var a :| a in p.slots && Main(a, t, m, w.lastTouch, d);
    MainIsFirst(p, t, a);
    TouchKeeps(p, t, now);
    var i := First(p.slots, OwnedBy(t));
    assert q.slots[i] == a.Touched(now) && q.slots[i] in q.slots;
    assert Main(q.slots[i], t, m, next.lastTouch, d);
    forall s | s in q.slots && s.owner == Some(t) && s.id != m
      ensures s in p.slots
    {
      var j :| 0 <= j < |q.slots| && q.slots[j] == s;
      assert p.slots[j] == s;
    }
  }

  /** Any operation that is no allocation for `t` and leaves it its first slot leaves that slot as it was and
      gives `t` nothing new. */
  lemma OthersKeep(before: seq<Slot>, w: Watch, t: TaskId, m: nat, clock: int, d: nat, e: Event)
    requires Tracked(before, w, t, m, clock, d) && clock <= e.now
    requires !AllocatesFor(e.op, t) && e.op != Touch(t)
    requires HoldsSlot(Step(w.pool, e.op, e.now).pool, t, m)
    ensures Tracked(before, w.(pool := Step(w.pool, e.op, e.now).pool), t, m, e.now, d)
  {
    var p, q := w.pool, Step(w.pool, e.op, e.now).pool;
    StepKeeps(p, e);
    NothingNewFor(p, e, t);
    var a :| a in p.slots && Main(a, t, m, w.lastTouch, d);
    var b :| b in q.slots && b.id == m && b.owner == Some(t);
    SameId(p.slots, b, a);
  }

  lemma EventKeeps(before: seq<Slot>, w: Watch, t: TaskId, m: nat, clock: int, d: nat, e: LifeEvent)
    requires Tracked(before, w, t, m, clock, d) && clock <= e.now
    requires e.PoolOp? ==> !AllocatesFor(e.op, t)
    requires HoldsSlot(Live(w, t, e).pool, t, m)
    ensures Tracked(before, Live(w, t, e), t, m, e.now, d)
  {
    match e
    case PoolOp(op, now, _) =>
      if op == Touch(t) {
        RefreshKeeps(before, w, t, m, clock, d, now, Live(w, t, e));
      } else {
        OthersKeep(before, w, t, m, clock, d, Event(op, now));
      }
    case Callback(now) =>
      if now - w.lastTouch >= TOUCH_INTERVAL {
        var a :| a in w.pool.slots && Main(a, t, m, w.lastTouch, d);
        MainIsFirst(w.pool, t, a);
        RefreshKeeps(before, w, t, m, clock, d, now, Live(w, t, e));
      }
  }

  lemma SameOwnersHold(p: Pool, q: Pool, t: TaskId, m: nat)
    requires |p.slots| == |q.slots|
    requires forall i :: 0 <= i < |p.slots| ==> q.slots[i].id == p.slots[i].id && q.slots[i].owner == p.slots[i].owner
    ensures HoldsSlot(q, t, m) ==> HoldsSlot(p, t, m)
  {
    if s :| s in q.slots && s.id == m && s.owner == Some(t) {
      var j :| 0 <= j < |q.slots| && q.slots[j] == s;
      assert p.slots[j] in p.slots && p.slots[j].id == m && p.slots[j].owner == Some(t);
    }
  }

  /** Without an allocation for it, `t` holds afterwards only slots it held before. */
  lemma HeldBefore(w: Watch, t: TaskId, m: nat, e: LifeEvent)
    requires Inv(w.pool) && (e.PoolOp? ==> !AllocatesFor(e.op, t))
    ensures Inv(Live(w, t, e).pool)
    ensures HoldsSlot(Live(w, t, e).pool, t, m) ==> HoldsSlot(w.pool, t, m)
  {
    TouchKeeps(w.pool, t, e.now);
    SameOwnersHold(w.pool, TouchIn(w.pool, t, e.now), t, m);
    if e.PoolOp? {
      StepKeeps(w.pool, Event(e.op, e.now));
      if e.op != Touch(t) { NothingNewFor(w.pool, Event(e.op, e.now), t); }
    }
  }

  lemma {:induction false} HeldThroughout(w: Watch, t: TaskId, m: nat, clock: int, d: nat, es: seq<LifeEvent>)
    requires Inv(w.pool) && Undisturbed(w, t, clock, d, es)
    ensures HoldsSlot(LiveRun(w, t, es).pool, t, m) ==> HoldsSlot(w.pool, t, m)
    decreases |es|
  {
    if es != [] {
      HeldBefore(w, t, m, es[0]);
      HeldThroughout(Live(w, t, es[0]), t, m, es[0].now, d, es[1..]);
    }
  }

  function EndOf(clock: int, es: seq<LifeEvent>): int { if es == [] then clock else es[|es| - 1].now }

  /** As long as `t` holds its first slot, its other slots are among those it had, unchanged. */
  lemma {:induction false} RunKeeps(
      before: seq<Slot>, w: Watch, t: TaskId, m: nat, clock: int, d: nat, es: seq<LifeEvent>)
    requires Tracked(before, w, t, m, clock, d) && Undisturbed(w, t, clock, d, es)
    requires HoldsSlot(LiveRun(w, t, es).pool, t, m)
    ensures Tracked(before, LiveRun(w, t, es), t, m, EndOf(clock, es), d)
    decreases |es|
  {
    if es != [] {
      var next := Live(w, t, es[0]);
      HeldBefore(w, t, m, es[0]);
      HeldThroughout(next, t, m, es[0].now, d, es[1..]);
      EventKeeps(before, w, t, m, clock, d, es[0]);
      RunKeeps(before, next, t, m, es[0].now, d, es[1..]);
    }
  }

  // ---------- keeping the first slot ----------

  /** The slot with id `m` of `t` cannot be preempted. */
  ghost predicate Firm(p: Pool, t: TaskId, m: nat) {
    exists s :: s in p.slots && s.id == m && s.owner == Some(t) && !s.IsPreemptable()
  }

  /** Operations that are not by `t` cannot take a first slot that is fresh and not preemptable. */
  lemma FirmStays(before: seq<Slot>, w: Watch, t: TaskId, m: nat, clock: int, d: nat, e: Event)
    requires Tracked(before, w, t, m, clock, d) && e.now - w.lastBeat <= CallbackGap(d)
    requires Firm(w.pool, t, m) && !AllocatesFor(e.op, t) && !GivesBack(e.op, t)
    ensures Firm(Step(w.pool, e.op, e.now).pool, t, m)
  {
    var p, q := w.pool, Step(w.pool, e.op, e.now).pool;
    var a :| a in p.slots && Main(a, t, m, w.lastTouch, d);
    var b :| b in p.slots && b.id == m && b.owner == Some(t) && !b.IsPreemptable();
    SameId(p.slots, a, b);
    var i :| 0 <= i < |p.slots| && p.slots[i] == a;
    TenancyThroughStep(p, e, i);
    var j :| 0 <= j < |q.slots| && SameTenancy(a, q.slots[j]);
    assert q.slots[j] in q.slots;
  }

  lemma FirmAfterTouch(p: Pool, t: TaskId, m: nat, now: int)
    requires Firm(p, t, m)
    ensures Firm(TouchIn(p, t, now), t, m)
  {
    var q := TouchIn(p, t, now);
    var b :| b in p.slots && b.id == m && b.owner == Some(t) && !b.IsPreemptable();
    var i :| 0 <= i < |p.slots| && p.slots[i] == b;
    assert q.slots[i] in q.slots;
  }

  /** A task whose first slot cannot be preempted, whose callbacks are punctual and who gives nothing back
      keeps that slot, whatever the others do. */
  lemma {:induction false} FirstSlotIsKept(
      before: seq<Slot>, w: Watch, t: TaskId, m: nat, clock: int, d: nat, es: seq<LifeEvent>)
    requires Tracked(before, w, t, m, clock, d) && Undisturbed(w, t, clock, d, es)
    requires Firm(w.pool, t, m) && forall e :: e in es && e.PoolOp? ==> !GivesBack(e.op, t)
    ensures HoldsSlot(LiveRun(w, t, es).pool, t, m)
    decreases |es|
  {
    if es != [] {
      var e, next := es[0], Live(w, t, es[0]);
      assert e in es && forall x :: x in es[1..] ==> x in es;
      if e.PoolOp? { FirmStays(before, w, t, m, clock, d, Event(e.op, e.now)); }
      FirmAfterTouch(w.pool, t, m, e.now);
      assert Firm(next.pool, t, m);
      EventKeeps(before, w, t, m, clock, d, e);
      FirstSlotIsKept(before, next, t, m, e.now, d, es[1..]);
    }
  }

  // ---------- the others ----------

  /** A slot of `t` after its first one, held before the run and still held, that a clean-up finds expired. */
  predicate Lapsed(before: seq<Slot>, p: Pool, t: TaskId, m: nat, now: int, s: Slot) {
    s in before && s in p.slots && s.owner == Some(t) && s.id > m && s.id < p.max && s.IsStale(now)
  }

  lemma LapsedIsTaken(before: seq<Slot>, w: Watch, t: TaskId, m: nat, clock: int, d: nat, now: int)
    requires Tracked(before, w, t, m, clock, d) && now - w.lastBeat <= CallbackGap(d)
    ensures t in CleanupIn(w.pool, now).lost <==> exists s :: Lapsed(before, w.pool, t, m, now, s)
  {
    var p := w.pool;
    OwnersAre(p.slots, Expired(p.max, now), t);
    var a :| a in p.slots && Main(a, t, m, w.lastTouch, d);
    forall i | 0 <= i < |p.slots| && Matches(Expired(p.max, now), p.slots[i]) && p.slots[i].owner == Some(t)
      ensures Lapsed(before, p, t, m, now, p.slots[i])
    {
      NotTheMain(w, a, t, m, d, now, i);
      assert p.slots[i] in p.slots;
    }
    if s :| Lapsed(before, p, t, m, now, s) {
      var i :| 0 <= i < |p.slots| && p.slots[i] == s;
      assert Matches(Expired(p.max, now), p.slots[i]);
    }
  }

  lemma NotTheMain(w: Watch, a: Slot, t: TaskId, m: nat, d: nat, now: int, i: nat)
    requires Ascending(w.pool.slots) && a in w.pool.slots && Main(a, t, m, w.lastTouch, d)
    requires w.lastBeat - w.lastTouch < TOUCH_INTERVAL && now - w.lastBeat <= CallbackGap(d)
    requires i < |w.pool.slots| && w.pool.slots[i].IsStale(now)
    ensures w.pool.slots[i].id != m
  {
    if w.pool.slots[i].id == m {
      SameId(w.pool.slots, w.pool.slots[i], a);
    }
  }

  /** The slots of `t` after its first one. */
  predicate IsLaterSlot(p: Pool, t: TaskId, j: nat) {
    First(p.slots, OwnedBy(t)) < j < |p.slots| && p.slots[j].owner == Some(t)
  }

  /** `t` holds a slot after its first one and below the limit. */
  ghost predicate HoldsLater(p: Pool, t: TaskId) {
    exists j :: 0 <= j < |p.slots| && IsLaterSlot(p, t, j) && p.slots[j].id < p.max
  }

  /** Right after a loan to a folder without slots, all its slots were stamped by the loan. */
  lemma LoanStamps(p: Pool, t: TaskId, loan: Op, start: int)
    requires Inv(p) && !Owns(p, t) && (loan.Borrow? || loan.BorrowIdle?) && loan.folder == t
    ensures forall s :: s in Step(p, loan, start).pool.slots && s.owner == Some(t) ==>
              s.priority == Normal && s.lastUpdatedAt == Some(start)
  {
    var q := Step(p, loan, start).pool;
    if loan.Borrow? { GrantLends(p, t, loan.count, start); } else { IdleGrantLends(p, t, loan.count, start); }
    forall i | 0 <= i < |q.slots| && q.slots[i].owner == Some(t)
      ensures q.slots[i].priority == Normal && q.slots[i].lastUpdatedAt == Some(start)
    {
      assert p.slots[i].owner != Some(t);
    }
  }

  lemma LaterIdsAreLarger(slots: seq<Slot>, t: TaskId)
    requires Ascending(slots) && First(slots, OwnedBy(t)) < |slots|
    ensures slots[First(slots, OwnedBy(t))] in slots
    ensures forall s :: s in slots && s.owner == Some(t) ==> s.id >= slots[First(slots, OwnedBy(t))].id
  {
    forall i | 0 <= i < |slots| && slots[i].owner == Some(t)
      ensures slots[i].id >= slots[First(slots, OwnedBy(t))].id
    {
      assert Matches(OwnedBy(t), slots[i]);
    }
  }

  lemma GrantIsTracked(q: Pool, t: TaskId, start: int, delay: nat, d: nat, m: nat)
    requires Inv(q) && delay <= d
    requires var i := First(q.slots, OwnedBy(t));
             && i < |q.slots| && q.slots[i].id == m
             && q.slots[i].lastUpdatedAt.Some? && start + delay - d <= q.slots[i].lastUpdatedAt.value
    ensures Tracked(q.slots, Watch(q, start + delay, start + delay), t, m, start, d)
  {
    LaterIdsAreLarger(q.slots, t);
    var first := q.slots[First(q.slots, OwnedBy(t))];
    assert Main(first, t, m, start + delay, d);
    forall s | s in q.slots && s.owner == Some(t) && s.id != m
      ensures s.id > m
    {
    }
  }

  lemma LoanIsOwned(p: Pool, t: TaskId, loan: Op, start: int)
    requires Inv(p) && (loan.Borrow? || loan.BorrowIdle?) && loan.folder == t
    requires Step(p, loan, start).granted != []
    ensures var q := Step(p, loan, start).pool; First(q.slots, OwnedBy(t)) < |q.slots|
  {
    var r := Step(p, loan, start);
    if loan.Borrow? { GrantLends(p, t, loan.count, start); } else { IdleGrantLends(p, t, loan.count, start); }
    LentIsOwned(p, r.pool, t, start, r.granted);
  }

  lemma LentIsOwned(p: Pool, q: Pool, t: TaskId, now: int, ids: seq<nat>)
    requires LendsTo(p, q, t, now, ids) && ids != []
    ensures First(q.slots, OwnedBy(t)) < |q.slots|
  {
    assert HasId(p.slots, ids[0]);
    var i :| 0 <= i < |p.slots| && p.slots[i].id == ids[0];
    assert Matches(OwnedBy(t), q.slots[i]);
  }

  lemma HoldsLaterIs(p: Pool, t: TaskId, m: nat)
    requires Ascending(p.slots)
    requires var i := First(p.slots, OwnedBy(t)); i < |p.slots| && p.slots[i].id == m
    ensures HoldsLater(p, t) <==> exists s :: s in p.slots && s.owner == Some(t) && m < s.id < p.max
  {
    if s :| s in p.slots && s.owner == Some(t) && m < s.id < p.max {
      var j :| 0 <= j < |p.slots| && p.slots[j] == s;
      assert IsLaterSlot(p, t, j);
    }
    if j :| 0 <= j < |p.slots| && IsLaterSlot(p, t, j) && p.slots[j].id < p.max {
      assert p.slots[j] in p.slots;
    }
  }

  /** The watched pool right after a grant, in a reachable pool. */
  function Granted(max: nat, earlier: seq<Event>, t: TaskId, grant: Op, start: int, delay: nat): Watch {
    Live(Watch(Run(NewPool(max), earlier), start, start), t, PoolOp(grant, start, delay))
  }

  /**
   A task with any number of slots, in any reachable pool, right after any grant of further slots to it;
   its throttler is created at most `d` later than its first slot was stamped.  From then on everybody does
   anything, and the task is punctual and takes nothing more.  As long as it still holds its first slot, a
   clean-up takes a slot from it exactly when one of its later slots, held since the grant, still held and
   below the limit, was stamped 30 minutes ago or more.
   */
  lemma LaterSlotsAreReaped(
      max: nat, earlier: seq<Event>, t: TaskId, grant: Op, start: int, delay: nat, d: nat, m: nat,
      es: seq<LifeEvent>, now: int)
    requires AllocatesFor(grant, t) && Step(Run(NewPool(max), earlier), grant, start).granted != []
    requires var slots := Granted(max, earlier, t, grant, start, delay).pool.slots;
             var i := First(slots, OwnedBy(t));
             && i < |slots| && slots[i].id == m && delay <= d
             && slots[i].lastUpdatedAt.Some? && start + delay - d <= slots[i].lastUpdatedAt.value
    requires var w := Granted(max, earlier, t, grant, start, delay);
             && Undisturbed(w, t, start, d, es) && now - LiveRun(w, t, es).lastBeat <= CallbackGap(d)
             && HoldsSlot(LiveRun(w, t, es).pool, t, m)
    ensures var w := Granted(max, earlier, t, grant, start, delay);
            var q := LiveRun(w, t, es).pool;
            t in CleanupIn(q, now).lost <==> exists s :: Lapsed(w.pool.slots, q, t, m, now, s)
  {
    var p, w := Run(NewPool(max), earlier), Granted(max, earlier, t, grant, start, delay);
    NewPoolInv(max);
    RunKeepsInv(NewPool(max), earlier);
    StepKeeps(p, Event(grant, start));
    GrantIsTracked(w.pool, t, start, delay, d, m);
    RunKeeps(w.pool.slots, w, t, m, start, d, es);
    LapsedIsTaken(w.pool.slots, LiveRun(w, t, es), t, m, EndOf(start, es), d, now);
  }

  /**
   The case of a first loan: a folder that borrows any number of slots while it owns none and gives nothing
   back loses a slot exactly when 30 minutes have passed since the loan and it still holds a slot after
   its first one and below the limit.
   */
  lemma FirstLoanExpires(
      max: nat, earlier: seq<Event>, t: TaskId, loan: Op, start: int, delay: nat, d: nat, es: seq<LifeEvent>, now: int)
    requires (loan.Borrow? || loan.BorrowIdle?) && loan.folder == t && delay <= d
    requires var p := Run(NewPool(max), earlier);
             !Owns(p, t) && Step(p, loan, start).granted != []
    requires var w := Granted(max, earlier, t, loan, start, delay);
             Undisturbed(w, t, start, d, es) && now - LiveRun(w, t, es).lastBeat <= CallbackGap(d)
    requires forall e :: e in es && e.PoolOp? ==> !GivesBack(e.op, t)
    ensures var w := Granted(max, earlier, t, loan, start, delay);
            var q := LiveRun(w, t, es).pool;
            (t in CleanupIn(q, now).lost <==> now - start >= STALE_RELEASE_THRESHOLD && HoldsLater(q, t))
  {
    var p := Run(NewPool(max), earlier);
    NewPoolInv(max);
    RunKeepsInv(NewPool(max), earlier);
    LoanIsOwned(p, t, loan, start);
    var w := Granted(max, earlier, t, loan, start, delay);
    var before := w.pool.slots;
    var m := before[First(before, OwnedBy(t))].id;
    LoanIsTracked(p, t, loan, start, delay, d, m);
    ReapedAfterRun(before, w, t, m, start, d, es, start, now);
  }

  /** Right after a first loan: everything was stamped by the loan, and the first slot is firm. */
  lemma LoanIsTracked(p: Pool, t: TaskId, loan: Op, start: int, delay: nat, d: nat, m: nat)
    requires Inv(p) && !Owns(p, t) && (loan.Borrow? || loan.BorrowIdle?) && loan.folder == t && delay <= d
    requires var slots := Step(p, loan, start).pool.slots;
             First(slots, OwnedBy(t)) < |slots| && slots[First(slots, OwnedBy(t))].id == m
    ensures var q := Step(p, loan, start).pool;
            && Tracked(q.slots, Watch(q, start + delay, start + delay), t, m, start, d) && Firm(q, t, m)
            && forall s :: s in q.slots && s.owner == Some(t) ==> s.lastUpdatedAt == Some(start)
  {
    LoanStamps(p, t, loan, start);
    StepKeeps(p, Event(loan, start));
    FreshSlotsAreTracked(Step(p, loan, start).pool, t, start, delay, d, m);
  }

  lemma FreshSlotsAreTracked(q: Pool, t: TaskId, start: int, delay: nat, d: nat, m: nat)
    requires Inv(q) && delay <= d && First(q.slots, OwnedBy(t)) < |q.slots|
    requires q.slots[First(q.slots, OwnedBy(t))].id == m
    requires forall s :: s in q.slots && s.owner == Some(t) ==> s.priority == Normal && s.lastUpdatedAt == Some(start)
    ensures Tracked(q.slots, Watch(q, start + delay, start + delay), t, m, start, d) && Firm(q, t, m)
  {
    var first := q.slots[First(q.slots, OwnedBy(t))];
    assert first in q.slots && !first.IsPreemptable();
    GrantIsTracked(q, t, start, delay, d, m);
  }

  lemma ReapedAfterRun(before: seq<Slot>, w: Watch, t: TaskId, m: nat, clock: int, d: nat, es: seq<LifeEvent>,
                       start: int, now: int)
    requires Tracked(before, w, t, m, clock, d) && Undisturbed(w, t, clock, d, es)
    requires Firm(w.pool, t, m) && forall e :: e in es && e.PoolOp? ==> !GivesBack(e.op, t)
    requires forall s :: s in before && s.owner == Some(t) ==> s.lastUpdatedAt == Some(start)
    requires now - LiveRun(w, t, es).lastBeat <= CallbackGap(d)
    ensures var q := LiveRun(w, t, es).pool;
            (t in CleanupIn(q, now).lost <==> now - start >= STALE_RELEASE_THRESHOLD && HoldsLater(q, t))
  {
    FirstSlotIsKept(before, w, t, m, clock, d, es);
    RunKeeps(before, w, t, m, clock, d, es);
    ReapedAfterLoan(before, LiveRun(w, t, es), t, m, EndOf(clock, es), d, start, now);
  }

  lemma ReapedAfterLoan(before: seq<Slot>, w: Watch, t: TaskId, m: nat, clock: int, d: nat, start: int, now: int)
    requires Tracked(before, w, t, m, clock, d) && now - w.lastBeat <= CallbackGap(d)
    requires forall s :: s in before && s.owner == Some(t) ==> s.lastUpdatedAt == Some(start)
    ensures t in CleanupIn(w.pool, now).lost <==> now - start >= STALE_RELEASE_THRESHOLD && HoldsLater(w.pool, t)
  {
    LapsedIsTaken(before, w, t, m, clock, d, now);
    var a :| a in w.pool.slots && Main(a, t, m, w.lastTouch, d);
    MainIsFirst(w.pool, t, a);
    HoldsLaterIs(w.pool, t, m);
    forall s | s in w.pool.slots && s.owner == Some(t) && m < s.id < w.pool.max
      ensures Lapsed(before, w.pool, t, m, now, s) <==> now - start >= STALE_RELEASE_THRESHOLD
    {
      assert s in before;
    }
  }

  /** The pool after a series of callbacks for `t`, and the throttler's last refresh. */
  function Beats(p: Pool, t: TaskId, lastTouch: int, times: seq<int>): (Pool, int)
    decreases |times|
  {
    if times == [] then (p, lastTouch)
    else
      var r := BeatIn(p, t, lastTouch, times[0]);
      Beats(r.0, t, r.1, times[1..])
  }

  /** Callbacks stamp the task's first slot and change nothing else. */
  lemma {:induction false} BeatsTouchFirst(p: Pool, t: TaskId, lastTouch: int, times: seq<int>)
    ensures var q, i := Beats(p, t, lastTouch, times).0, First(p.slots, OwnedBy(t));
            && q.max == p.max && |q.slots| == |p.slots|
            && (forall j :: 0 <= j < |p.slots| && j != i ==> q.slots[j] == p.slots[j])
            && (i < |p.slots| ==> exists u :: q.slots[i] == p.slots[i].(lastUpdatedAt := u))
    decreases |times|
  {
    var i := First(p.slots, OwnedBy(t));
    if times == [] {
      assert i < |p.slots| ==> p.slots[i] == p.slots[i].(lastUpdatedAt := p.slots[i].lastUpdatedAt);
    } else {
      var r := BeatIn(p, t, lastTouch, times[0]);
      if i < |p.slots| { FirstIs(r.0.slots, OwnedBy(t), i); } else { FirstIs(r.0.slots, OwnedBy(t), |p.slots|); }
      BeatsTouchFirst(r.0, t, r.1, times[1..]);
    }
  }

  /** From a new pool: a folder that borrows two slots loses one to any clean-up after half an hour, whatever
      its callbacks did in the meantime. */
  lemma TwoSlotsAreNotKept(t: TaskId, times: seq<int>, now: int)
    requires now >= STALE_RELEASE_THRESHOLD
    ensures var p := Step(NewPool(2), Borrow(t, 2), 0).pool;
            && p == Run(NewPool(2), [Event(Borrow(t, 2), 0)])
            && t in Step(Beats(p, t, 0, times).0, Cleanup, now).lost
  {
    var p := Step(NewPool(2), Borrow(t, 2), 0).pool;
    TwoLoans(t);
    assert [Event(Borrow(t, 2), 0)][1..] == [];
    assert Run(p, []) == p;
    FirstIs(p.slots, OwnedBy(t), 0);
    BeatsTouchFirst(p, t, 0, times);
    var q := Beats(p, t, 0, times).0;
    OwnersAre(q.slots, Expired(q.max, now), t);
    assert Matches(Expired(q.max, now), q.slots[1]) && q.slots[1].owner == Some(t);
  }

  /** The same for a folder that first takes a main slot and then borrows one: it loses the loan. */
  lemma LoanBesideMainIsNotKept(t: TaskId, times: seq<int>, now: int)
    requires now >= STALE_RELEASE_THRESHOLD
    ensures var es := [Event(AllocPriority(t, true, Normal), 0), Event(Borrow(t, 1), 0)];
            var p := Run(NewPool(2), es);
            && |p.slots| == 2 && p.slots[1].slotType == Borrowed
            && t in Step(Beats(p, t, 0, times).0, Cleanup, now).lost
  {
    var p := MainAndLoan(t);
    FirstIs(p.slots, OwnedBy(t), 0);
    BeatsTouchFirst(p, t, 0, times);
    var q := Beats(p, t, 0, times).0;
    OwnersAre(q.slots, Expired(q.max, now), t);
    assert Matches(Expired(q.max, now), q.slots[1]) && q.slots[1].owner == Some(t);
    MainThenLoan(t);
  }

  function MainAndLoan(t: TaskId): Pool {
    Pool(2, [FreshSlot(0).Taken(t, Fixed, true, Normal, 0), FreshSlot(1).Taken(t, Borrowed, false, Normal, 0)],
         map[t := [1]])
  }

  lemma MainThenLoan(t: TaskId)
    ensures Run(NewPool(2), [Event(AllocPriority(t, true, Normal), 0), Event(Borrow(t, 1), 0)]) == MainAndLoan(t)
  {
    var a, b := Event(AllocPriority(t, true, Normal), 0), Event(Borrow(t, 1), 0);
    var main := FreshSlot(0).Taken(t, Fixed, true, Normal, 0);
    var p1 := Pool(2, [main, FreshSlot(1)], map[]);
    assert NewPool(2).slots == [FreshSlot(0), FreshSlot(1)];
    FirstIs(NewPool(2).slots, Free(2), 0);
    assert AllocPriorityIn(NewPool(2), t, true, Normal, 0).pool == p1;
    LoanOfSecond(t, main, p1);
    assert [a, b][1..] == [b] && [b][1..] == [];
    assert Run(MainAndLoan(t), []) == MainAndLoan(t);
    assert Run(p1, [b]) == MainAndLoan(t);
  }

  lemma LoanOfSecond(t: TaskId, main: Slot, p: Pool)
    requires main == FreshSlot(0).Taken(t, Fixed, true, Normal, 0) && p == Pool(2, [main, FreshSlot(1)], map[])
    ensures BorrowIn(p, t, 1, 0).pool == MainAndLoan(t)
  {
    var loan := FreshSlot(1).Taken(t, Borrowed, false, Normal, 0);
    assert p.slots[..1] == [main] && p.slots[..1][..0] == [];
    assert Grab([], Free(2), 1, t, 0) == Grant([], [], []);
    assert Grab(p.slots[..1], Free(2), 1, t, 0) == Grant([main], [], []);
    assert Grab(p.slots, Free(2), 1, t, 0) == Grant([main, loan], [1], []);
    assert p.ListOf(t) + [1] == [1];
  }
}
