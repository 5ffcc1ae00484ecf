/**
 What every pool operation means, told slot by slot on the plain fields: identifiers, owners,
 priorities and times.  Nothing here refers to how an operation walks the list.
 */
module SlotLaws {
  import opened Prelude
  import opened SlotModel
  import opened SlotGrants
  import opened SlotInvariants
  import opened SlotRuns

  /** Half an hour in nanoseconds. */
  const HALF_HOUR: int := 30 * 60 * 1_000_000_000

  predicate Idle(p: Pool, i: nat)
    requires i < |p.slots|
  {
    p.slots[i].id < p.max && p.slots[i].owner == None
  }

  predicate Occupied(p: Pool, i: nat)
    requires i < |p.slots|
  {
    p.slots[i].id < p.max && p.slots[i].owner != None
  }

  /** Held by a backup task, which a task of higher priority may displace. */
  predicate ForBackup(p: Pool, i: nat)
    requires i < |p.slots|
  {
    Occupied(p, i) && p.slots[i].priority == Backup
  }

  /** Occupied and silent for half an hour. */
  predicate Silent(p: Pool, now: int, i: nat)
    requires i < |p.slots|
  {
    Occupied(p, i) && p.slots[i].lastUpdatedAt != None && now - p.slots[i].lastUpdatedAt.value >= HALF_HOUR
  }

  function Empty(id: nat): Slot { Slot(id, Fixed, None, false, Normal, None, None) }

  /** The pool with one slot replaced. */
  predicate OnlySlot(p: Pool, q: Pool, i: nat, s: Slot)
    requires i < |p.slots|
  {
    q == Pool(p.max, p.slots[i := s], p.borrowed)
  }

  // ---------- matching positions ----------

  /** The positions that pass the test, in order. */
  function Positions(slots: seq<Slot>, w: Want): (ps: seq<nat>)
    ensures |ps| <= |slots| && forall k :: 0 <= k < |ps| ==> ps[k] < |slots|
  {
    if slots == [] then []
    else
      var n := |slots| - 1;
      Positions(slots[..n], w) + if Matches(w, slots[n]) then [n] else []
  }

  ghost predicate Ascends(ps: seq<nat>, n: nat) {
    && (forall k :: 0 <= k < |ps| ==> ps[k] < n)
    && forall j, k :: 0 <= j < k < |ps| ==> ps[j] < ps[k]
  }

  lemma {:induction false} PositionsMatch(slots: seq<Slot>, w: Want)
    ensures Ascends(Positions(slots, w), |slots|)
    ensures forall i :: 0 <= i < |slots| ==> (i in Positions(slots, w) <==> Matches(w, slots[i]))
  {
    if slots != [] {
      var n := |slots| - 1;
      var front, ps := slots[..n], Positions(slots[..n], w);
      PositionsMatch(front, w);
      forall i | 0 <= i < |slots|
        ensures i in Positions(slots, w) <==> Matches(w, slots[i])
      {
        if i < n { assert front[i] == slots[i] && (i in ps <==> Matches(w, front[i])); }
      }
    }
  }

  function IdsAt(slots: seq<Slot>, ps: seq<nat>): seq<nat>
    requires forall k :: 0 <= k < |ps| ==> ps[k] < |slots|
  {
    seq(|ps|, k requires 0 <= k < |ps| => slots[ps[k]].id)
  }

  function Holder(s: Slot): TaskId { if s.owner.Some? then s.owner.value else "" }

  /** Owners of the slots at these positions. */
  function HoldersAt(slots: seq<Slot>, ps: seq<nat>): seq<TaskId>
    requires forall k :: 0 <= k < |ps| ==> ps[k] < |slots|
  {
    seq(|ps|, k requires 0 <= k < |ps| => Holder(slots[ps[k]]))
  }

  lemma AtFront(slots: seq<Slot>, n: nat, ps: seq<nat>)
    requires n < |slots| && forall k :: 0 <= k < |ps| ==> ps[k] < n
    ensures IdsAt(slots, ps) == IdsAt(slots[..n], ps) && HoldersAt(slots, ps) == HoldersAt(slots[..n], ps)
    ensures IdsAt(slots, ps + [n]) == IdsAt(slots[..n], ps) + [slots[n].id]
    ensures HoldersAt(slots, ps + [n]) == HoldersAt(slots[..n], ps) + [Holder(slots[n])]
  {
  }

  lemma {:induction false} IdsAreAtPositions(slots: seq<Slot>, w: Want)
    ensures Ids(slots, w) == IdsAt(slots, Positions(slots, w))
  {
    if slots != [] {
      var n := |slots| - 1;
      IdsAreAtPositions(slots[..n], w);
      AtFront(slots, n, Positions(slots[..n], w));
      if !Matches(w, slots[n]) { assert Positions(slots, w) == Positions(slots[..n], w); }
    }
  }

  lemma {:induction false} OwnersAreAtPositions(slots: seq<Slot>, w: Want)
    requires forall i :: 0 <= i < |slots| && Matches(w, slots[i]) ==> slots[i].owner.Some?
    ensures Owners(slots, w) == HoldersAt(slots, Positions(slots, w))
  {
    if slots != [] {
      var n := |slots| - 1;
      OwnersAreAtPositions(slots[..n], w);
      AtFront(slots, n, Positions(slots[..n], w));
      if !Matches(w, slots[n]) { assert Positions(slots, w) == Positions(slots[..n], w); }
    }
  }

  // ---------- clean-up ----------

  /** A clean-up empties exactly the slots below the limit that have been silent for half an hour, reports
      their owners in list order, and drops the index entries of exactly these owners. */
  lemma CleanupFreesSilent(p: Pool, now: int) returns (ps: seq<nat>)
    requires Inv(p)
    ensures Ascends(ps, |p.slots|) && forall i :: 0 <= i < |p.slots| ==> (i in ps <==> Silent(p, now, i))
    ensures var e := Step(p, Cleanup, now);
            && |e.pool.slots| == |p.slots| && e.pool.max == p.max && e.granted == []
            && (forall i :: 0 <= i < |p.slots| ==>
                  e.pool.slots[i] == if Silent(p, now, i) then Empty(p.slots[i].id) else p.slots[i])
            && e.lost == HoldersAt(p.slots, ps)
            && forall f: TaskId :: e.pool.ListOf(f) == if f in e.lost then [] else p.ListOf(f)
  {
    ps := Positions(p.slots, Expired(p.max, now));
    SilentIs(p, now);
    CleanupEmpties(p, now);
    PositionsMatch(p.slots, Expired(p.max, now));
    OwnersAreAtPositions(p.slots, Expired(p.max, now));
    forall f: TaskId
      ensures CleanupIn(p, now).pool.ListOf(f) == if f in CleanupIn(p, now).lost then [] else p.ListOf(f)
    {
      CleanupLists(p, now, f);
    }
  }

  lemma SilentIs(p: Pool, now: int)
    ensures forall i :: 0 <= i < |p.slots| ==> (Matches(Expired(p.max, now), p.slots[i]) <==> Silent(p, now, i))
  {
  }

  lemma CleanupEmpties(p: Pool, now: int)
    ensures var q := Step(p, Cleanup, now).pool;
            && |q.slots| == |p.slots| && q.max == p.max
            && forall i :: 0 <= i < |p.slots| ==>
                 q.slots[i] == if Silent(p, now, i) then Empty(p.slots[i].id) else p.slots[i]
  {
    SilentIs(p, now);
  }

  /** In any reachable pool: right after a clean-up no occupied slot below the limit has been silent for half
      an hour. */
  lemma NothingSilentAfterCleanup(max: nat, es: seq<Event>, now: int, i: nat)
    requires i < |Step(Run(NewPool(max), es), Cleanup, now).pool.slots|
    ensures !Silent(Step(Run(NewPool(max), es), Cleanup, now).pool, now, i)
  {
    NewPoolInv(max);
    RunKeepsInv(NewPool(max), es);
    var _ := CleanupFreesSilent(Run(NewPool(max), es), now);
  }

  // ---------- resizing ----------

  /** This slot belongs in the list after a resize to `n`: it was there and stays, or its id was missing
      below the new limit.  Only a shrink drops slots: empty ones at or beyond the new limit. */
  ghost predicate BelongsAfter(p: Pool, n: nat, s: Slot) {
    || (s in p.slots && (n < p.max ==> s.id < n || s.owner != None))
    || (s == Empty(s.id) && s.id < n && forall i :: 0 <= i < |p.slots| ==> p.slots[i].id != s.id)
  }

  /** After a resize the limit is the one asked for, and the list is exactly the slots that belong there. */
  lemma ResizeMeans(p: Pool, n: nat, now: int)
    requires Inv(p)
    ensures var q := Step(p, Resize(n), now).pool;
            && q.max == n && q.borrowed == p.borrowed && Ascending(q.slots)
            && (forall s :: s in q.slots <==> BelongsAfter(p, n, s))
            && Count(q.slots, InUse(n)) + Count(q.slots, Free(n)) == n
  {
    var q := Step(p, Resize(n), now).pool;
    ResizeKeeps(p, n);
    CapacityIsConserved(q);
    if n > p.max { GrowIs(p, n); } else if n < p.max { RetainedIs(p.slots, n); }
    forall s
      ensures s in q.slots <==> BelongsAfter(p, n, s)
    {
      NotMissing(p, s.id);
    }
  }

  lemma NotMissing(p: Pool, id: nat)
    requires Inv(p)
    ensures id < p.max ==> exists i :: 0 <= i < |p.slots| && p.slots[i].id == id
    ensures HasId(p.slots, id) <==> exists i :: 0 <= i < |p.slots| && p.slots[i].id == id
  {
    if id < p.max { assert HasId(p.slots, id); }
  }

  /** A slot beyond the limit that was occupied at the shrink and released later stays in the list: a resize
      that does not shrink leaves it there. */
  lemma LeftoversStay(t: TaskId)
    ensures var es := [Event(AllocFixed(t, false), 0), Event(Resize(0), 0), Event(ReleaseFixed(t), 0),
                       Event(Resize(0), 0)];
            Run(NewPool(1), es) == Pool(0, [Empty(0)], map[])
  {
    var taken := Slot(0, Fixed, Some(t), false, Normal, Some(0), Some(0));
    var p1, p2, p3 := Pool(1, [taken], map[]), Pool(0, [taken], map[]), Pool(0, [Empty(0)], map[]);
    var give, shrink, back := Event(AllocFixed(t, false), 0), Event(Resize(0), 0), Event(ReleaseFixed(t), 0);
    assert NewPool(1).slots == [Empty(0)];
    IdleSlotIsGiven(NewPool(1), give.op, 0, 0);
    assert [Empty(0)][0 := taken] == [taken];
    KeptByShrink(taken);
    ReleaseFixedMeans(p2, t, 0, 0);
    assert [taken][0 := Empty(0)] == [Empty(0)];
    RunStep(p3, shrink, []);
    RunStep(p2, back, [shrink]);
    RunStep(p1, shrink, [back, shrink]);
    RunStep(NewPool(1), give, [shrink, back, shrink]);
  }

  lemma KeptByShrink(taken: Slot)
    requires taken.owner != None
    ensures ResizeIn(Pool(1, [taken], map[]), 0) == Pool(0, [taken], map[])
  {
    assert [taken][..0] == [];
    assert Retained([taken], 0) == Retained([], 0) + [taken];
  }

  lemma RunStep(p: Pool, e: Event, es: seq<Event>)
    ensures Run(p, [e] + es) == Run(Step(p, e.op, e.now).pool, es)
  {
    assert ([e] + es)[1..] == es;
  }

  // ---------- allocation ----------

  /** The slot a task holds after an allocation. */
  function Given(id: nat, task: TaskId, isFolder: bool, prio: Priority, now: int): Slot {
    Slot(id, Fixed, Some(task), isFolder, prio, Some(now), Some(now))
  }

  predicate FirstIdle(p: Pool, i: nat) {
    i < |p.slots| && Idle(p, i) && forall j :: 0 <= j < i ==> !Idle(p, j)
  }

  predicate FirstForBackup(p: Pool, i: nat) {
    i < |p.slots| && ForBackup(p, i) && forall j :: 0 <= j < i ==> !ForBackup(p, j)
  }

  predicate NoIdle(p: Pool) { forall j :: 0 <= j < |p.slots| ==> !Idle(p, j) }

  predicate NoBackup(p: Pool) { forall j :: 0 <= j < |p.slots| ==> !ForBackup(p, j) }

  /** Whether the operation may displace a backup task, and what it gives. */
  function Asks(op: Op): (bool, TaskId, bool, Priority)
    requires op.AllocFixed? || op.AllocPriority? || op.AllocBackup?
  {
    match op
    case AllocFixed(task, isFolder) => (false, task, isFolder, Normal)
    case AllocPriority(task, isFolder, prio) => (prio == Normal || prio == SubTask, task, isFolder, prio)
    case AllocBackup(task) => (false, task, false, Backup)
  }

  lemma TestsAre(p: Pool)
    ensures forall i :: 0 <= i < |p.slots| ==> (Matches(Free(p.max), p.slots[i]) <==> Idle(p, i))
    ensures forall i :: 0 <= i < |p.slots| ==> (Matches(Preemptable(p.max), p.slots[i]) <==> ForBackup(p, i))
  {
  }

  /** The first idle slot below the limit goes to the task; nothing else changes and nobody loses a slot. */
  lemma IdleSlotIsGiven(p: Pool, op: Op, now: int, i: nat)
    requires op.AllocFixed? || op.AllocPriority? || op.AllocBackup?
    requires FirstIdle(p, i)
    ensures var (_, task, isFolder, prio), e := Asks(op), Step(p, op, now);
            && OnlySlot(p, e.pool, i, Given(p.slots[i].id, task, isFolder, prio, now))
            && e.granted == [p.slots[i].id] && e.lost == []
  {
    TestsAre(p);
    FirstIs(p.slots, Free(p.max), i);
  }

  /** Without an idle slot, a normal task or subtask takes the first backup slot and its owner is reported. */
  lemma BackupSlotIsTaken(p: Pool, task: TaskId, isFolder: bool, prio: Priority, now: int, i: nat)
    requires NoIdle(p) && FirstForBackup(p, i) && prio != Backup
    ensures var e := Step(p, AllocPriority(task, isFolder, prio), now);
            && OnlySlot(p, e.pool, i, Given(p.slots[i].id, task, isFolder, prio, now))
            && e.granted == [p.slots[i].id] && e.lost == [p.slots[i].owner.value]
  {
    TestsAre(p);
    FirstIs(p.slots, Free(p.max), |p.slots|);
    FirstIs(p.slots, Preemptable(p.max), i);
  }

  /** Without an idle slot, and without a backup slot or the right to take one, nothing happens. */
  lemma NothingIsGiven(p: Pool, op: Op, now: int)
    requires op.AllocFixed? || op.AllocPriority? || op.AllocBackup?
    requires NoIdle(p) && (Asks(op).0 ==> NoBackup(p))
    ensures Step(p, op, now) == Effect(p, [], [])
  {
    TestsAre(p);
    FirstIs(p.slots, Free(p.max), |p.slots|);
    if Asks(op).0 { FirstIs(p.slots, Preemptable(p.max), |p.slots|); }
  }

  // ---------- borrowing ----------

  function Lent(id: nat, folder: TaskId, now: int): Slot {
    Slot(id, Borrowed, Some(folder), false, Normal, Some(now), Some(now))
  }

  ghost predicate AreIdle(p: Pool, ps: seq<nat>) {
    Ascends(ps, |p.slots|) && forall i :: 0 <= i < |p.slots| ==> (i in ps <==> Idle(p, i))
  }

  ghost predicate AreForBackup(p: Pool, ps: seq<nat>) {
    Ascends(ps, |p.slots|) && forall i :: 0 <= i < |p.slots| ==> (i in ps <==> ForBackup(p, i))
  }

  /** The slots at these positions were lent to the folder, nothing else changed, and the folder's list grew
      by them. */
  ghost predicate LentAt(p: Pool, e: Effect, folder: TaskId, now: int, ps: seq<nat>)
    requires forall k :: 0 <= k < |ps| ==> ps[k] < |p.slots|
  {
    && |e.pool.slots| == |p.slots| && e.pool.max == p.max && e.granted == IdsAt(p.slots, ps)
    && (forall i :: 0 <= i < |p.slots| ==>
          e.pool.slots[i] == if i in ps then Lent(p.slots[i].id, folder, now) else p.slots[i])
    && forall f: TaskId :: e.pool.ListOf(f) == p.ListOf(f) + if f == folder then e.granted else []
  }

  /** Position `i` is among the first `n` matching ones. */
  lemma {:induction false} ChosenAt(slots: seq<Slot>, w: Want, n: nat, i: nat)
    requires i < |slots|
    ensures Chosen(slots, w, n, i) <==> i in FirstOf(Positions(slots, w), n)
  {
    var last := |slots| - 1;
    var front, ps := slots[..last], Positions(slots[..last], w);
    OneMorePosition(ps, last, n);
    PositionsCount(front, w);
    if i < last {
      assert front[..i] == slots[..i];
      ChosenAt(front, w, n, i);
    } else {
      LastIsNew(ps, last, n);
    }
    if !Matches(w, slots[last]) { assert Positions(slots, w) == ps; }
  }

  lemma LastIsNew(ps: seq<nat>, last: nat, n: nat)
    requires forall k :: 0 <= k < |ps| ==> ps[k] < last
    ensures last !in FirstOf(ps, n)
  {
  }

  lemma PositionsCount(slots: seq<Slot>, w: Want)
    ensures |Positions(slots, w)| == Count(slots, w)
  {
    IdsAreAtPositions(slots, w);
  }

  /** At most `n` of the first elements. */
  function FirstOf<T>(s: seq<T>, n: nat): seq<T> { s[..Min(n, |s|)] }

  lemma OneMorePosition(ps: seq<nat>, last: nat, n: nat)
    requires forall k :: 0 <= k < |ps| ==> ps[k] < last
    ensures forall i :: i in FirstOf(ps + [last], n) <==> i in FirstOf(ps, n) || (i == last && |ps| < n)
  {
    if |ps| < n {
      assert FirstOf(ps + [last], n) == ps + [last] && FirstOf(ps, n) == ps;
    } else {
      assert FirstOf(ps + [last], n) == FirstOf(ps, n);
    }
  }

  lemma LentToChosen(p: Pool, e: Effect, folder: TaskId, now: int, ps: seq<nat>)
    requires |e.pool.slots| == |p.slots| && forall k :: 0 <= k < |ps| ==> ps[k] < |p.slots|
    requires forall i :: 0 <= i < |p.slots| ==>
      e.pool.slots[i] == if i in ps then p.slots[i].Taken(folder, Borrowed, false, Normal, now) else p.slots[i]
    requires e.granted == IdsAt(p.slots, ps) && e.pool == Lend(p, e.pool.slots, folder, e.granted)
    ensures LentAt(p, e, folder, now, ps)
  {
  }

  /** Borrowing from idle slots: the first `count` of them are lent, and nobody is displaced. */
  lemma BorrowIdleMeans(p: Pool, folder: TaskId, count: nat, now: int) returns (idle: seq<nat>)
    ensures AreIdle(p, idle)
    ensures var e := Step(p, BorrowIdle(folder, count), now);
            LentAt(p, e, folder, now, FirstOf(idle, count)) && e.lost == []
  {
    var w, e := Free(p.max), Step(p, BorrowIdle(folder, count), now);
    idle := Positions(p.slots, w);
    BorrowIdleGrants(p, folder, count, now);
    IdsAreAtPositions(p.slots, w);
    PositionsAre(p);
    FirstIds(p.slots, idle, count);
    forall i | 0 <= i < |p.slots|
      ensures Chosen(p.slots, w, count, i) <==> i in FirstOf(idle, count)
    {
      ChosenAt(p.slots, w, count, i);
    }
    LentToChosen(p, e, folder, now, FirstOf(idle, count));
  }

  lemma FirstIds(slots: seq<Slot>, ps: seq<nat>, n: nat)
    requires forall k :: 0 <= k < |ps| ==> ps[k] < |slots|
    ensures IdsAt(slots, FirstOf(ps, n)) == FirstOf(IdsAt(slots, ps), n)
    ensures HoldersAt(slots, FirstOf(ps, n)) == FirstOf(HoldersAt(slots, ps), n)
  {
  }

  lemma JoinedIds(slots: seq<Slot>, a: seq<nat>, b: seq<nat>)
    requires forall k :: 0 <= k < |a| ==> a[k] < |slots|
    requires forall k :: 0 <= k < |b| ==> b[k] < |slots|
    ensures IdsAt(slots, a + b) == IdsAt(slots, a) + IdsAt(slots, b)
  {
  }

  lemma GrantedParts(p: Pool, folder: TaskId, count: nat, now: int)
    ensures var e, given := BorrowIn(p, folder, count, now), FirstOf(Ids(p.slots, Free(p.max)), count);
            var rest := count - |given|;
            && e.granted == given + FirstOf(Ids(p.slots, Preemptable(p.max)), rest)
            && e.lost == FirstOf(Owners(p.slots, Preemptable(p.max)), rest)
  {
    BorrowGrants(p, folder, count, now);
  }

  lemma BorrowLends(p: Pool, folder: TaskId, count: nat, now: int)
    ensures var e := BorrowIn(p, folder, count, now); e.pool == Lend(p, e.pool.slots, folder, e.granted)
  {
  }

  lemma BorrowedIds(p: Pool, folder: TaskId, count: nat, now: int, given: seq<nat>, taken: seq<nat>)
    requires given == FirstOf(Positions(p.slots, Free(p.max)), count)
    requires taken == FirstOf(Positions(p.slots, Preemptable(p.max)), count - |given|)
    ensures var e := BorrowIn(p, folder, count, now);
            e.granted == IdsAt(p.slots, given + taken) && e.lost == HoldersAt(p.slots, taken)
  {
    GrantedParts(p, folder, count, now);
    IdsAreAtPositions(p.slots, Free(p.max));
    IdsAreAtPositions(p.slots, Preemptable(p.max));
    OwnersAreAtPositions(p.slots, Preemptable(p.max));
    FirstIds(p.slots, Positions(p.slots, Free(p.max)), count);
    FirstIds(p.slots, Positions(p.slots, Preemptable(p.max)), count - |given|);
    JoinedIds(p.slots, given, taken);
  }

  lemma PositionsAre(p: Pool)
    ensures AreIdle(p, Positions(p.slots, Free(p.max)))
    ensures AreForBackup(p, Positions(p.slots, Preemptable(p.max)))
  {
    TestsAre(p);
    PositionsMatch(p.slots, Free(p.max));
    PositionsMatch(p.slots, Preemptable(p.max));
  }

  /** Borrowing with preemption: first idle slots, then, when they do not suffice, backup slots, both in list
      order; exactly the owners of these backup slots are displaced. */
  lemma BorrowMeans(p: Pool, folder: TaskId, count: nat, now: int) returns (idle: seq<nat>, backup: seq<nat>)
    ensures AreIdle(p, idle) && AreForBackup(p, backup)
    ensures var e, taken := BorrowIn(p, folder, count, now), FirstOf(backup, count - |FirstOf(idle, count)|);
            LentAt(p, e, folder, now, FirstOf(idle, count) + taken) && e.lost == HoldersAt(p.slots, taken)
  {
    PositionsAre(p);
    idle, backup := Positions(p.slots, Free(p.max)), Positions(p.slots, Preemptable(p.max));
    BorrowLendsAt(p, folder, count, now, FirstOf(idle, count), FirstOf(backup, count - |FirstOf(idle, count)|));
  }

  lemma BorrowLendsAt(p: Pool, folder: TaskId, count: nat, now: int, given: seq<nat>, taken: seq<nat>)
    requires given == FirstOf(Positions(p.slots, Free(p.max)), count)
    requires taken == FirstOf(Positions(p.slots, Preemptable(p.max)), count - |given|)
    ensures LentAt(p, BorrowIn(p, folder, count, now), folder, now, given + taken)
    ensures BorrowIn(p, folder, count, now).lost == HoldersAt(p.slots, taken)
  {
    var e := BorrowIn(p, folder, count, now);
    BorrowedIds(p, folder, count, now, given, taken);
    BorrowLends(p, folder, count, now);
    BorrowedSlots(p, folder, count, now, given + taken);
    assert forall k :: 0 <= k < |given + taken| ==> (given + taken)[k] < |p.slots|;
    LentToChosen(p, e, folder, now, given + taken);
  }

  lemma BorrowedSlots(p: Pool, folder: TaskId, count: nat, now: int, ps: seq<nat>)
    requires var given := FirstOf(Positions(p.slots, Free(p.max)), count);
             ps == given + FirstOf(Positions(p.slots, Preemptable(p.max)), count - |given|)
    ensures var q := BorrowIn(p, folder, count, now).pool;
            && |q.slots| == |p.slots|
            && forall i :: 0 <= i < |p.slots| ==>
                 q.slots[i] == if i in ps then p.slots[i].Taken(folder, Borrowed, false, Normal, now) else p.slots[i]
  {
    forall i | 0 <= i < |p.slots|
      ensures var q := BorrowIn(p, folder, count, now).pool;
              && |q.slots| == |p.slots|
              && q.slots[i] == if i in ps then p.slots[i].Taken(folder, Borrowed, false, Normal, now) else p.slots[i]
    {
      LentSlotIs(p, folder, count, now, i);
    }
    if p.slots == [] { BorrowOfNothing(p, folder, count, now); }
  }

  lemma LentSlotIs(p: Pool, folder: TaskId, count: nat, now: int, i: nat)
    requires i < |p.slots|
    ensures var q, given := BorrowIn(p, folder, count, now).pool, FirstOf(Positions(p.slots, Free(p.max)), count);
            var taken := FirstOf(Positions(p.slots, Preemptable(p.max)), count - |given|);
            && |q.slots| == |p.slots|
            && q.slots[i] == if i in given + taken then p.slots[i].Taken(folder, Borrowed, false, Normal, now)
                             else p.slots[i]
  {
    var given := FirstOf(Positions(p.slots, Free(p.max)), count);
    BorrowChanges(p, folder, count, now, i);
    PositionsCount(p.slots, Free(p.max));
    ChosenAt(p.slots, Free(p.max), count, i);
    ChosenAt(p.slots, Preemptable(p.max), count - |given|, i);
  }

  lemma BorrowOfNothing(p: Pool, folder: TaskId, count: nat, now: int)
    requires p.slots == []
    ensures BorrowIn(p, folder, count, now).pool.slots == []
  {
  }

  // ---------- giving back, refreshing, counting ----------

  /** Giving back a borrowed slot: the slot with that id is emptied if the folder owns it, and the id leaves
      the folder's list in any case. */
  lemma ReleaseBorrowedMeans(p: Pool, folder: TaskId, id: nat, now: int)
    requires Inv(p)
    ensures var q := Step(p, ReleaseBorrowed(folder, id), now).pool;
            && q.max == p.max && |q.slots| == |p.slots|
            && (forall i :: 0 <= i < |p.slots| ==>
                  q.slots[i] == if p.slots[i].id == id && p.slots[i].owner == Some(folder) then Empty(id)
                                else p.slots[i])
            && (forall f: TaskId :: f != folder ==> q.ListOf(f) == p.ListOf(f))
            && (id !in p.ListOf(folder) ==> q.ListOf(folder) == p.ListOf(folder))
            && forall k :: 0 <= k < |p.ListOf(folder)| && p.ListOf(folder)[k] == id ==>
                 q.ListOf(folder) == p.ListOf(folder)[..k] + p.ListOf(folder)[k + 1..]
  {
    ReleaseBorrowedLists(p, folder, id);
    ReleaseBorrowedSlots(p, folder, id);
    var ids := p.ListOf(folder);
    if id !in ids { WithoutAbsent(ids, id); }
    forall k | 0 <= k < |ids| && ids[k] == id
      ensures Without(ids, id) == ids[..k] + ids[k + 1..]
    {
      assert Distinct(ids);
      WithoutOne(ids, id, k);
    }
  }

  lemma {:induction false} WithoutAbsent(ids: seq<nat>, id: nat)
    requires id !in ids
    ensures Without(ids, id) == ids
  {
    if ids != [] {
      var front := ids[..|ids| - 1];
      assert ids == front + [ids[|ids| - 1]];
      WithoutAbsent(front, id);
    }
  }

  lemma {:induction false} WithoutOne(ids: seq<nat>, id: nat, k: nat)
    requires Distinct(ids) && k < |ids| && ids[k] == id
    ensures Without(ids, id) == ids[..k] + ids[k + 1..]
  {
    var n := |ids| - 1;
    var front := ids[..n];
    if k < n {
      WithoutOne(front, id, k);
      assert front[..k] + front[k + 1..] + [ids[n]] == ids[..k] + ids[k + 1..];
    } else {
      WithoutAbsent(front, id);
    }
  }

  /** Giving back the fixed slot: the first one of the task is emptied, if there is one. */
  lemma ReleaseFixedMeans(p: Pool, task: TaskId, now: int, i: nat)
    requires i <= |p.slots|
    requires i < |p.slots| ==> p.slots[i].owner == Some(task) && p.slots[i].slotType == Fixed
    requires forall j :: 0 <= j < i ==> !(p.slots[j].owner == Some(task) && p.slots[j].slotType == Fixed)
    ensures var q := Step(p, ReleaseFixed(task), now).pool;
            if i < |p.slots| then OnlySlot(p, q, i, Empty(p.slots[i].id)) else q == p
  {
    FirstIs(p.slots, FixedOf(task), i);
  }

  /** Giving back everything: every slot of the task is emptied, whatever its kind, and its list goes. */
  lemma ReleaseAllMeans(p: Pool, task: TaskId, now: int)
    ensures var q := Step(p, ReleaseAll(task), now).pool;
            && q.max == p.max && |q.slots| == |p.slots|
            && (forall i :: 0 <= i < |p.slots| ==>
                  q.slots[i] == if p.slots[i].owner == Some(task) then Empty(p.slots[i].id) else p.slots[i])
            && forall f: TaskId :: q.ListOf(f) == if f == task then [] else p.ListOf(f)
  {
  }

  /** Refreshing stamps the first slot of the task, if it has one. */
  lemma TouchMeans(p: Pool, task: TaskId, now: int, i: nat)
    requires i <= |p.slots|
    requires i < |p.slots| ==> p.slots[i].owner == Some(task)
    requires forall j :: 0 <= j < i ==> p.slots[j].owner != Some(task)
    ensures var q := Step(p, Touch(task), now).pool;
            if i < |p.slots| then OnlySlot(p, q, i, p.slots[i].(lastUpdatedAt := Some(now))) else q == p
  {
    FirstIs(p.slots, OwnedBy(task), i);
  }

  /** A callback refreshes unless the last refresh is less than half a minute old or the task has no slot;
      only a refresh is remembered. */
  lemma BeatMeans(p: Pool, task: TaskId, lastTouch: int, now: int)
    ensures var q, last := BeatIn(p, task, lastTouch, now).0, BeatIn(p, task, lastTouch, now).1;
            var owns := exists i :: 0 <= i < |p.slots| && p.slots[i].owner == Some(task);
            if now - lastTouch >= 30 * 1_000_000_000 && owns
            then q == Step(p, Touch(task), now).pool && last == now
            else q == p && last == lastTouch
  {
    var i := First(p.slots, OwnedBy(task));
    if k :| 0 <= k < |p.slots| && p.slots[k].owner == Some(task) { assert Matches(OwnedBy(task), p.slots[k]); }
  }

  function Where(slots: seq<Slot>, w: Want): set<nat> { set i: nat | i < |slots| && Matches(w, slots[i]) }

  lemma WhereGrows(slots: seq<Slot>, w: Want)
    requires slots != []
    ensures var n := |slots| - 1;
            && Where(slots, w) == Where(slots[..n], w) + (if Matches(w, slots[n]) then {n} else {})
            && n !in Where(slots[..n], w)
  {
  }

  lemma {:induction false} CountIs(slots: seq<Slot>, w: Want)
    ensures Count(slots, w) == |Where(slots, w)|
  {
    if slots != [] {
      CountIs(slots[..|slots| - 1], w);
      WhereGrows(slots, w);
    }
  }

  /** The queries count: idle slots, occupied slots, and slots a normal folder could borrow, all below the
      limit. */
  lemma QueriesMean(p: Pool)
    ensures Count(p.slots, Free(p.max)) == |set i: nat | i < |p.slots| && Idle(p, i)|
    ensures Count(p.slots, InUse(p.max)) == |set i: nat | i < |p.slots| && Occupied(p, i)|
    ensures Count(p.slots, Borrowable(p.max)) == |set i: nat | i < |p.slots| && (Idle(p, i) || ForBackup(p, i))|
  {
    CountIs(p.slots, Free(p.max));
    CountIs(p.slots, InUse(p.max));
    CountIs(p.slots, Borrowable(p.max));
    assert Where(p.slots, Free(p.max)) == set i: nat | i < |p.slots| && Idle(p, i);
    assert Where(p.slots, InUse(p.max)) == set i: nat | i < |p.slots| && Occupied(p, i);
    assert Where(p.slots, Borrowable(p.max)) == set i: nat | i < |p.slots| && (Idle(p, i) || ForBackup(p, i));
  }

  /** A new pool: one empty slot for every id below the limit, in order, and no loans. */
  lemma NewPoolMeans(max: nat, f: TaskId)
    ensures var p := NewPool(max);
            && p.max == max == |p.slots| && p.ListOf(f) == []
            && forall i :: 0 <= i < max ==> p.slots[i] == Empty(i)
  {
  }
}
