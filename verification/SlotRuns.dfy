/** Releases, clean-ups and resizes; then the theorems over whole runs of pool operations. */
module SlotRuns {
  import opened Prelude
  import opened SlotModel
  import opened SlotGrants
  import opened SlotInvariants

  // ---------- operations that only release ----------

  /** `q` is `p` with some slots released and no index entry added. */
  ghost predicate Drops(p: Pool, q: Pool) {
    && q.max == p.max
    && SameIds(p.slots, q.slots)
    && (forall i :: 0 <= i < |p.slots| ==>
          q.slots[i] == p.slots[i] || q.slots[i] == p.slots[i].Released())
    && (forall f: TaskId, id: nat :: id in q.ListOf(f) ==> id in p.ListOf(f))
    && (forall f: TaskId :: Distinct(q.ListOf(f)))
    && (forall f: TaskId :: f in q.borrowed ==> q.borrowed[f] != [])
  }

  /** No slot that is still listed was released. */
  ghost predicate ListedKept(p: Pool, q: Pool)
    requires SameIds(p.slots, q.slots)
  {
    forall i, f: TaskId :: 0 <= i < |p.slots| && p.slots[i].id in q.ListOf(f) && p.slots[i].owner == Some(f)
      ==> q.slots[i] == p.slots[i]
  }

  /** Every slot that is still lent is still listed. */
  ghost predicate LentListed(p: Pool, q: Pool)
    requires SameIds(p.slots, q.slots)
  {
    forall i, f: TaskId :: 0 <= i < |q.slots| && LentTo(q.slots[i], q.slots[i].id, f) && q.slots[i].id in p.ListOf(f)
      ==> q.slots[i].id in q.ListOf(f)
  }

  lemma DropKeeps(p: Pool, q: Pool)
    requires Inv(p) && Drops(p, q) && ListedKept(p, q)
    ensures Inv(q)
    ensures ExactIndex(p) && LentListed(p, q) ==> ExactIndex(q)
  {
    SameIdsKeepShape(p.slots, q.slots, p.max);
    forall f: TaskId, id: nat | id in q.ListOf(f)
      ensures BorrowedBy(q.slots, id, f)
    {
      assert BorrowedBy(p.slots, id, f);
      var i :| 0 <= i < |p.slots| && LentTo(p.slots[i], id, f);
      assert LentTo(q.slots[i], id, f);
    }
    if ExactIndex(p) && LentListed(p, q) {
      forall f: TaskId, id: nat | BorrowedBy(q.slots, id, f)
        ensures id in q.ListOf(f)
      {
        var i :| 0 <= i < |q.slots| && LentTo(q.slots[i], id, f);
        assert LentTo(p.slots[i], id, f);
        assert BorrowedBy(p.slots, id, f);
      }
    }
  }

  lemma {:induction false} WithoutDistinct(ids: seq<nat>, id: nat)
    requires Distinct(ids)
    ensures Distinct(Without(ids, id))
  {
    if ids != [] {
      var front := ids[..|ids| - 1];
      WithoutDistinct(front, id);
      assert ids[|ids| - 1] !in front;
    }
  }

  lemma ReleaseBorrowedKeeps(p: Pool, folder: TaskId, id: nat)
    requires Inv(p)
    ensures Inv(ReleaseBorrowedIn(p, folder, id))
    ensures ExactIndex(p) ==> ExactIndex(ReleaseBorrowedIn(p, folder, id))
  {
    var q := ReleaseBorrowedIn(p, folder, id);
    ReleaseBorrowedLists(p, folder, id);
    ReleaseBorrowedSlots(p, folder, id);
    DropKeeps(p, q);
  }

  /** The folder's list loses the id, every other list stays; lists stay duplicate-free and non-empty. */
  lemma ReleaseBorrowedLists(p: Pool, folder: TaskId, id: nat)
    requires SoundIndex(p)
    ensures var q := ReleaseBorrowedIn(p, folder, id);
            && (forall f: TaskId :: q.ListOf(f) == if f == folder then Without(p.ListOf(f), id) else p.ListOf(f))
            && (forall f: TaskId :: Distinct(q.ListOf(f)))
            && (forall f: TaskId :: f in q.borrowed ==> q.borrowed[f] != [])
  {
    var q := ReleaseBorrowedIn(p, folder, id);
    WithoutDistinct(p.ListOf(folder), id);
    forall f: TaskId
      ensures q.ListOf(f) == if f == folder then Without(p.ListOf(f), id) else p.ListOf(f)
      ensures f in q.borrowed ==> q.borrowed[f] != []
    {
    }
    forall f: TaskId
      ensures Distinct(q.ListOf(f))
    {
      assert Distinct(p.ListOf(f));
    }
  }

  /** Exactly the folder's slot with that id is released. */
  lemma ReleaseBorrowedSlots(p: Pool, folder: TaskId, id: nat)
    requires Ascending(p.slots)
    ensures var q := ReleaseBorrowedIn(p, folder, id);
            && |q.slots| == |p.slots|
            && forall i :: 0 <= i < |p.slots| ==>
                 q.slots[i] == if p.slots[i].id == id && p.slots[i].owner == Some(folder)
                               then p.slots[i].Released() else p.slots[i]
  {
    var k := First(p.slots, WithId(id));
    forall i | 0 <= i < |p.slots| && p.slots[i].id == id
      ensures i == k
    {
      assert Matches(WithId(id), p.slots[i]);
      UniqueId(p.slots, i, k);
    }
  }

  lemma ReleaseAllKeeps(p: Pool, task: TaskId)
    requires Inv(p)
    ensures Inv(ReleaseAllIn(p, task))
    ensures ExactIndex(p) ==> ExactIndex(ReleaseAllIn(p, task))
  {
    var q := ReleaseAllIn(p, task);
    forall f: TaskId
      ensures q.ListOf(f) == if f == task then [] else p.ListOf(f)
    {
    }
    assert forall f: TaskId :: Distinct(p.ListOf(f)) ==> Distinct(q.ListOf(f));
    DropKeeps(p, q);
  }

  lemma {:induction false} OwnersAre(slots: seq<Slot>, w: Want, t: TaskId)
    ensures t in Owners(slots, w) <==> exists i :: 0 <= i < |slots| && Matches(w, slots[i]) && slots[i].owner == Some(t)
  {
    if slots != [] {
      var front, n := slots[..|slots| - 1], |slots| - 1;
      OwnersAre(front, w, t);
      if t in Owners(front, w) {
        var i :| 0 <= i < |front| && Matches(w, front[i]) && front[i].owner == Some(t);
        assert Matches(w, slots[i]);
      }
      if i :| 0 <= i < |slots| && Matches(w, slots[i]) && slots[i].owner == Some(t) {
        if i < n { assert Matches(w, front[i]); }
      }
    }
  }

  /** Some slot of folder `f` has expired while a slot lent to `f` has not. */
  ghost predicate SplitsFolder(p: Pool, now: int, f: TaskId) {
    exists i, j :: 0 <= i < |p.slots| && 0 <= j < |p.slots| && ExpiredOf(p, now, i, f) && LiveLoanOf(p, now, j, f)
  }

  predicate ExpiredOf(p: Pool, now: int, i: nat, f: TaskId)
    requires i < |p.slots|
  {
    Matches(Expired(p.max, now), p.slots[i]) && p.slots[i].owner == Some(f)
  }

  predicate LiveLoanOf(p: Pool, now: int, j: nat, f: TaskId)
    requires j < |p.slots|
  {
    LentTo(p.slots[j], p.slots[j].id, f) && !Matches(Expired(p.max, now), p.slots[j])
  }

  /** A clean-up at `now` would release part of some folder's slots only. */
  ghost predicate PartialCleanup(p: Pool, now: int) {
    exists f :: SplitsFolder(p, now, f)
  }

  lemma CleanupLists(p: Pool, now: int, f: TaskId)
    ensures f in CleanupIn(p, now).lost <==> exists i :: 0 <= i < |p.slots| && ExpiredOf(p, now, i, f)
    ensures CleanupIn(p, now).pool.ListOf(f) == if f in CleanupIn(p, now).lost then [] else p.ListOf(f)
  {
    OwnersAre(p.slots, Expired(p.max, now), f);
    if f in CleanupIn(p, now).lost {
      var i :| 0 <= i < |p.slots| && Matches(Expired(p.max, now), p.slots[i]) && p.slots[i].owner == Some(f);
      assert ExpiredOf(p, now, i, f);
    }
  }

  lemma StillListed(p: Pool, now: int, i: nat, f: TaskId)
    requires i < |p.slots| && p.slots[i].owner == Some(f)
    requires p.slots[i].id in CleanupIn(p, now).pool.ListOf(f)
    ensures CleanupIn(p, now).pool.slots[i] == p.slots[i]
  {
    CleanupLists(p, now, f);
    assert Matches(Expired(p.max, now), p.slots[i]) ==> ExpiredOf(p, now, i, f);
  }

  /** A clean-up always keeps the index sound; it keeps it exact just when it splits no folder. */
  lemma CleanupKeeps(p: Pool, now: int)
    requires Inv(p)
    ensures Inv(CleanupIn(p, now).pool)
    ensures ExactIndex(p) ==> (ExactIndex(CleanupIn(p, now).pool) <==> !PartialCleanup(p, now))
  {
    var q := CleanupIn(p, now).pool;
    forall f: TaskId
      ensures f in CleanupIn(p, now).lost <==> exists i :: 0 <= i < |p.slots| && ExpiredOf(p, now, i, f)
      ensures q.ListOf(f) == if f in CleanupIn(p, now).lost then [] else p.ListOf(f)
    {
      CleanupLists(p, now, f);
    }
    forall i, f: TaskId | 0 <= i < |p.slots| && p.slots[i].id in q.ListOf(f) && p.slots[i].owner == Some(f)
      ensures q.slots[i] == p.slots[i]
    {
      StillListed(p, now, i, f);
    }
    DropKeeps(p, q);
    if ExactIndex(p) {
      if !PartialCleanup(p, now) {
        WholeFoldersStayListed(p, now);
      } else {
        SplitFolderIsForgotten(p, now);
      }
    }
  }

  lemma WholeFoldersStayListed(p: Pool, now: int)
    requires !PartialCleanup(p, now)
    ensures LentListed(p, CleanupIn(p, now).pool)
  {
    var q := CleanupIn(p, now).pool;
    forall j, f: TaskId | 0 <= j < |q.slots| && LentTo(q.slots[j], q.slots[j].id, f) && q.slots[j].id in p.ListOf(f)
      ensures q.slots[j].id in q.ListOf(f)
    {
      CleanupLists(p, now, f);
      assert LiveLoanOf(p, now, j, f);
      if i :| 0 <= i < |p.slots| && ExpiredOf(p, now, i, f) {
        assert SplitsFolder(p, now, f);
      }
    }
  }

  lemma SplitFolderIsForgotten(p: Pool, now: int)
    requires PartialCleanup(p, now)
    ensures !ExactIndex(CleanupIn(p, now).pool)
  {
    var q := CleanupIn(p, now).pool;
    var f :| SplitsFolder(p, now, f);
    var i, j :| 0 <= i < |p.slots| && 0 <= j < |p.slots| && ExpiredOf(p, now, i, f) && LiveLoanOf(p, now, j, f);
    CleanupLists(p, now, f);
    assert LentTo(q.slots[j], q.slots[j].id, f);
    assert BorrowedBy(q.slots, q.slots[j].id, f);
  }

  // ---------- resizing ----------

  lemma {:induction false} RetainedIs(slots: seq<Slot>, max: nat)
    requires Ascending(slots)
    ensures Ascending(Retained(slots, max))
    ensures forall s :: s in Retained(slots, max) <==> s in slots && (s.id < max || !s.IsFree())
  {
    if slots != [] {
      var front, last := slots[..|slots| - 1], slots[|slots| - 1];
      RetainedIs(front, max);
      assert slots == front + [last];
      assert forall s :: s in front ==> s.id < last.id;
    }
  }

  lemma {:induction false} InsertIs(x: Slot, s: seq<Slot>)
    requires Ascending(s)
    requires forall y :: y in s ==> y.id != x.id
    ensures Ascending(InsertById(x, s))
    ensures forall y :: y in InsertById(x, s) <==> y == x || y in s
  {
    if s != [] && x.id >= s[0].id {
      var rest := s[1..];
      InsertIs(x, rest);
      assert forall y :: y in s <==> y == s[0] || y in rest;
      assert forall y :: y in InsertById(x, rest) ==> s[0].id < y.id;
    }
  }

  ghost predicate UniqueIds(s: seq<Slot>) {
    forall i, j :: 0 <= i < j < |s| ==> s[i].id != s[j].id
  }

  lemma {:induction false} SortIs(s: seq<Slot>)
    requires UniqueIds(s)
    ensures Ascending(SortById(s))
    ensures forall y :: y in SortById(s) <==> y in s
  {
    if s != [] {
      var front, last := s[..|s| - 1], s[|s| - 1];
      SortIs(front);
      assert s == front + [last];
      InsertIs(last, SortById(front));
    }
  }

  lemma {:induction false} MissingIs(slots: seq<Slot>, lo: nat, hi: nat)
    ensures UniqueIds(Missing(slots, lo, hi))
    ensures forall s :: s in Missing(slots, lo, hi) <==>
      s == FreshSlot(s.id) && lo <= s.id < hi && !HasId(slots, s.id)
    decreases hi - lo
  {
    if lo < hi {
      MissingIs(slots, lo, hi - 1);
    }
  }

  /** Growing keeps every slot and adds a free one for each id that was missing, and nothing else. */
  lemma GrowIs(p: Pool, max: nat)
    requires Inv(p) && max > p.max
    ensures Ascending(ResizeIn(p, max).slots)
    ensures forall s :: s in ResizeIn(p, max).slots <==>
      s in p.slots || (s == FreshSlot(s.id) && p.max <= s.id < max && !HasId(p.slots, s.id))
  {
    var extra := Missing(p.slots, p.max, max);
    MissingIs(p.slots, p.max, max);
    forall i, j | 0 <= i < j < |p.slots + extra|
      ensures (p.slots + extra)[i].id != (p.slots + extra)[j].id
    {
      if i < |p.slots| <= j {
        assert extra[j - |p.slots|] in extra;
        assert !HasId(p.slots, extra[j - |p.slots|].id);
      }
    }
    SortIs(p.slots + extra);
  }

  /** No resize changes, adds or removes an occupied slot; what it adds is free. */
  lemma ResizeKeepsOccupied(p: Pool, max: nat)
    requires Inv(p)
    ensures Ascending(ResizeIn(p, max).slots)
    ensures forall s: Slot :: !s.IsFree() ==> (s in ResizeIn(p, max).slots <==> s in p.slots)
    ensures forall s :: s in ResizeIn(p, max).slots ==> s in p.slots || s == FreshSlot(s.id)
    ensures forall s :: s in p.slots && s.id < max ==> s in ResizeIn(p, max).slots
  {
    if max > p.max {
      GrowIs(p, max);
    } else if max < p.max {
      RetainedIs(p.slots, max);
    }
  }

  lemma LentIsOccupied(p: Pool, q: Pool, id: nat, f: TaskId)
    requires forall s: Slot :: !s.IsFree() && s in p.slots ==> s in q.slots
    requires BorrowedBy(p.slots, id, f)
    ensures BorrowedBy(q.slots, id, f)
  {
    var i :| 0 <= i < |p.slots| && LentTo(p.slots[i], id, f);
    assert p.slots[i] in q.slots;
    var j :| 0 <= j < |q.slots| && q.slots[j] == p.slots[i];
    assert LentTo(q.slots[j], id, f);
  }

  lemma ResizeKeeps(p: Pool, max: nat)
    requires Inv(p)
    ensures Inv(ResizeIn(p, max))
    ensures ExactIndex(p) ==> ExactIndex(ResizeIn(p, max))
  {
    var q := ResizeIn(p, max);
    ResizeKeepsOccupied(p, max);
    forall id: nat | id < max
      ensures HasId(q.slots, id)
    {
      ResizeHasId(p, max, id);
    }
    forall i | 0 <= i < |q.slots|
      ensures SlotOk(q.slots[i])
    {
      assert q.slots[i] in q.slots;
    }
    forall f: TaskId, id: nat
      ensures BorrowedBy(p.slots, id, f) <==> BorrowedBy(q.slots, id, f)
    {
      if BorrowedBy(p.slots, id, f) { LentIsOccupied(p, q, id, f); }
      if BorrowedBy(q.slots, id, f) { LentIsOccupied(q, p, id, f); }
    }
    assert q.borrowed == p.borrowed;
    forall f: TaskId
      ensures q.ListOf(f) == p.ListOf(f)
    {
    }
  }

  lemma ResizeHasId(p: Pool, max: nat, id: nat)
    requires Inv(p) && id < max
    ensures HasId(ResizeIn(p, max).slots, id)
  {
    var q := ResizeIn(p, max);
    ResizeKeepsOccupied(p, max);
    if HasId(p.slots, id) {
      var i :| 0 <= i < |p.slots| && p.slots[i].id == id;
      assert p.slots[i] in p.slots && p.slots[i] in q.slots;
      var j :| 0 <= j < |q.slots| && q.slots[j] == p.slots[i];
      assert q.slots[j].id == id;
    } else {
      assert id >= p.max;
      GrowIs(p, max);
      assert FreshSlot(id) in q.slots;
      var j :| 0 <= j < |q.slots| && q.slots[j] == FreshSlot(id);
      assert q.slots[j].id == id;
    }
  }

  // ---------- whole runs ----------

  lemma NewPoolInv(max: nat)
    ensures Inv(NewPool(max)) && ExactIndex(NewPool(max))
  {
    var p := NewPool(max);
    forall id: nat | id < max
      ensures HasId(p.slots, id)
    {
      assert p.slots[id].id == id;
    }
  }

  /** This operation, performed now, leaves part of a folder's loans out of the index. */
  ghost predicate Forgets(p: Pool, e: Event) {
    e.op.Cleanup? && PartialCleanup(p, e.now)
  }

  lemma AllocationKeeps(p: Pool, e: Event)
    requires Inv(p)
    requires e.op.AllocFixed? || e.op.AllocPriority? || e.op.AllocBackup? || e.op.Borrow? || e.op.BorrowIdle?
    ensures Inv(Step(p, e.op, e.now).pool)
    ensures ExactIndex(p) ==> ExactIndex(Step(p, e.op, e.now).pool)
  {
    var q := Step(p, e.op, e.now);
    match e.op
    case AllocFixed(task, isFolder) => KeepLoans(p, q.pool);
    case AllocPriority(task, isFolder, prio) => AllocKeeps(p, task, isFolder, prio, e.now);
    case AllocBackup(task) => AllocKeeps(p, task, false, Backup, e.now);
    case Borrow(folder, count) =>
      GrantLends(p, folder, count, e.now);
      LendingKeeps(p, q.pool, folder, e.now, q.granted);
    case BorrowIdle(folder, count) =>
      IdleGrantLends(p, folder, count, e.now);
      LendingKeeps(p, q.pool, folder, e.now, q.granted);
  }

  lemma StepKeeps(p: Pool, e: Event)
    requires Inv(p)
    ensures Inv(Step(p, e.op, e.now).pool)
    ensures ExactIndex(p) ==> (ExactIndex(Step(p, e.op, e.now).pool) <==> !Forgets(p, e))
  {
    match e.op
    case Cleanup => CleanupKeeps(p, e.now);
    case ReleaseBorrowed(_, _) => ReleaseKeeps(p, e);
    case ReleaseFixed(_) => ReleaseKeeps(p, e);
    case ReleaseAll(_) => ReleaseKeeps(p, e);
    case Touch(task) => TouchKeeps(p, task, e.now);
    case Resize(max) => ResizeKeeps(p, max);
    case _ => AllocationKeeps(p, e);
  }

  lemma ReleaseKeeps(p: Pool, e: Event)
    requires Inv(p) && (e.op.ReleaseBorrowed? || e.op.ReleaseFixed? || e.op.ReleaseAll?)
    ensures Inv(Step(p, e.op, e.now).pool)
    ensures ExactIndex(p) ==> ExactIndex(Step(p, e.op, e.now).pool)
  {
    match e.op
    case ReleaseBorrowed(folder, id) => ReleaseBorrowedKeeps(p, folder, id);
    case ReleaseFixed(task) => FixedReleaseKeeps(p, task);
    case ReleaseAll(task) => ReleaseAllKeeps(p, task);
  }

  /** The index is exact in the first and in every later state of the run. */
  ghost predicate AlwaysExact(p: Pool, es: seq<Event>)
    decreases |es|
  {
    ExactIndex(p) && (es != [] ==> AlwaysExact(Step(p, es[0].op, es[0].now).pool, es[1..]))
  }

  /** No clean-up of the run splits a folder. */
  ghost predicate NeverForgets(p: Pool, es: seq<Event>)
    decreases |es|
  {
    es != [] ==> !Forgets(p, es[0]) && NeverForgets(Step(p, es[0].op, es[0].now).pool, es[1..])
  }

  /** Every reachable state satisfies the invariant. */
  lemma {:induction false} RunKeepsInv(p: Pool, es: seq<Event>)
    requires Inv(p)
    ensures Inv(Run(p, es))
    decreases |es|
  {
    if es != [] {
      StepKeeps(p, es[0]);
      RunKeepsInv(Step(p, es[0].op, es[0].now).pool, es[1..]);
    }
  }

  lemma {:induction false} ExactUnlessForgotten(p: Pool, es: seq<Event>)
    requires Inv(p) && ExactIndex(p)
    ensures AlwaysExact(p, es) <==> NeverForgets(p, es)
    decreases |es|
  {
    if es != [] {
      var q := Step(p, es[0].op, es[0].now).pool;
      StepKeeps(p, es[0]);
      if !Forgets(p, es[0]) {
        ExactUnlessForgotten(q, es[1..]);
      }
    }
  }

  /** The slots below the limit sit at the positions their ids name. */
  ghost predicate Numbered(p: Pool) {
    p.max <= |p.slots| && forall i :: 0 <= i < p.max ==> p.slots[i].id == i
  }

  lemma SlotsAreNumbered(p: Pool)
    requires Inv(p)
    ensures Numbered(p)
  {
    if p.max > 0 { PrefixIds(p.slots, p.max, p.max - 1); }
    forall i | 0 <= i < p.max
      ensures p.slots[i].id == i
    {
      PrefixIds(p.slots, p.max, i);
    }
  }

  /** From a new pool, over any run: ids ascending and complete below the limit, capacity conserved,
      index sound. */
  lemma ReachablePool(max: nat, es: seq<Event>)
    ensures var p := Run(NewPool(max), es);
            && Inv(p)
            && Count(p.slots, InUse(p.max)) + Count(p.slots, Free(p.max)) == p.max
            && Numbered(p)
  {
    NewPoolInv(max);
    RunKeepsInv(NewPool(max), es);
    var p := Run(NewPool(max), es);
    CapacityIsConserved(p);
    SlotsAreNumbered(p);
  }

  /** From a new pool, the folder index is exact throughout a run just when no clean-up of the run
      released only part of a folder's slots. */
  lemma ReachableIndexIsExact(max: nat, es: seq<Event>)
    ensures AlwaysExact(NewPool(max), es) <==> NeverForgets(NewPool(max), es)
  {
    NewPoolInv(max);
    ExactUnlessForgotten(NewPool(max), es);
  }

  /** The pool of two slots after one folder has borrowed both. */
  lemma TwoLoans(f: TaskId)
    ensures Step(NewPool(2), Borrow(f, 2), 0)
         == Effect(Pool(2, [FreshSlot(0).Taken(f, Borrowed, false, Normal, 0),
                            FreshSlot(1).Taken(f, Borrowed, false, Normal, 0)], map[f := [0, 1]]), [0, 1], [])
  {
    var slots := NewPool(2).slots;
    assert slots == [FreshSlot(0), FreshSlot(1)];
    assert slots[..1] == [FreshSlot(0)] && slots[..1][..0] == [];
    var first := FreshSlot(0).Taken(f, Borrowed, false, Normal, 0);
    var second := FreshSlot(1).Taken(f, Borrowed, false, Normal, 0);
    assert Grab([], Free(2), 2, f, 0) == Grant([], [], []);
    assert Grab(slots[..1], Free(2), 2, f, 0) == Grant([first], [0], []);
    assert Grab(slots, Free(2), 2, f, 0) == Grant([first, second], [0, 1], []);
    var ids: seq<nat> := [0, 1];
    assert NewPool(2).ListOf(f) + ids == ids;
  }

  /** It does happen: after one callback, a clean-up half an hour after the loan takes back the second
      slot only, and the first stays out of the index. */
  lemma CleanupCanForget(f: TaskId)
    ensures var es := [Event(Borrow(f, 2), 0), Event(Touch(f), STALE_RELEASE_THRESHOLD - 1)];
            && Forgets(Run(NewPool(2), es), Event(Cleanup, STALE_RELEASE_THRESHOLD))
            && !NeverForgets(NewPool(2), es + [Event(Cleanup, STALE_RELEASE_THRESHOLD)])
            && !AlwaysExact(NewPool(2), es + [Event(Cleanup, STALE_RELEASE_THRESHOLD)])
  {
    TwoLoans(f);
    var lend, beat := Event(Borrow(f, 2), 0), Event(Touch(f), STALE_RELEASE_THRESHOLD - 1);
    var reap := Event(Cleanup, STALE_RELEASE_THRESHOLD);
    var p1 := Step(NewPool(2), lend.op, 0).pool;
    var p2 := Step(p1, beat.op, beat.now).pool;
    assert Matches(OwnedBy(f), p1.slots[0]);
    assert p2.slots == [p1.slots[0].Touched(beat.now), p1.slots[1]];
    assert ExpiredOf(p2, reap.now, 1, f) && LiveLoanOf(p2, reap.now, 0, f);
    assert SplitsFolder(p2, reap.now, f);
    assert [lend, beat][1..] == [beat] && [beat][1..] == [];
    assert Run(p1, [beat]) == p2;
    var es := [lend, beat] + [reap];
    assert es[1..] == [beat, reap] && [beat, reap][1..] == [reap];
    assert !NeverForgets(p2, [reap]);
    assert !NeverForgets(p1, [beat, reap]);
    ReachableIndexIsExact(2, es);
  }

  // ---------- nobody loses a slot to an allocation ----------

  /** `b` is the same tenancy as `a`; only the time of the last update may differ. */
  predicate SameTenancy(a: Slot, b: Slot) {
    b.(lastUpdatedAt := a.lastUpdatedAt) == a
  }

  ghost predicate Holds(p: Pool, a: Slot) {
    exists j :: 0 <= j < |p.slots| && SameTenancy(a, p.slots[j])
  }

  /** The event may end the tenancy of `a`: its owner releases it, or it has expired at a clean-up. */
  predicate Evicts(p: Pool, e: Event, a: Slot) {
    match e.op
    case ReleaseBorrowed(folder, id) => a.owner == Some(folder) && a.id == id
    case ReleaseFixed(task) => a.owner == Some(task) && a.slotType == Fixed
    case ReleaseAll(task) => a.owner == Some(task)
    case Cleanup => a.id < p.max && a.IsStale(e.now)
    case _ => false
  }

  lemma {:induction false} TenancyThroughAlloc(p: Pool, e: Event, i: nat)
    requires Inv(p) && i < |p.slots| && !p.slots[i].IsFree() && !p.slots[i].IsPreemptable()
    requires e.op.AllocFixed? || e.op.AllocPriority? || e.op.AllocBackup? || e.op.Borrow? || e.op.BorrowIdle?
    ensures |Step(p, e.op, e.now).pool.slots| == |p.slots|
    ensures Step(p, e.op, e.now).pool.slots[i] == p.slots[i]
  {
    if e.op.Borrow? {
      BorrowChanges(p, e.op.folder, e.op.count, e.now, i);
    } else if e.op.BorrowIdle? {
      BorrowIdleGrants(p, e.op.folder, e.op.count, e.now);
    }
  }

  lemma TenancyThroughRelease(p: Pool, e: Event, i: nat)
    requires Inv(p) && i < |p.slots| && !p.slots[i].IsFree()
    requires !Evicts(p, e, p.slots[i])
    requires e.op.ReleaseBorrowed? || e.op.ReleaseFixed? || e.op.ReleaseAll? || e.op.Touch? || e.op.Cleanup?
    ensures |Step(p, e.op, e.now).pool.slots| == |p.slots|
    ensures SameTenancy(p.slots[i], Step(p, e.op, e.now).pool.slots[i])
  {
  }

  /** An occupied slot that is not a backup slot survives every event that does not evict it. */
  lemma TenancyThroughStep(p: Pool, e: Event, i: nat)
    requires Inv(p) && i < |p.slots| && !p.slots[i].IsFree() && !p.slots[i].IsPreemptable()
    requires !Evicts(p, e, p.slots[i])
    ensures Holds(Step(p, e.op, e.now).pool, p.slots[i])
  {
    var q := Step(p, e.op, e.now).pool;
    if e.op.Resize? {
      ResizeKeepsOccupied(p, e.op.max);
      assert p.slots[i] in p.slots && p.slots[i] in q.slots;
      var j :| 0 <= j < |q.slots| && q.slots[j] == p.slots[i];
      assert SameTenancy(p.slots[i], q.slots[j]);
    } else {
      if e.op.ReleaseBorrowed? || e.op.ReleaseFixed? || e.op.ReleaseAll? || e.op.Touch? || e.op.Cleanup? {
        TenancyThroughRelease(p, e, i);
      } else {
        TenancyThroughAlloc(p, e, i);
      }
      assert SameTenancy(p.slots[i], q.slots[i]);
    }
  }

  /** No event of the run evicts the tenancy that slot `a` stands for. */
  ghost predicate NeverEvicted(p: Pool, es: seq<Event>, a: Slot)
    decreases |es|
  {
    es != [] ==>
      && (forall i :: 0 <= i < |p.slots| && SameTenancy(a, p.slots[i]) ==> !Evicts(p, es[0], p.slots[i]))
      && NeverEvicted(Step(p, es[0].op, es[0].now).pool, es[1..], a)
  }

  /** Over whole runs: whatever other tasks allocate, borrow, preempt or resize, a task keeps every
      non-backup slot it occupies until it releases it or a clean-up finds it expired. */
  lemma {:induction false} TenancyThroughRun(p: Pool, es: seq<Event>, a: Slot)
    requires Inv(p) && !a.IsFree() && !a.IsPreemptable() && Holds(p, a)
    requires NeverEvicted(p, es, a)
    ensures Holds(Run(p, es), a)
    decreases |es|
  {
    if es != [] {
      var i :| 0 <= i < |p.slots| && SameTenancy(a, p.slots[i]);
      var q := Step(p, es[0].op, es[0].now).pool;
      TenancyThroughStep(p, es[0], i);
      var j :| 0 <= j < |q.slots| && SameTenancy(p.slots[i], q.slots[j]);
      assert SameTenancy(a, q.slots[j]);
      StepKeeps(p, es[0]);
      TenancyThroughRun(q, es[1..], a);
    }
  }

  // ---------- what one call undoes ----------

  /** Releasing everything undoes borrowing from idle slots: the pool is exactly as before. */
  lemma ReleaseUndoesBorrow(p: Pool, folder: TaskId, count: nat, now: int)
    requires Inv(p) && folder !in p.borrowed
    requires forall i :: 0 <= i < |p.slots| ==> p.slots[i].owner != Some(folder)
    ensures ReleaseAllIn(BorrowIdleIn(p, folder, count, now).pool, folder) == p
  {
    var q := BorrowIdleIn(p, folder, count, now).pool;
    BorrowIdleGrants(p, folder, count, now);
    var r := ReleaseAllIn(q, folder);
    forall i | 0 <= i < |p.slots|
      ensures r.slots[i] == p.slots[i]
    {
      assert SlotOk(p.slots[i]);
    }
    assert r.slots == p.slots;
    assert r.borrowed == p.borrowed;
  }

  /** Releasing the fixed slot undoes an allocation that displaced nobody. */
  lemma ReleaseUndoesAllocation(p: Pool, task: TaskId, isFolder: bool, prio: Priority, now: int)
    requires Inv(p)
    requires forall i :: 0 <= i < |p.slots| ==> p.slots[i].owner != Some(task)
    ensures var e := AllocPriorityIn(p, task, isFolder, prio, now);
            e.lost == [] ==> ReleaseFixedIn(e.pool, task) == p
  {
    var e := AllocPriorityIn(p, task, isFolder, prio, now);
    var i := First(p.slots, Free(p.max));
    if i < |p.slots| {
      assert SlotOk(p.slots[i]);
      assert Matches(FixedOf(task), e.pool.slots[i]);
      assert forall j :: 0 <= j < |p.slots| && j != i ==> !Matches(FixedOf(task), e.pool.slots[j]);
      assert ReleaseFixedIn(e.pool, task).slots == p.slots;
    }
  }
}
