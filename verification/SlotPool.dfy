/**
 The task slot pool as the object it is: a slot list and a folder index that the methods update in
 place.  Every method is proved to compute the operation of the same name in `SlotModel`, loop by loop.
 One method call is one atomic step; the clock is the argument `now`.
 */
module SlotPool {
  import opened Prelude
  import opened SlotModel

  class TaskSlotPool {
    var maxSlots: nat
    var slots: seq<Slot>
    var borrowedMap: map<TaskId, seq<nat>>

    /** The pool's whole state as a value. */
    function Model(): Pool
      reads this
    {
      Pool(maxSlots, slots, borrowedMap)
    }

    constructor (max: nat)
      ensures Model() == NewPool(max)
    {
      maxSlots := max;
      slots := seq(max, i requires 0 <= i => FreshSlot(i));
      borrowedMap := map[];
    }

    method Resize(newMax: nat)
      modifies this
      ensures Model() == ResizeIn(old(Model()), newMax)
    {
      var oldMax := maxSlots;
      if newMax == oldMax {
        return;
      }
      if newMax > oldMax {
        ghost var before := slots;
        var existing := slots;
        var i := oldMax;
        while i < newMax
          invariant oldMax <= i <= newMax
          invariant maxSlots == oldMax && borrowedMap == old(borrowedMap)
          invariant slots == before + Missing(before, oldMax, i)
        {
          if !HasId(existing, i) {
            slots := slots + [FreshSlot(i)];
          }
          i := i + 1;
        }
        slots := SortById(slots);
      } else {
        var kept := [];
        var i := 0;
        while i < |slots|
          invariant 0 <= i <= |slots|
          invariant kept == Retained(slots[..i], newMax)
        {
          assert slots[..i + 1][..i] == slots[..i];
          if slots[i].id < newMax || !slots[i].IsFree() {
            kept := kept + [slots[i]];
          }
          i := i + 1;
        }
        assert slots[..i] == slots;
        slots := kept;
      }
      maxSlots := newMax;
    }

    method AllocateFixedSlot(task: TaskId, isFolder: bool, now: int) returns (slot: Option<nat>)
      modifies this
      ensures Model() == AllocFixedIn(old(Model()), task, isFolder, now).pool
      ensures AllocFixedIn(old(Model()), task, isFolder, now).granted
           == if slot.Some? then [slot.value] else []
    {
      var i := FindFirst(Free(maxSlots));
      if i < |slots| {
        slots := slots[i := slots[i].Taken(task, Fixed, isFolder, Normal, now)];
        return Some(slots[i].id);
      }
      return None;
    }

    method AllocateFixedSlotWithPriority(task: TaskId, isFolder: bool, priority: Priority, now: int)
      returns (r: Option<(nat, Option<TaskId>)>)
      modifies this
      ensures Model() == AllocPriorityIn(old(Model()), task, isFolder, priority, now).pool
      ensures var e := AllocPriorityIn(old(Model()), task, isFolder, priority, now);
              && e.granted == (if r.Some? then [r.value.0] else [])
              && e.lost == (if r.Some? && r.value.1.Some? then [r.value.1.value] else [])
    {
      var i := FindFirst(Free(maxSlots));
      if i < |slots| {
        slots := slots[i := slots[i].Taken(task, Fixed, isFolder, priority, now)];
        return Some((slots[i].id, None));
      }
      if priority.CanPreempt(Backup) {
        var j := FindFirst(Preemptable(maxSlots));
        if j < |slots| {
          var preempted := slots[j].owner;
          slots := slots[j := slots[j].Taken(task, Fixed, isFolder, priority, now)];
          return Some((slots[j].id, preempted));
        }
      }
      return None;
    }

    method AllocateBackupSlot(task: TaskId, now: int) returns (slot: Option<nat>)
      modifies this
      ensures Model() == Step(old(Model()), AllocBackup(task), now).pool
      ensures Step(old(Model()), AllocBackup(task), now).granted
           == if slot.Some? then [slot.value] else []
    {
      var i := FindFirst(Free(maxSlots));
      if i < |slots| {
        slots := slots[i := slots[i].Taken(task, Fixed, false, Backup, now)];
        return Some(slots[i].id);
      }
      return None;
    }

    /** The scan all single-slot operations share: position of the first slot passing the test. */
    method FindFirst(w: Want) returns (i: nat)
      ensures i == First(slots, w)
    {
      i := 0;
      while i < |slots| && !Matches(w, slots[i])
        invariant 0 <= i <= |slots|
        invariant forall j :: 0 <= j < i ==> !Matches(w, slots[j])
      {
        i := i + 1;
      }
    }

    /** How many slots pass the test: `available_slots`, `used_slots`, `available_borrow_slots`. */
    method CountSlots(w: Want) returns (n: nat)
      ensures n == Count(slots, w)
    {
      n := 0;
      var i := 0;
      while i < |slots|
        invariant 0 <= i <= |slots|
        invariant n == Count(slots[..i], w)
      {
        assert slots[..i + 1][..i] == slots[..i];
        if Matches(w, slots[i]) {
          n := n + 1;
        }
        i := i + 1;
      }
      assert slots[..i] == slots;
    }

    /** The body of a borrowing loop: hand the slot at `i` to the folder if it passes the test. */
    method GrabSlot(i: nat, w: Want, folder: TaskId, now: int, soFar: seq<nat>, lostSoFar: seq<TaskId>,
                    ghost g: Grant, ghost before: seq<Slot>, ghost n: nat)
      returns (ids: seq<nat>, displaced: seq<TaskId>)
      requires i == |g.slots| < |before| && slots == g.slots + before[i..]
      requires soFar == g.ids && lostSoFar == g.displaced && |g.ids| < n
      modifies this`slots
      ensures var next := GrabOne(g, before[i], w, n, folder, now); ids == next.ids && displaced == next.displaced
      ensures slots == GrabOne(g, before[i], w, n, folder, now).slots + before[i + 1..]
    {
      ids, displaced := soFar, lostSoFar;
      assert slots[i] == before[i];
      SpliceOne(g.slots, before, i, before[i]);
      if Matches(w, slots[i]) {
        if slots[i].owner.Some? {
          displaced := displaced + [slots[i].owner.value];
        }
        ids := ids + [slots[i].id];
        SpliceOne(g.slots, before, i, slots[i].Taken(folder, Borrowed, false, Normal, now));
        slots := slots[i := slots[i].Taken(folder, Borrowed, false, Normal, now)];
      } else {
        assert slots == slots[i := before[i]];
      }
    }

    /** One pass of a borrowing loop, with its early exit. */
    method GrabPass(w: Want, n: nat, folder: TaskId, now: int)
      returns (ids: seq<nat>, displaced: seq<TaskId>)
      modifies this`slots
      ensures Grant(slots, ids, displaced) == Grab(old(slots), w, n, folder, now)
    {
      ghost var before := slots;
      ghost var g := Grant([], [], []);
      ids, displaced := [], [];
      var i := 0;
      while i < |slots|
        invariant 0 <= i <= |slots| == |before| && |g.slots| == i
        invariant g == Grab(before[..i], w, n, folder, now)
        invariant ids == g.ids && displaced == g.displaced
        invariant slots == g.slots + before[i..]
      {
        if |ids| >= n {
          GrabIsDone(before, i, w, n, folder, now);
          return;
        }
        GrabStep(before, i, w, n, folder, now);
        ids, displaced := GrabSlot(i, w, folder, now, ids, displaced, g, before, n);
        g := GrabOne(g, before[i], w, n, folder, now);
        i := i + 1;
      }
      assert before[..i] == before;
    }

    method AllocateBorrowedSlots(folder: TaskId, count: nat, now: int)
      returns (granted: seq<nat>, preempted: seq<TaskId>)
      modifies this
      ensures Effect(Model(), granted, preempted) == BorrowIn(old(Model()), folder, count, now)
    {
      granted, preempted := GrabPass(Free(maxSlots), count, folder, now);
      preempted := [];
      if |granted| < count {
        var more, displaced := GrabPass(Preemptable(maxSlots), count - |granted|, folder, now);
        granted := granted + more;
        preempted := displaced;
      }
      if granted != [] {
        borrowedMap := borrowedMap[folder := Model().ListOf(folder) + granted];
      }
    }

    method AllocateBorrowedSlotsNoPreempt(folder: TaskId, count: nat, now: int)
      returns (granted: seq<nat>)
      modifies this
      ensures Effect(Model(), granted, []) == BorrowIdleIn(old(Model()), folder, count, now)
    {
      var displaced;
      granted, displaced := GrabPass(Free(maxSlots), count, folder, now);
      if granted != [] {
        borrowedMap := borrowedMap[folder := Model().ListOf(folder) + granted];
      }
    }

    method ReleaseBorrowedSlot(folder: TaskId, slotId: nat)
      modifies this
      ensures Model() == ReleaseBorrowedIn(old(Model()), folder, slotId)
    {
      var i := FindFirst(WithId(slotId));
      if i < |slots| && slots[i].owner == Some(folder) {
        slots := slots[i := slots[i].Released()];
      }
      if folder in borrowedMap {
        var rest := Without(borrowedMap[folder], slotId);
        if rest == [] {
          borrowedMap := borrowedMap - {folder};
        } else {
          borrowedMap := borrowedMap[folder := rest];
        }
      }
    }

    method ReleaseFixedSlot(task: TaskId)
      modifies this
      ensures Model() == ReleaseFixedIn(old(Model()), task)
    {
      var i := FindFirst(FixedOf(task));
      if i < |slots| {
        slots := slots[i := slots[i].Released()];
      }
    }

    /** Releases every slot passing the test and reports the owners in list order. */
    method ReleasePass(w: Want) returns (released: seq<TaskId>)
      modifies this`slots
      ensures slots == ReleaseWhere(old(slots), w)
      ensures released == Owners(old(slots), w)
    {
      released := [];
      var i := 0;
      while i < |slots|
        invariant 0 <= i <= |slots| == |old(slots)|
        invariant forall j :: 0 <= j < |slots| ==>
          slots[j] == if j < i && Matches(w, old(slots)[j]) then old(slots)[j].Released() else old(slots)[j]
        invariant released == Owners(old(slots)[..i], w)
      {
        assert old(slots)[..i + 1][..i] == old(slots)[..i];
        if Matches(w, slots[i]) {
          if slots[i].owner.Some? {
            released := released + [slots[i].owner.value];
          }
          slots := slots[i := slots[i].Released()];
        }
        i := i + 1;
      }
      assert old(slots)[..i] == old(slots);
    }

    method ReleaseAllSlots(task: TaskId)
      modifies this
      ensures Model() == ReleaseAllIn(old(Model()), task)
    {
      var _ := ReleasePass(OwnedBy(task));
      borrowedMap := borrowedMap - {task};
    }

    method TouchSlot(task: TaskId, now: int) returns (found: bool)
      modifies this`slots
      ensures Model() == TouchIn(old(Model()), task, now)
      ensures found <==> First(old(slots), OwnedBy(task)) < |old(slots)|
    {
      var i := FindFirst(OwnedBy(task));
      found := i < |slots|;
      if found {
        slots := slots[i := slots[i].Touched(now)];
      }
    }

    method CleanupStaleSlots(now: int) returns (released: seq<TaskId>)
      modifies this
      ensures Effect(Model(), [], released) == CleanupIn(old(Model()), now)
    {
      released := ReleasePass(Expired(maxSlots, now));
      borrowedMap := borrowedMap - (set t | t in released);
    }
  }

  /** Refreshes a task's slot from its progress callback, at most every 30 seconds. */
  class SlotTouchThrottler {
    const pool: TaskSlotPool
    const task: TaskId
    var lastTouchTime: int

    constructor (pool: TaskSlotPool, task: TaskId, now: int)
      ensures this.pool == pool && this.task == task && lastTouchTime == now
    {
      this.pool := pool;
      this.task := task;
      lastTouchTime := now;
    }

    method TryTouch(now: int)
      modifies this, pool
      ensures (pool.Model(), lastTouchTime) == BeatIn(old(pool.Model()), task, old(lastTouchTime), now)
    {
      var shouldTouch := now - lastTouchTime >= TOUCH_INTERVAL;
      if shouldTouch {
        var found := pool.TouchSlot(task, now);
        if found {
          lastTouchTime := now;
        }
      }
    }
  }

  lemma SpliceOne(done: seq<Slot>, before: seq<Slot>, i: nat, s: Slot)
    requires |done| == i < |before|
    ensures (done + before[i..])[i := s] == (done + [s]) + before[i + 1..]
  {
  }

  lemma GrabStep(slots: seq<Slot>, i: nat, w: Want, n: nat, folder: TaskId, now: int)
    requires i < |slots|
    ensures Grab(slots[..i + 1], w, n, folder, now)
         == GrabOne(Grab(slots[..i], w, n, folder, now), slots[i], w, n, folder, now)
  {
    assert slots[..i + 1][..i] == slots[..i];
  }

  lemma GrabIsDone(slots: seq<Slot>, i: nat, w: Want, n: nat, folder: TaskId, now: int)
    requires i <= |slots|
    requires |Grab(slots[..i], w, n, folder, now).ids| >= n
    ensures Grab(slots, w, n, folder, now)
         == Grab(slots[..i], w, n, folder, now).(slots := Grab(slots[..i], w, n, folder, now).slots + slots[i..])
  {
    if i == |slots| {
      assert slots[..i] == slots && slots[i..] == [];
      var g := Grab(slots, w, n, folder, now);
      assert g.slots + [] == g.slots;
    } else {
      var front := slots[..|slots| - 1];
      assert front[..i] == slots[..i];
      GrabIsDone(front, i, w, n, folder, now);
      assert front[i..] + [slots[|slots| - 1]] == slots[i..];
      var g := Grab(slots[..i], w, n, folder, now);
      assert (g.slots + front[i..]) + [slots[|slots| - 1]] == g.slots + slots[i..];
    }
  }
}
