/** What the allocation passes hand out, stated on the slot list as it was before the call. */
module SlotGrants {
  import opened Prelude
  import opened SlotModel

  /** The slot at position `i` is among the first `n` that pass the test. */
  predicate Chosen(slots: seq<Slot>, w: Want, n: int, i: nat)
    requires i < |slots|
  {
    Matches(w, slots[i]) && Count(slots[..i], w) < n
  }

  lemma FirstIs(slots: seq<Slot>, w: Want, i: nat)
    requires i <= |slots| && (i < |slots| ==> Matches(w, slots[i]))
    requires forall j :: 0 <= j < i ==> !Matches(w, slots[j])
    ensures First(slots, w) == i
  {
  }

  lemma {:induction false} PassGrants(slots: seq<Slot>, w: Want, n: nat, folder: TaskId, now: int)
    ensures Grab(slots, w, n, folder, now).ids == Ids(slots, w)[..Min(n, |Ids(slots, w)|)]
  {
    if slots != [] {
      PassGrants(slots[..|slots| - 1], w, n, folder, now);
    }
  }

  lemma {:induction false} PassDisplaces(slots: seq<Slot>, w: Want, n: nat, folder: TaskId, now: int)
    requires w.Preemptable?
    ensures |Owners(slots, w)| == Count(slots, w)
    ensures Grab(slots, w, n, folder, now).displaced == Owners(slots, w)[..Min(n, Count(slots, w))]
  {
    if slots != [] {
      PassDisplaces(slots[..|slots| - 1], w, n, folder, now);
      PassGrants(slots[..|slots| - 1], w, n, folder, now);
    }
  }

  lemma {:induction false} PassChanges(slots: seq<Slot>, w: Want, n: nat, folder: TaskId, now: int)
    ensures forall i :: 0 <= i < |slots| ==>
      Grab(slots, w, n, folder, now).slots[i]
      == if Chosen(slots, w, n, i) then slots[i].Taken(folder, Borrowed, false, Normal, now) else slots[i]
  {
    if slots != [] {
      var front := slots[..|slots| - 1];
      PassChanges(front, w, n, folder, now);
      PassGrants(front, w, n, folder, now);
      forall i | 0 <= i < |front|
        ensures Chosen(front, w, n, i) == Chosen(slots, w, n, i)
      {
        assert front[..i] == slots[..i];
      }
    }
  }

  /** The lists depend only on which slots match and on their ids and owners. */
  lemma {:induction false} SameMatches(a: seq<Slot>, b: seq<Slot>, w: Want)
    requires |a| == |b|
    requires forall i :: 0 <= i < |a| ==> Matches(w, a[i]) == Matches(w, b[i])
    requires forall i :: 0 <= i < |a| && Matches(w, a[i]) ==> a[i].id == b[i].id && a[i].owner == b[i].owner
    ensures Ids(a, w) == Ids(b, w) && Owners(a, w) == Owners(b, w)
  {
    if a != [] {
      SameMatches(a[..|a| - 1], b[..|b| - 1], w);
    }
  }

  lemma {:induction false} BorrowableSplits(slots: seq<Slot>, max: nat)
    ensures Count(slots, Borrowable(max)) == Count(slots, Free(max)) + Count(slots, Preemptable(max))
    ensures Count(slots, Below(max)) == Count(slots, Free(max)) + Count(slots, InUse(max))
  {
    if slots != [] {
      BorrowableSplits(slots[..|slots| - 1], max);
    }
  }

  /** What `Borrow` did to position `i`. */
  function BorrowedSlot(p: Pool, folder: TaskId, count: nat, now: int, i: nat): Slot
    requires i < |p.slots|
  {
    if Chosen(p.slots, Free(p.max), count, i)
       || Chosen(p.slots, Preemptable(p.max), count - Count(p.slots, Free(p.max)), i)
    then p.slots[i].Taken(folder, Borrowed, false, Normal, now)
    else p.slots[i]
  }

  /**
   Borrowing grants exactly `min(count, available_borrow_slots)` slots: first the free ones in id
   order, and only when these run out the backup ones in id order; it reports exactly the owners of
   the backup slots it took, in that order.
   */
  lemma BorrowGrants(p: Pool, folder: TaskId, count: nat, now: int)
    ensures var e := BorrowIn(p, folder, count, now);
            var idle := Ids(p.slots, Free(p.max));
            var backup := Ids(p.slots, Preemptable(p.max));
            var k := Min(count, |idle|);
            var b := Min(count - k, |backup|);
            && |e.granted| == Min(count, Count(p.slots, Borrowable(p.max)))
            && e.granted == idle[..k] + backup[..b]
            && |Owners(p.slots, Preemptable(p.max))| == |backup|
            && e.lost == Owners(p.slots, Preemptable(p.max))[..b]
  {
    var idle := Grab(p.slots, Free(p.max), count, folder, now);
    PassGrants(p.slots, Free(p.max), count, folder, now);
    BorrowableSplits(p.slots, p.max);
    PassDisplaces(p.slots, Preemptable(p.max), 0, folder, now);
    BorrowIs(p, folder, count, now, idle);
    if |idle.ids| < count {
      SecondGrant(p.slots, p.max, count, count - |idle.ids|, folder, now);
    }
  }

  lemma BorrowIs(p: Pool, folder: TaskId, count: nat, now: int, idle: Grant)
    requires idle == Grab(p.slots, Free(p.max), count, folder, now)
    ensures var e := BorrowIn(p, folder, count, now);
            if |idle.ids| < count then
              var taken := Grab(idle.slots, Preemptable(p.max), count - |idle.ids|, folder, now);
              e.granted == idle.ids + taken.ids && e.lost == taken.displaced
            else e.granted == idle.ids && e.lost == []
  {
  }

  lemma SecondGrant(slots: seq<Slot>, max: nat, count: nat, rest: nat, folder: TaskId, now: int)
    ensures var g := Grab(Grab(slots, Free(max), count, folder, now).slots, Preemptable(max), rest, folder, now);
            var backup := Ids(slots, Preemptable(max));
            && g.ids == backup[..Min(rest, |backup|)]
            && |Owners(slots, Preemptable(max))| == |backup|
            && g.displaced == Owners(slots, Preemptable(max))[..Min(rest, |backup|)]
  {
    var after := Grab(slots, Free(max), count, folder, now).slots;
    IdleKeepsBackup(slots, max, count, folder, now);
    PassGrants(after, Preemptable(max), rest, folder, now);
    PassDisplaces(after, Preemptable(max), rest, folder, now);
  }

  /** Handing out free slots does not disturb which slots are backup slots, up to any position. */
  lemma IdleKeepsBackup(slots: seq<Slot>, max: nat, n: nat, folder: TaskId, now: int)
    ensures var after := Grab(slots, Free(max), n, folder, now).slots;
            && Ids(after, Preemptable(max)) == Ids(slots, Preemptable(max))
            && Owners(after, Preemptable(max)) == Owners(slots, Preemptable(max))
    ensures forall i :: 0 <= i <= |slots| ==>
      Ids(Grab(slots, Free(max), n, folder, now).slots[..i], Preemptable(max)) == Ids(slots[..i], Preemptable(max))
  {
    var after := Grab(slots, Free(max), n, folder, now).slots;
    PassChanges(slots, Free(max), n, folder, now);
    SameMatches(slots, after, Preemptable(max));
    forall i | 0 <= i <= |slots|
      ensures Ids(after[..i], Preemptable(max)) == Ids(slots[..i], Preemptable(max))
    {
      SameMatches(slots[..i], after[..i], Preemptable(max));
    }
  }

  /** Borrowing changes exactly the granted slots and leaves every other slot as it was. */
  lemma BorrowChanges(p: Pool, folder: TaskId, count: nat, now: int, i: nat)
    requires i < |p.slots|
    ensures |BorrowIn(p, folder, count, now).pool.slots| == |p.slots|
    ensures BorrowIn(p, folder, count, now).pool.slots[i] == BorrowedSlot(p, folder, count, now, i)
  {
    var idle := Grab(p.slots, Free(p.max), count, folder, now);
    PassGrants(p.slots, Free(p.max), count, folder, now);
    FewerBefore(p.slots, Free(p.max), i);
    PassChanges(p.slots, Free(p.max), count, folder, now);
    if |idle.ids| < count {
      SecondPass(p.slots, p.max, count, count - |idle.ids|, folder, now, i);
    }
  }

  lemma SecondPass(slots: seq<Slot>, max: nat, count: nat, rest: nat, folder: TaskId, now: int, i: nat)
    requires i < |slots|
    ensures var idle := Grab(slots, Free(max), count, folder, now).slots;
            && |Grab(idle, Preemptable(max), rest, folder, now).slots| == |slots|
            && Grab(idle, Preemptable(max), rest, folder, now).slots[i]
               == if Chosen(slots, Preemptable(max), rest, i)
                  then slots[i].Taken(folder, Borrowed, false, Normal, now) else idle[i]
  {
    var idle := Grab(slots, Free(max), count, folder, now).slots;
    PassChanges(slots, Free(max), count, folder, now);
    assert Matches(Preemptable(max), idle[i]) == Matches(Preemptable(max), slots[i]);
    IdleKeepsBackup(slots, max, count, folder, now);
    assert Chosen(idle, Preemptable(max), rest, i) == Chosen(slots, Preemptable(max), rest, i);
    PassChanges(idle, Preemptable(max), rest, folder, now);
  }

  lemma {:induction false} FewerBefore(slots: seq<Slot>, w: Want, i: nat)
    requires i <= |slots|
    ensures Count(slots[..i], w) <= Count(slots, w)
    ensures i < |slots| && Matches(w, slots[i]) ==> Count(slots[..i], w) < Count(slots, w)
    decreases |slots|
  {
    if i == |slots| {
      assert slots[..i] == slots;
    } else {
      var front := slots[..|slots| - 1];
      assert front[..i] == slots[..i];
      FewerBefore(front, w, i);
    }
  }

  /** Without preemption the grant is the first `min(count, available_slots)` free slots. */
  lemma BorrowIdleGrants(p: Pool, folder: TaskId, count: nat, now: int)
    ensures var e := BorrowIdleIn(p, folder, count, now);
            var idle := Ids(p.slots, Free(p.max));
            e.granted == idle[..Min(count, |idle|)] && e.lost == [] && |e.pool.slots| == |p.slots|
    ensures forall i :: 0 <= i < |p.slots| ==>
      BorrowIdleIn(p, folder, count, now).pool.slots[i]
      == if Chosen(p.slots, Free(p.max), count, i) then p.slots[i].Taken(folder, Borrowed, false, Normal, now)
         else p.slots[i]
  {
    PassGrants(p.slots, Free(p.max), count, folder, now);
    PassChanges(p.slots, Free(p.max), count, folder, now);
  }

  /** An id is granted exactly when its slot became the folder's. */
  lemma {:induction false} PassIds(slots: seq<Slot>, w: Want, n: nat, i: nat)
    requires i < |slots|
    requires Chosen(slots, w, n, i)
    ensures slots[i].id in Ids(slots, w)[..Min(n, |Ids(slots, w)|)]
  {
    var front := slots[..|slots| - 1];
    if i < |front| {
      assert front[..i] == slots[..i];
      PassIds(front, w, n, i);
      var ids := Ids(front, w);
      assert Ids(slots, w)[..Min(n, |ids|)] == ids[..Min(n, |ids|)];
      var k :| 0 <= k < Min(n, |ids|) && ids[k] == slots[i].id;
      assert Ids(slots, w)[k] == slots[i].id;
    } else {
      assert slots[..i] == front;
      var k := |Ids(front, w)|;
      assert Ids(slots, w)[k] == slots[i].id && k < n;
    }
  }

  lemma {:induction false} IdsComeFrom(slots: seq<Slot>, w: Want, k: nat) returns (i: nat)
    requires k < |Ids(slots, w)|
    ensures i < |slots| && slots[i].id == Ids(slots, w)[k]
    ensures Matches(w, slots[i]) && Count(slots[..i], w) == k
  {
    var front := slots[..|slots| - 1];
    if k < |Ids(front, w)| {
      i := IdsComeFrom(front, w, k);
      assert front[..i] == slots[..i];
    } else {
      i := |slots| - 1;
    }
  }

  // ---------- single slots ----------

  lemma {:induction false} NoneMatch(slots: seq<Slot>, w: Want)
    requires forall i :: 0 <= i < |slots| ==> !Matches(w, slots[i])
    ensures Ids(slots, w) == [] && Owners(slots, w) == []
  {
    if slots != [] { NoneMatch(slots[..|slots| - 1], w); }
  }

  lemma {:induction false} ListsGrow(slots: seq<Slot>, w: Want, k: nat)
    requires k <= |slots|
    ensures Ids(slots[..k], w) <= Ids(slots, w) && Owners(slots[..k], w) <= Owners(slots, w)
    decreases |slots|
  {
    if k == |slots| {
      assert slots[..k] == slots;
    } else {
      assert slots[..|slots| - 1][..k] == slots[..k];
      ListsGrow(slots[..|slots| - 1], w, k);
    }
  }

  /** The first match heads the list of matches. */
  lemma FirstIsHead(slots: seq<Slot>, w: Want)
    ensures First(slots, w) == |slots| <==> Ids(slots, w) == []
    ensures var i := First(slots, w);
            i < |slots| ==>
              && Ids(slots, w)[0] == slots[i].id
              && (slots[i].owner.Some? ==> Owners(slots, w) != [] && Owners(slots, w)[0] == slots[i].owner.value)
  {
    var i := First(slots, w);
    NoneMatch(slots[..i], w);
    if i < |slots| {
      assert slots[..i + 1][..i] == slots[..i];
      ListsGrow(slots, w, i + 1);
      assert Ids(slots[..i + 1], w)[0] == slots[i].id;
    } else {
      assert slots[..i] == slots;
    }
  }

  /**
   A prioritised allocation takes the first free slot; only when there is none, and only for a task that
   may preempt backups, the first backup slot, whose owner it reports; otherwise it grants nothing.
   */
  lemma AllocationGrants(p: Pool, task: TaskId, isFolder: bool, prio: Priority, now: int)
    ensures var e := AllocPriorityIn(p, task, isFolder, prio, now);
            var idle := Ids(p.slots, Free(p.max));
            var backup := Ids(p.slots, Preemptable(p.max));
            && e.granted == (if idle != [] then [idle[0]]
                             else if prio != Backup && backup != [] then [backup[0]] else [])
            && |Owners(p.slots, Preemptable(p.max))| == |backup|
            && e.lost == (if idle == [] && prio != Backup
                          then Owners(p.slots, Preemptable(p.max))[..Min(1, |backup|)] else [])
  {
    PassDisplaces(p.slots, Preemptable(p.max), 0, task, now);
    FirstIsHead(p.slots, Free(p.max));
    if First(p.slots, Free(p.max)) == |p.slots| {
      FirstIsHead(p.slots, Preemptable(p.max));
      var j := First(p.slots, Preemptable(p.max));
      if j < |p.slots| {
        assert Owners(p.slots, Preemptable(p.max))[..1] == [p.slots[j].owner.value];
      }
    }
  }

  /** Nothing changes but the granted slot, which becomes the task's. */
  lemma AllocationChanges(p: Pool, task: TaskId, isFolder: bool, prio: Priority, now: int)
    ensures var e := AllocPriorityIn(p, task, isFolder, prio, now);
            && (e.granted == [] ==> e.pool == p)
            && |e.pool.slots| == |p.slots| && e.pool.borrowed == p.borrowed
            && (forall i :: 0 <= i < |p.slots| ==>
                  e.pool.slots[i] == p.slots[i]
                  || ([p.slots[i].id] == e.granted
                      && e.pool.slots[i] == p.slots[i].Taken(task, Fixed, isFolder, prio, now)))
            && (e.granted != [] ==>
                  exists i :: (0 <= i < |p.slots| && [p.slots[i].id] == e.granted
                               && e.pool.slots[i] == p.slots[i].Taken(task, Fixed, isFolder, prio, now)))
  {
    var e := AllocPriorityIn(p, task, isFolder, prio, now);
    var i, j := First(p.slots, Free(p.max)), First(p.slots, Preemptable(p.max));
    if i < |p.slots| {
      assert e.pool.slots[i] == p.slots[i].Taken(task, Fixed, isFolder, prio, now);
    } else if e.granted != [] {
      assert e.pool.slots[j] == p.slots[j].Taken(task, Fixed, isFolder, prio, now);
    }
  }
}
