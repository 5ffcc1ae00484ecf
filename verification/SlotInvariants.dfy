/** What every reachable state of the slot pool satisfies, and what no operation may disturb. */
module SlotInvariants {
  import opened Prelude
  import opened SlotModel
  import opened SlotGrants

  // ---------- the invariant ----------

  ghost predicate Ascending(slots: seq<Slot>) {
    forall i, j :: 0 <= i < j < |slots| ==> slots[i].id < slots[j].id
  }

  ghost predicate Dense(slots: seq<Slot>, max: nat) {
    forall id: nat :: id < max ==> HasId(slots, id)
  }

  predicate SlotOk(s: Slot) {
    if s.IsFree() then s == FreshSlot(s.id)
    else s.lastUpdatedAt.Some? && (s.slotType == Borrowed ==> s.priority == Normal)
  }

  /** The slot with this id is marked borrowed and belongs to the folder. */
  ghost predicate BorrowedBy(slots: seq<Slot>, id: nat, folder: TaskId) {
    exists i :: 0 <= i < |slots| && LentTo(slots[i], id, folder)
  }

  predicate LentTo(s: Slot, id: nat, folder: TaskId) {
    s.id == id && s.slotType == Borrowed && s.owner == Some(folder)
  }

  /** Every listed id really is a slot lent to that folder; no id is listed twice, no list is empty. */
  ghost predicate SoundIndex(p: Pool) {
    && (forall f: TaskId, id: nat :: id in p.ListOf(f) ==> BorrowedBy(p.slots, id, f))
    && (forall f: TaskId :: Distinct(p.ListOf(f)))
    && (forall f: TaskId :: f in p.borrowed ==> p.borrowed[f] != [])
  }

  ghost predicate Inv(p: Pool) {
    && Ascending(p.slots)
    && Dense(p.slots, p.max)
    && (forall i :: 0 <= i < |p.slots| ==> SlotOk(p.slots[i]))
    && SoundIndex(p)
  }

  /** The folder index lists exactly the slots lent to each folder. */
  ghost predicate ExactIndex(p: Pool) {
    forall f: TaskId, id: nat :: id in p.ListOf(f) <==> BorrowedBy(p.slots, id, f)
  }

  // ---------- runs ----------

  datatype Event = Event(op: Op, now: int)

  function Run(p: Pool, es: seq<Event>): Pool
    decreases |es|
  {
    if es == [] then p else Run(Step(p, es[0].op, es[0].now).pool, es[1..])
  }

  // ---------- consequences of the invariant ----------

  /** The first `max` positions hold exactly the ids below `max`, in order. */
  lemma {:induction false} PrefixIds(slots: seq<Slot>, max: nat, i: nat)
    requires Ascending(slots) && Dense(slots, max)
    requires i < max
    ensures i < |slots| && slots[i].id == i
  {
    if i > 0 { PrefixIds(slots, max, i - 1); }
    assert HasId(slots, i);
    var k :| 0 <= k < |slots| && slots[k].id == i;
    if k < i {
      PrefixIds(slots, max, k);
    }
  }

  lemma {:induction false} CountBelow(slots: seq<Slot>, max: nat, n: nat)
    requires Ascending(slots)
    requires n <= |slots| && n <= max
    requires forall i :: 0 <= i < n ==> slots[i].id == i
    requires n < |slots| ==> n == max
    ensures Count(slots, Below(max)) == n
    decreases |slots|
  {
    if n == |slots| {
      AllBelow(slots, max);
    } else {
      var last := slots[|slots| - 1];
      CountBelow(slots[..|slots| - 1], max, n);
      IdAtLeastPosition(slots, |slots| - 1);
      assert !Matches(Below(max), last);
    }
  }

  lemma {:induction false} IdAtLeastPosition(slots: seq<Slot>, i: nat)
    requires Ascending(slots) && i < |slots|
    ensures slots[i].id >= i
  {
    if i > 0 {
      IdAtLeastPosition(slots, i - 1);
      assert slots[i - 1].id < slots[i].id;
    }
  }

  lemma {:induction false} AllBelow(slots: seq<Slot>, max: nat)
    requires |slots| <= max
    requires forall i :: 0 <= i < |slots| ==> slots[i].id == i
    ensures Count(slots, Below(max)) == |slots|
  {
    if slots != [] {
      AllBelow(slots[..|slots| - 1], max);
    }
  }

  /** `used_slots + available_slots == max_slots` in every state satisfying the invariant. */
  lemma CapacityIsConserved(p: Pool)
    requires Inv(p)
    ensures Count(p.slots, InUse(p.max)) + Count(p.slots, Free(p.max)) == p.max
  {
    forall i | 0 <= i < p.max
      ensures i < |p.slots| && p.slots[i].id == i
    {
      PrefixIds(p.slots, p.max, i);
    }
    if p.max > 0 { PrefixIds(p.slots, p.max, p.max - 1); }
    CountBelow(p.slots, p.max, p.max);
    BorrowableSplits(p.slots, p.max);
  }

  /** No slot is listed for two folders. */
  lemma ListsAreDisjoint(p: Pool, f: TaskId, g: TaskId, id: nat)
    requires Inv(p)
    requires id in p.ListOf(f) && id in p.ListOf(g)
    ensures f == g
  {
    assert BorrowedBy(p.slots, id, f) && BorrowedBy(p.slots, id, g);
    var i :| 0 <= i < |p.slots| && LentTo(p.slots[i], id, f);
    var j :| 0 <= j < |p.slots| && LentTo(p.slots[j], id, g);
    UniqueId(p.slots, i, j);
  }

  lemma UniqueId(slots: seq<Slot>, i: nat, j: nat)
    requires Ascending(slots)
    requires i < |slots| && j < |slots| && slots[i].id == slots[j].id
    ensures i == j
  {
  }

  // ---------- operations that keep every id in place ----------

  ghost predicate SameIds(a: seq<Slot>, b: seq<Slot>) {
    |a| == |b| && forall i :: 0 <= i < |a| ==> a[i].id == b[i].id
  }

  lemma SameIdsKeepShape(a: seq<Slot>, b: seq<Slot>, max: nat)
    requires SameIds(a, b)
    requires Ascending(a) && Dense(a, max)
    ensures Ascending(b) && Dense(b, max)
  {
    forall id: nat | id < max
      ensures HasId(b, id)
    {
      assert HasId(a, id);
      var i :| 0 <= i < |a| && a[i].id == id;
      assert b[i].id == id;
    }
  }

  /** Operations that keep ids in place, keep slots well formed, and keep all lent slots lent to the
      same folder leave the invariant and the exactness of an unchanged index alone. */
  lemma KeepLoans(p: Pool, q: Pool)
    requires Inv(p)
    requires q.max == p.max && q.borrowed == p.borrowed
    requires SameIds(p.slots, q.slots)
    requires forall i :: 0 <= i < |q.slots| ==> SlotOk(q.slots[i])
    requires forall i, id: nat, f: TaskId :: 0 <= i < |q.slots| ==>
      (LentTo(p.slots[i], id, f) <==> LentTo(q.slots[i], id, f))
    ensures Inv(q)
    ensures ExactIndex(p) ==> ExactIndex(q)
  {
    SameIdsKeepShape(p.slots, q.slots, p.max);
    forall f: TaskId, id: nat
      ensures BorrowedBy(p.slots, id, f) <==> BorrowedBy(q.slots, id, f)
    {
      if BorrowedBy(p.slots, id, f) {
        var i :| 0 <= i < |p.slots| && LentTo(p.slots[i], id, f);
        assert LentTo(q.slots[i], id, f);
      }
      if BorrowedBy(q.slots, id, f) {
        var i :| 0 <= i < |q.slots| && LentTo(q.slots[i], id, f);
        assert LentTo(p.slots[i], id, f);
      }
    }
    forall f: TaskId
      ensures q.ListOf(f) == p.ListOf(f)
    {
    }
  }

  lemma AllocKeeps(p: Pool, task: TaskId, isFolder: bool, prio: Priority, now: int)
    requires Inv(p)
    ensures Inv(AllocPriorityIn(p, task, isFolder, prio, now).pool)
    ensures ExactIndex(p) ==> ExactIndex(AllocPriorityIn(p, task, isFolder, prio, now).pool)
  {
    KeepLoans(p, AllocPriorityIn(p, task, isFolder, prio, now).pool);
  }

  lemma FixedReleaseKeeps(p: Pool, task: TaskId)
    requires Inv(p)
    ensures Inv(ReleaseFixedIn(p, task))
    ensures ExactIndex(p) ==> ExactIndex(ReleaseFixedIn(p, task))
  {
    KeepLoans(p, ReleaseFixedIn(p, task));
  }

  lemma TouchKeeps(p: Pool, task: TaskId, now: int)
    requires Inv(p)
    ensures Inv(TouchIn(p, task, now))
    ensures ExactIndex(p) ==> ExactIndex(TouchIn(p, task, now))
  {
    KeepLoans(p, TouchIn(p, task, now));
  }

  // ---------- borrowing ----------

  /** The slots a lending pass rewrote, described without reference to the pass. */
  ghost predicate LendsTo(p: Pool, q: Pool, folder: TaskId, now: int, ids: seq<nat>) {
    && SameIds(p.slots, q.slots)
    && (forall i :: 0 <= i < |p.slots| ==>
          if p.slots[i].id in ids
          then q.slots[i] == p.slots[i].Taken(folder, Borrowed, false, Normal, now)
               && (p.slots[i].IsFree() || p.slots[i].IsPreemptable())
          else q.slots[i] == p.slots[i])
    && (forall k :: 0 <= k < |ids| ==> HasId(p.slots, ids[k]))
    && Distinct(ids)
  }

  lemma LendingKeeps(p: Pool, q: Pool, folder: TaskId, now: int, ids: seq<nat>)
    requires Inv(p)
    requires LendsTo(p, q, folder, now, ids)
    requires q == Lend(p, q.slots, folder, ids)
    ensures Inv(q)
    ensures ExactIndex(p) ==> ExactIndex(q)
  {
    SameIdsKeepShape(p.slots, q.slots, p.max);
    forall i | 0 <= i < |p.slots| && p.slots[i].id in ids
      ensures p.slots[i].slotType == Fixed
    {
      assert SlotOk(p.slots[i]);
    }
    forall f: TaskId, id: nat
      ensures BorrowedBy(q.slots, id, f) <==> BorrowedBy(p.slots, id, f) || (f == folder && id in ids)
      ensures BorrowedBy(p.slots, id, f) ==> id !in ids
    {
      LoanOf(p, q, folder, now, ids, f, id);
    }
    forall f: TaskId
      ensures q.ListOf(f) == if f == folder then p.ListOf(f) + ids else p.ListOf(f)
    {
    }
    forall x | x in p.ListOf(folder)
      ensures x !in ids
    {
      assert BorrowedBy(p.slots, x, folder);
    }
    DistinctConcat(p.ListOf(folder), ids);
  }

  lemma DistinctConcat<T>(a: seq<T>, b: seq<T>)
    requires Distinct(a) && Distinct(b)
    requires forall x :: x in a ==> x !in b
    ensures Distinct(a + b)
  {
    forall i, j | 0 <= i < j < |a + b|
      ensures (a + b)[i] != (a + b)[j]
    {
      if i < |a| <= j { assert a[i] in a && b[j - |a|] in b; }
    }
  }

  lemma LoanOf(p: Pool, q: Pool, folder: TaskId, now: int, ids: seq<nat>, f: TaskId, id: nat)
    requires Ascending(p.slots)
    requires LendsTo(p, q, folder, now, ids)
    requires forall i :: 0 <= i < |p.slots| && p.slots[i].id in ids ==> p.slots[i].slotType == Fixed
    ensures BorrowedBy(q.slots, id, f) <==> BorrowedBy(p.slots, id, f) || (f == folder && id in ids)
    ensures BorrowedBy(p.slots, id, f) ==> id !in ids
  {
    if BorrowedBy(p.slots, id, f) {
      var i :| 0 <= i < |p.slots| && LentTo(p.slots[i], id, f);
      assert LentTo(q.slots[i], id, f);
    }
    if f == folder && id in ids {
      var k :| 0 <= k < |ids| && ids[k] == id;
      assert HasId(p.slots, ids[k]);
      var i :| 0 <= i < |p.slots| && p.slots[i].id == id;
      assert LentTo(q.slots[i], id, f);
    }
    if BorrowedBy(q.slots, id, f) {
      var i :| 0 <= i < |q.slots| && LentTo(q.slots[i], id, f);
      if id !in ids { assert LentTo(p.slots[i], id, f); }
    }
  }

  lemma IdsAreDistinct(slots: seq<Slot>, w: Want)
    requires Ascending(slots)
    ensures Distinct(Ids(slots, w))
    ensures forall k :: 0 <= k < |Ids(slots, w)| ==> HasId(slots, Ids(slots, w)[k])
  {
    forall k | 0 <= k < |Ids(slots, w)|
      ensures HasId(slots, Ids(slots, w)[k])
    {
      var i := IdsComeFrom(slots, w, k);
    }
    forall j, k | 0 <= j < k < |Ids(slots, w)|
      ensures Ids(slots, w)[j] != Ids(slots, w)[k]
    {
      var a := IdsComeFrom(slots, w, j);
      var b := IdsComeFrom(slots, w, k);
    }
  }

  /** On a list with ascending ids, being granted and having a granted id are the same thing. */
  lemma ChosenById(slots: seq<Slot>, w: Want, n: nat, i: nat)
    requires Ascending(slots) && i < |slots|
    ensures Chosen(slots, w, n, i) <==> slots[i].id in Ids(slots, w)[..Min(n, |Ids(slots, w)|)]
  {
    if Chosen(slots, w, n, i) {
      PassIds(slots, w, n, i);
    }
    if slots[i].id in Ids(slots, w)[..Min(n, |Ids(slots, w)|)] {
      var k :| 0 <= k < Min(n, |Ids(slots, w)|) && Ids(slots, w)[k] == slots[i].id;
      var j := IdsComeFrom(slots, w, k);
      UniqueId(slots, i, j);
    }
  }

  lemma IdleGrantLends(p: Pool, folder: TaskId, count: nat, now: int)
    requires Inv(p)
    ensures var e := BorrowIdleIn(p, folder, count, now); LendsTo(p, e.pool, folder, now, e.granted)
  {
    var w := Free(p.max);
    var e := BorrowIdleIn(p, folder, count, now);
    BorrowIdleGrants(p, folder, count, now);
    IdsAreDistinct(p.slots, w);
    forall i | 0 <= i < |p.slots|
      ensures Chosen(p.slots, w, count, i) <==> p.slots[i].id in e.granted
    {
      ChosenById(p.slots, w, count, i);
    }
  }

  lemma IdleAndBackupDiffer(slots: seq<Slot>, max: nat)
    requires Ascending(slots)
    ensures forall x :: x in Ids(slots, Free(max)) ==> x !in Ids(slots, Preemptable(max))
  {
    var idle, backup := Ids(slots, Free(max)), Ids(slots, Preemptable(max));
    forall x, y | 0 <= x < |idle| && 0 <= y < |backup|
      ensures idle[x] != backup[y]
    {
      var i := IdsComeFrom(slots, Free(max), x);
      var j := IdsComeFrom(slots, Preemptable(max), y);
      if idle[x] == backup[y] { UniqueId(slots, i, j); }
    }
  }

  /** Position by position, borrowing rewrote exactly the slots with a granted id. */
  lemma GrantLendsAt(p: Pool, folder: TaskId, count: nat, now: int, i: nat)
    requires Inv(p) && i < |p.slots|
    ensures var e := BorrowIn(p, folder, count, now);
            && |e.pool.slots| == |p.slots|
            && if p.slots[i].id in e.granted
               then e.pool.slots[i] == p.slots[i].Taken(folder, Borrowed, false, Normal, now)
                    && (p.slots[i].IsFree() || p.slots[i].IsPreemptable())
               else e.pool.slots[i] == p.slots[i]
  {
    var free, pre := Free(p.max), Preemptable(p.max);
    var idle, backup := Ids(p.slots, free), Ids(p.slots, pre);
    var k := Min(count, |idle|);
    var b := Min(count - k, |backup|);
    BorrowGrants(p, folder, count, now);
    BorrowChanges(p, folder, count, now, i);
    ChosenById(p.slots, free, count, i);
    ChosenById(p.slots, pre, count - k, i);
    FewerBefore(p.slots, pre, i);
    assert Chosen(p.slots, pre, count - |idle|, i) <==> Chosen(p.slots, pre, count - k, i);
    assert p.slots[i].id in idle[..k] + backup[..b] <==> p.slots[i].id in idle[..k] || p.slots[i].id in backup[..b];
  }

  lemma GrantedIdsAreReal(p: Pool, folder: TaskId, count: nat, now: int)
    requires Inv(p)
    ensures var e := BorrowIn(p, folder, count, now);
            Distinct(e.granted) && forall k :: 0 <= k < |e.granted| ==> HasId(p.slots, e.granted[k])
  {
    var idle, backup := Ids(p.slots, Free(p.max)), Ids(p.slots, Preemptable(p.max));
    var k := Min(count, |idle|);
    BorrowGrants(p, folder, count, now);
    IdsAreDistinct(p.slots, Free(p.max));
    IdsAreDistinct(p.slots, Preemptable(p.max));
    IdleAndBackupDiffer(p.slots, p.max);
    PrefixesAreReal(p.slots, idle, backup, k, Min(count - k, |backup|));
  }

  lemma PrefixesAreReal(slots: seq<Slot>, a: seq<nat>, b: seq<nat>, k: nat, m: nat)
    requires k <= |a| && m <= |b|
    requires Distinct(a) && Distinct(b) && forall x :: x in a ==> x !in b
    requires forall i :: 0 <= i < |a| ==> HasId(slots, a[i])
    requires forall i :: 0 <= i < |b| ==> HasId(slots, b[i])
    ensures Distinct(a[..k] + b[..m])
    ensures forall i :: 0 <= i < |a[..k] + b[..m]| ==> HasId(slots, (a[..k] + b[..m])[i])
  {
    assert forall x :: x in a[..k] ==> x in a;
    assert forall x :: x in b[..m] ==> x in b;
    DistinctConcat(a[..k], b[..m]);
    forall i | 0 <= i < |a[..k] + b[..m]|
      ensures HasId(slots, (a[..k] + b[..m])[i])
    {
      if i < k { assert HasId(slots, a[i]); } else { assert HasId(slots, b[i - k]); }
    }
  }

  lemma GrantLends(p: Pool, folder: TaskId, count: nat, now: int)
    requires Inv(p)
    ensures var e := BorrowIn(p, folder, count, now); LendsTo(p, e.pool, folder, now, e.granted)
  {
    var e := BorrowIn(p, folder, count, now);
    GrantedIdsAreReal(p, folder, count, now);
    assert |e.pool.slots| == |p.slots|;
    forall i | 0 <= i < |p.slots|
      ensures if p.slots[i].id in e.granted
              then e.pool.slots[i] == p.slots[i].Taken(folder, Borrowed, false, Normal, now)
                   && (p.slots[i].IsFree() || p.slots[i].IsPreemptable())
              else e.pool.slots[i] == p.slots[i]
    {
      GrantLendsAt(p, folder, count, now, i);
    }
  }
}
