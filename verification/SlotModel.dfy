/**
 The task slot pool as values: slots, the pool state, and what each pool operation does to that
 state.  `SlotPool.dfy` proves that the imperative pool computes exactly these functions;
 `SlotInvariants.dfy` and `SlotKeepAlive.dfy` prove what holds over whole runs of them.
 */
module SlotModel {
  import opened Prelude

  type TaskId = string

  /** Instants are integers in nanoseconds. */
  const SECOND: int := 1_000_000_000
  const STALE_RELEASE_THRESHOLD: int := 1800 * SECOND
  const TOUCH_INTERVAL: int := 30 * SECOND

  datatype SlotType = Fixed | Borrowed

  datatype Priority = Normal | SubTask | Backup {
    function Rank(): nat {
      match this
      case Normal => 10
      case SubTask => 20
      case Backup => 30
    }

    predicate CanPreempt(target: Priority) { Rank() < target.Rank() }
  }

  datatype Slot = Slot(
    id: nat, slotType: SlotType, owner: Option<TaskId>, folderMain: bool, priority: Priority,
    allocatedAt: Option<int>, lastUpdatedAt: Option<int>)
  {
    predicate IsFree() { owner.None? }

    predicate IsPreemptable() { owner.Some? && priority == Backup }

    function Taken(task: TaskId, kind: SlotType, isFolder: bool, prio: Priority, now: int): Slot {
      Slot(id, kind, Some(task), isFolder, prio, Some(now), Some(now))
    }

    function Released(): Slot { FreshSlot(id) }

    function Touched(now: int): Slot { this.(lastUpdatedAt := Some(now)) }

    predicate IsStale(now: int) {
      lastUpdatedAt.Some? && now - lastUpdatedAt.value >= STALE_RELEASE_THRESHOLD
    }
  }

  function FreshSlot(id: nat): Slot { Slot(id, Fixed, None, false, Normal, None, None) }

  /** The tests the pool applies to single slots while it walks the slot list. */
  datatype Want =
    | Free(max: nat)
    | Preemptable(max: nat)
    | Borrowable(max: nat)
    | InUse(max: nat)
    | Below(max: nat)
    | Expired(max: nat, now: int)
    | OwnedBy(task: TaskId)
    | FixedOf(task: TaskId)
    | WithId(id: nat)

  predicate Matches(w: Want, s: Slot) {
    match w
    case Free(max) => s.id < max && s.IsFree()
    case Preemptable(max) => s.id < max && s.IsPreemptable()
    case Borrowable(max) => s.id < max && (s.IsFree() || s.IsPreemptable())
    case InUse(max) => s.id < max && !s.IsFree()
    case Below(max) => s.id < max
    case Expired(max, now) => s.id < max && !s.IsFree() && s.IsStale(now)
    case OwnedBy(task) => s.owner == Some(task)
    case FixedOf(task) => s.owner == Some(task) && s.slotType == Fixed
    case WithId(id) => s.id == id
  }

  datatype Pool = Pool(max: nat, slots: seq<Slot>, borrowed: map<TaskId, seq<nat>>) {
    function ListOf(folder: TaskId): seq<nat> {
      if folder in borrowed then borrowed[folder] else []
    }
  }

  function NewPool(max: nat): Pool { Pool(max, seq(max, i requires 0 <= i => FreshSlot(i)), map[]) }

  // ---------- walking the slot list ----------

  /** Index of the first matching slot, or the length of the list. */
  function First(slots: seq<Slot>, w: Want): (i: nat)
    ensures i <= |slots|
    ensures i < |slots| ==> Matches(w, slots[i])
    ensures forall j :: 0 <= j < i ==> !Matches(w, slots[j])
  {
    if slots == [] then 0
    else if Matches(w, slots[0]) then 0
    else
      var i := First(slots[1..], w);
      assert forall j :: 0 < j <= i ==> slots[j] == slots[1..][j - 1];
      i + 1
  }

  /** Ids of the matching slots, in list order. */
  function Ids(slots: seq<Slot>, w: Want): (r: seq<nat>)
    ensures |r| <= |slots|
  {
    if slots == [] then []
    else
      var s := slots[|slots| - 1];
      Ids(slots[..|slots| - 1], w) + if Matches(w, s) then [s.id] else []
  }

  function Count(slots: seq<Slot>, w: Want): nat { |Ids(slots, w)| }

  /** Owners of the matching slots, in list order. */
  function Owners(slots: seq<Slot>, w: Want): (r: seq<TaskId>)
    ensures |r| <= |slots|
  {
    if slots == [] then []
    else
      var s := slots[|slots| - 1];
      Owners(slots[..|slots| - 1], w)
      + if Matches(w, s) && s.owner.Some? then [s.owner.value] else []
  }

  datatype Grant = Grant(slots: seq<Slot>, ids: seq<nat>, displaced: seq<TaskId>)

  /** The pass below, at one slot. */
  function GrabOne(g: Grant, s: Slot, w: Want, n: nat, folder: TaskId, now: int): Grant {
    if |g.ids| < n && Matches(w, s) then
      Grant(g.slots + [s.Taken(folder, Borrowed, false, Normal, now)], g.ids + [s.id],
            g.displaced + if s.owner.Some? then [s.owner.value] else [])
    else g.(slots := g.slots + [s])
  }

  /** One left-to-right pass that hands at most `n` matching slots to `folder` as borrowed slots. */
  function Grab(slots: seq<Slot>, w: Want, n: nat, folder: TaskId, now: int): (g: Grant)
    ensures |g.slots| == |slots|
  {
    if slots == [] then Grant([], [], [])
    else GrabOne(Grab(slots[..|slots| - 1], w, n, folder, now), slots[|slots| - 1], w, n, folder, now)
  }

  /** Releases every matching slot. */
  function ReleaseWhere(slots: seq<Slot>, w: Want): seq<Slot> {
    seq(|slots|, i requires 0 <= i < |slots| => if Matches(w, slots[i]) then slots[i].Released() else slots[i])
  }

  // ---------- resizing ----------

  predicate HasId(slots: seq<Slot>, id: nat) { exists i :: 0 <= i < |slots| && slots[i].id == id }

  /** Free slots for the ids in `lo..hi` that `slots` lacks. */
  function Missing(slots: seq<Slot>, lo: nat, hi: nat): seq<Slot>
    decreases hi - lo
  {
    if lo >= hi then []
    else Missing(slots, lo, hi - 1) + if HasId(slots, hi - 1) then [] else [FreshSlot(hi - 1)]
  }

  function InsertById(x: Slot, s: seq<Slot>): seq<Slot> {
    if s == [] then [x]
    else if x.id < s[0].id then [x] + s
    else [s[0]] + InsertById(x, s[1..])
  }

  /** The library's stable sort by id. */
  function SortById(s: seq<Slot>): seq<Slot> {
    if s == [] then [] else InsertById(s[|s| - 1], SortById(s[..|s| - 1]))
  }

  /** The slots that survive a shrink: those below the new limit and the occupied ones. */
  function Retained(slots: seq<Slot>, max: nat): seq<Slot> {
    if slots == [] then []
    else
      var s := slots[|slots| - 1];
      Retained(slots[..|slots| - 1], max) + if s.id < max || !s.IsFree() then [s] else []
  }

  // ---------- the operations ----------

  datatype Op =
    | AllocFixed(task: TaskId, isFolder: bool)
    | AllocPriority(task: TaskId, isFolder: bool, priority: Priority)
    | AllocBackup(task: TaskId)
    | Borrow(folder: TaskId, count: nat)
    | BorrowIdle(folder: TaskId, count: nat)
    | ReleaseBorrowed(folder: TaskId, id: nat)
    | ReleaseFixed(task: TaskId)
    | ReleaseAll(task: TaskId)
    | Touch(task: TaskId)
    | Cleanup
    | Resize(max: nat)

  /** New state, ids of the slots handed out, and the tasks whose slots were taken away. */
  datatype Effect = Effect(pool: Pool, granted: seq<nat>, lost: seq<TaskId>)

  function SetSlot(p: Pool, i: nat, s: Slot): Pool
    requires i < |p.slots|
  {
    p.(slots := p.slots[i := s])
  }

  function AllocFixedIn(p: Pool, task: TaskId, isFolder: bool, now: int): Effect {
    var i := First(p.slots, Free(p.max));
    if i == |p.slots| then Effect(p, [], [])
    else Effect(SetSlot(p, i, p.slots[i].Taken(task, Fixed, isFolder, Normal, now)), [p.slots[i].id], [])
  }

  function AllocPriorityIn(p: Pool, task: TaskId, isFolder: bool, prio: Priority, now: int): Effect {
    var i := First(p.slots, Free(p.max));
    var j := First(p.slots, Preemptable(p.max));
    if i < |p.slots| then
      Effect(SetSlot(p, i, p.slots[i].Taken(task, Fixed, isFolder, prio, now)), [p.slots[i].id], [])
    else if prio.CanPreempt(Backup) && j < |p.slots| then
      Effect(SetSlot(p, j, p.slots[j].Taken(task, Fixed, isFolder, prio, now)), [p.slots[j].id],
             [p.slots[j].owner.value])
    else Effect(p, [], [])
  }

  function Lend(p: Pool, slots: seq<Slot>, folder: TaskId, ids: seq<nat>): Pool {
    Pool(p.max, slots, if ids == [] then p.borrowed else p.borrowed[folder := p.ListOf(folder) + ids])
  }

  function BorrowIn(p: Pool, folder: TaskId, count: nat, now: int): Effect {
    var idle := Grab(p.slots, Free(p.max), count, folder, now);
    if |idle.ids| < count then
      var taken := Grab(idle.slots, Preemptable(p.max), count - |idle.ids|, folder, now);
      Effect(Lend(p, taken.slots, folder, idle.ids + taken.ids), idle.ids + taken.ids, taken.displaced)
    else Effect(Lend(p, idle.slots, folder, idle.ids), idle.ids, [])
  }

  function BorrowIdleIn(p: Pool, folder: TaskId, count: nat, now: int): Effect {
    var idle := Grab(p.slots, Free(p.max), count, folder, now);
    Effect(Lend(p, idle.slots, folder, idle.ids), idle.ids, [])
  }

  function Without(ids: seq<nat>, id: nat): (r: seq<nat>)
    ensures |r| <= |ids|
    ensures forall x :: x in r <==> x in ids && x != id
  {
    if ids == [] then []
    else
      var last := ids[|ids| - 1];
      assert ids == ids[..|ids| - 1] + [last];
      Without(ids[..|ids| - 1], id) + if last != id then [last] else []
  }

  function ReleaseBorrowedIn(p: Pool, folder: TaskId, id: nat): Pool {
    var i := First(p.slots, WithId(id));
    var slots :=
      if i < |p.slots| && p.slots[i].owner == Some(folder) then p.slots[i := p.slots[i].Released()] else p.slots;
    var rest := Without(p.ListOf(folder), id);
    Pool(p.max, slots,
         if folder !in p.borrowed then p.borrowed
         else if rest == [] then p.borrowed - {folder}
         else p.borrowed[folder := rest])
  }

  function ReleaseFixedIn(p: Pool, task: TaskId): Pool {
    var i := First(p.slots, FixedOf(task));
    if i == |p.slots| then p else SetSlot(p, i, p.slots[i].Released())
  }

  function ReleaseAllIn(p: Pool, task: TaskId): Pool {
    Pool(p.max, ReleaseWhere(p.slots, OwnedBy(task)), p.borrowed - {task})
  }

  function TouchIn(p: Pool, task: TaskId, now: int): Pool {
    var i := First(p.slots, OwnedBy(task));
    if i == |p.slots| then p else SetSlot(p, i, p.slots[i].Touched(now))
  }

  function CleanupIn(p: Pool, now: int): Effect {
    var lost := Owners(p.slots, Expired(p.max, now));
    Effect(Pool(p.max, ReleaseWhere(p.slots, Expired(p.max, now)), p.borrowed - (set t | t in lost)), [], lost)
  }

  function ResizeIn(p: Pool, max: nat): Pool {
    if max > p.max then Pool(max, SortById(p.slots + Missing(p.slots, p.max, max)), p.borrowed)
    else if max < p.max then Pool(max, Retained(p.slots, max), p.borrowed)
    else p
  }

  /** One pool operation performed at time `now`. */
  function Step(p: Pool, op: Op, now: int): Effect {
    match op
    case AllocFixed(task, isFolder) => AllocFixedIn(p, task, isFolder, now)
    case AllocPriority(task, isFolder, prio) => AllocPriorityIn(p, task, isFolder, prio, now)
    case AllocBackup(task) => AllocPriorityIn(p, task, false, Backup, now)
    case Borrow(folder, count) => BorrowIn(p, folder, count, now)
    case BorrowIdle(folder, count) => BorrowIdleIn(p, folder, count, now)
    case ReleaseBorrowed(folder, id) => Effect(ReleaseBorrowedIn(p, folder, id), [], [])
    case ReleaseFixed(task) => Effect(ReleaseFixedIn(p, task), [], [])
    case ReleaseAll(task) => Effect(ReleaseAllIn(p, task), [], [])
    case Touch(task) => Effect(TouchIn(p, task, now), [], [])
    case Cleanup => CleanupIn(p, now)
    case Resize(max) => Effect(ResizeIn(p, max), [], [])
  }

  /** One progress callback: refresh the slot unless the last refresh is less than 30 s old.
      Returns the pool and the throttler's time of last refresh. */
  function BeatIn(p: Pool, task: TaskId, lastTouch: int, now: int): (Pool, int) {
    if now - lastTouch >= TOUCH_INTERVAL && First(p.slots, OwnedBy(task)) < |p.slots|
    then (TouchIn(p, task, now), now)
    else (p, lastTouch)
  }
}
