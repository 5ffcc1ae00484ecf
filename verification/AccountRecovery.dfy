/** What survives crashes, failed saves and corruption of the account files. */
module AccountRecovery {
  import opened Prelude
  import opened AccountDisk
  import opened AccountManager

  /** A rolling save is safe here: it cannot replace a good backup by a corrupt main file. */
  predicate Safe(d: Disk) { !(d.accounts.Corrupt? && d.bak.Valid?) }

  // ---------- crashing inside a save ----------

  /** What a disk reached inside a save may look like. */
  lemma SavePoint(d: Disk, data: AccountsData, roll: bool, f: Faults, c: Disk)
    requires c in SaveStates(d, data, roll, f)
    ensures c.session == d.session && c.migrated == d.migrated
    ensures c.accounts == d.accounts || c.accounts == Valid(data)
    ensures c.bak == d.bak || (roll && d.accounts != Absent && (c.bak == d.accounts || !c.bak.Valid?))
  {
    if f.write == Fine {
      var d1 := d.(tmp := Valid(data));
      var rolled := if roll then RollStates(d1, f) else [];
      forall r | r in rolled
        ensures r.tmp == d1.tmp && r.accounts == d.accounts && r.session == d.session && r.migrated == d.migrated
        ensures r.bak == d.bak || (d.accounts != Absent && (r.bak == d.accounts || !r.bak.Valid?))
      {
      }
      assert Final(d1, rolled) == d1 || Final(d1, rolled) in rolled;
    }
  }

  /** After a crash anywhere inside a save, recovery yields the old or the new accounts, and the disk
      is again one that saves may roll. */
  lemma CrashInSave(d: Disk, data: AccountsData, roll: bool, f: Faults, c: Disk)
    requires Safe(d) || !roll
    requires c in SaveStates(d, data, roll, f)
    ensures Recovered(c) == Recovered(d) || Recovered(c) == data
    ensures Safe(d) ==> Safe(c)
  {
    SavePoint(d, data, roll, f, c);
  }

  /** A save that succeeds puts the new accounts in place, one that fails leaves the old ones. */
  lemma SaveCommits(d: Disk, data: AccountsData, roll: bool, f: Faults)
    requires Safe(d)
    ensures var e := Final(d, SaveStates(d, data, roll, f));
            && Safe(e)
            && Recovered(e) == (if SaveOk(f) then data else Recovered(d))
            && (SaveOk(f) ==> e.accounts == Valid(data))
            && (!SaveOk(f) ==> e.accounts == d.accounts)
  {
    var states := SaveStates(d, data, roll, f);
    if states != [] {
      CrashInSave(d, data, roll, f, Final(d, states));
      SavePoint(d, data, roll, f, Final(d, states));
      SaveEnd(d, data, roll, f);
    }
  }

  lemma SaveEnd(d: Disk, data: AccountsData, roll: bool, f: Faults)
    ensures var e := Final(d, SaveStates(d, data, roll, f));
            e.accounts == if SaveOk(f) then Valid(data) else d.accounts
  {
    if f.write == Fine {
      var d1 := d.(tmp := Valid(data));
      var rolled := if roll then RollStates(d1, f) else [];
      var d2 := Final(d1, rolled);
      assert d2.tmp == Valid(data) && d2.accounts == d.accounts;
      var written := WriteStates(d, data, f.write);
      assert Final(d, written + rolled) == d2;
    }
  }

  /** Crash safety is exact: with a corrupt main file and a good backup, a rolling save has a crash
      point from which only the legacy files can answer, so it is safe just when they happen to give
      the old or the new accounts. */
  lemma RollingOverCorruptionIsUnsafe(d: Disk, data: AccountsData)
    ensures (forall c :: c in SaveStates(d, data, true, NO_FAULTS) ==>
               Recovered(c) == Recovered(d) || Recovered(c) == data)
       <==> Safe(d) || Recovered(d.(bak := Absent)) == Recovered(d) || Recovered(d.(bak := Absent)) == data
  {
    var states := SaveStates(d, data, true, NO_FAULTS);
    if Safe(d) {
      forall c | c in states
        ensures Recovered(c) == Recovered(d) || Recovered(c) == data
      {
        CrashInSave(d, data, true, NO_FAULTS, c);
      }
    } else {
      var gone := d.(tmp := Valid(data), bak := Absent);
      assert states[2] == gone;
      assert Recovered(gone) == Recovered(d.(bak := Absent));
      forall c | c in states
        ensures Recovered(c) == Recovered(d) || Recovered(c) == data || Recovered(c) == Recovered(gone)
      {
        SavePoint(d, data, true, NO_FAULTS, c);
      }
    }
  }

  // ---------- crashing inside recovery ----------

  /** Every disk reached inside recovery, whichever file operations fail, recovers to the same accounts and
      keeps the backup. */
  lemma CrashInRecovery(d: Disk, f: Faults, c: Disk)
    requires c in Recover(d, f).states
    ensures Recovered(c) == Recovered(d) && c.bak == d.bak
    ensures c.accounts == d.accounts || c.accounts == Valid(Recovered(d))
  {
    if d.bak.Valid? {
      SavePoint(d, d.bak.data, false, f, c);
    } else if d.session.Valid? {
      CrashInMigration(d, f, c);
    } else {
      SavePoint(d, SingleAccount(d.migrated.data), false, f, c);
    }
  }

  lemma CrashInMigration(d: Disk, f: Faults, c: Disk)
    requires !d.accounts.Valid? && !d.bak.Valid? && d.session.Valid?
    requires c in Recover(d, f).states
    ensures Recovered(c) == Recovered(d) && c.bak == d.bak
    ensures c.accounts == d.accounts || c.accounts == Valid(Recovered(d))
  {
    var data := SingleAccount(d.session.data);
    var saved := SaveStates(d, data, false, f);
    if c in saved {
      SavePoint(d, data, false, f, c);
    } else {
      SaveEnd(d, data, false, f);
      SavePoint(d, data, false, f, Final(d, saved));
    }
  }

  /** Recovery leaves the recovered accounts in `accounts.json` (unless there was nothing to recover),
      leaves the backup alone, and a second recovery does nothing. */
  lemma RecoveryIsIdempotent(d: Disk)
    ensures var e := AfterRecovery(d);
            && Recovered(e) == Recovered(d)
            && Recover(e).states == []
            && e.bak == d.bak
            && (e.accounts == Valid(Recovered(d)) || (e == d && Recovered(d) == NO_ACCOUNTS))
            && Safe(e)
  {
    var states := Recover(d).states;
    if states != [] {
      CrashInRecovery(d, NO_FAULTS, AfterRecovery(d));
      SaveEnd(d, Recovered(d), false, NO_FAULTS);
    }
  }

  /** A start-up whose write-back fails goes on with the right accounts, but leaves the disk as unsafe for
      rolling saves as it found it: over a corrupt main file with a good backup. */
  lemma FailedWriteBackStaysUnsafe(d: Disk, f: Faults)
    ensures Recovered(AfterRecovery(d, f)) == Recovered(d)
    ensures Safe(AfterRecovery(d, f)) <==> Safe(d) || SaveOk(f)
    ensures !Safe(AfterRecovery(d, f)) ==> Recover(d, f).starts
  {
    var states := Recover(d, f).states;
    if states != [] {
      CrashInRecovery(d, f, AfterRecovery(d, f));
      SaveEnd(d, Recovered(d), false, f);
    }
  }

  /** And so accounts can be lost: a start-up restores them from the backup but cannot write them back, and
      the next save dies between removing the backup and renaming. */
  lemma BackupCanBeLost(accounts: AccountsData, next: AccountsData)
    ensures var d := Disk(Corrupt, Valid(accounts), Absent, Absent, Absent);
            var e := AfterRecovery(d, NO_FAULTS.(write := Fails));
            && Recovered(e) == accounts
            && exists c :: c in SaveStates(e, next, true, NO_FAULTS) && Recovered(c) == NO_ACCOUNTS
  {
    var d := Disk(Corrupt, Valid(accounts), Absent, Absent, Absent);
    var e := AfterRecovery(d, NO_FAULTS.(write := Fails));
    assert e == d;
    var states := SaveStates(d, next, true, NO_FAULTS);
    var c := d.(tmp := Valid(next), bak := Absent);
    assert states[2] == c;
    assert c in states && Recovered(c) == NO_ACCOUNTS;
  }

  /** A start-up cut short after so many file steps, or with failing file operations. */
  datatype Attempt = Attempt(steps: nat, faults: Faults)

  /** The disk after a series of such start-ups. */
  function Interrupted(d: Disk, tries: seq<Attempt>): Disk
    decreases |tries|
  {
    if tries == [] then d
    else
      var states := Recover(d, tries[0].faults).states;
      Interrupted(Final(d, states[..Min(tries[0].steps, |states|)]), tries[1..])
  }

  /** However often recovery fails or is cut short and rerun, the accounts and the backup are those of an
      uninterrupted recovery. */
  lemma {:induction false} InterruptedRecovery(d: Disk, tries: seq<Attempt>)
    ensures Recovered(Interrupted(d, tries)) == Recovered(d)
    ensures AfterRecovery(Interrupted(d, tries)).accounts == AfterRecovery(d).accounts
    ensures AfterRecovery(Interrupted(d, tries)).bak == d.bak
    decreases |tries|
  {
    RecoveryIsIdempotent(d);
    if tries != [] {
      var states := Recover(d, tries[0].faults).states;
      var steps := Min(tries[0].steps, |states|);
      var c := Final(d, states[..steps]);
      if steps > 0 {
        assert c == states[steps - 1];
        CrashInRecovery(d, tries[0].faults, c);
      }
      RecoveryIsIdempotent(c);
      InterruptedRecovery(c, tries[1..]);
    }
  }

  // ---------- whole lives of the program ----------

  /** `committed` is what the last successful save or start-up stands for. */
  datatype Machine = Machine(disk: Disk, mem: AccountsData, committed: AccountsData)

  /** The start-ups after the program has died: some fail or are cut short, and one with these faults in
      its file operations starts. */
  datatype Comeback = Comeback(tries: seq<Attempt>, boot: Faults)

  datatype Event =
    | Call(op: Op, f: Faults)
    /** The program dies after `k` file steps of the call's save. */
    | Crash(op: Op, f: Faults, k: nat, back: Comeback)
    | Restart(back: Comeback)

  function Boot(d: Disk, f: Faults): Machine { Machine(AfterRecovery(d, f), Recovered(d), Recovered(d)) }

  function CrashDisk(d: Disk, states: seq<Disk>, k: nat): Disk { Final(d, states[..Min(k, |states|)]) }

  /** The disk an event leaves before any start-up. */
  function DiskAfter(m: Machine, e: Event): Disk {
    match e
    case Call(op, f) =>
      (match Apply(m.mem, op)
       case None => m.disk
       case Some(next) => Final(m.disk, SaveStates(m.disk, next, true, f)))
    case Crash(op, f, k, _) =>
      (match Apply(m.mem, op)
       case None => m.disk
       case Some(next) => CrashDisk(m.disk, SaveStates(m.disk, next, true, f), k))
    case Restart(_) => m.disk
  }

  function ComeBack(d: Disk, back: Comeback): Machine { Boot(Interrupted(d, back.tries), back.boot) }

  function Next(m: Machine, e: Event): Machine {
    match e
    case Call(op, f) =>
      (match Apply(m.mem, op)
       case None => m
       case Some(next) => Machine(DiskAfter(m, e), next, if SaveOk(f) then next else m.committed))
    case Crash(_, _, _, back) => ComeBack(DiskAfter(m, e), back)
    case Restart(back) => ComeBack(m.disk, back)
  }

  /** The last start-up of an event really starts. */
  predicate Starts(m: Machine, e: Event) {
    !e.Call? ==> Recover(Interrupted(DiskAfter(m, e), e.back.tries), e.back.boot).starts
  }

  predicate Life(m: Machine, es: seq<Event>)
    decreases |es|
  {
    es != [] ==> Starts(m, es[0]) && Life(Next(m, es[0]), es[1..])
  }

  predicate WellFormed(data: AccountsData) {
    && (forall i, j :: 0 <= i < j < |data.users| ==> data.users[i].uid != data.users[j].uid)
    && (data.activeUid.Some? ==> HasUser(data, data.activeUid.value))
  }

  /** Losing the backup costs nothing here: saves may roll it, or without it recovery finds the same. */
  predicate Guarded(d: Disk) { Safe(d) || Recovered(d.(bak := Absent)) == Recovered(d) }

  ghost predicate Consistent(m: Machine) {
    Guarded(m.disk) && Recovered(m.disk) == m.committed && WellFormed(m.mem) && WellFormed(m.committed)
  }

  lemma {:induction false} RemainingIs(users: seq<UserAuth>, uid: nat)
    requires forall i, j :: 0 <= i < j < |users| ==> users[i].uid != users[j].uid
    ensures var rest := Remaining(users, uid);
            && (forall i, j :: 0 <= i < j < |rest| ==> rest[i].uid != rest[j].uid)
            && (forall u :: u in rest <==> u in users && u.uid != uid)
  {
    if users != [] {
      var front, last := users[..|users| - 1], users[|users| - 1];
      RemainingIs(front, uid);
      assert users == front + [last];
    }
  }

  lemma {:induction false} RemainingCount(users: seq<UserAuth>, uid: nat)
    ensures |Remaining(users, uid)| <= |users|
    ensures |Remaining(users, uid)| == |users| <==> forall u :: u in users ==> u.uid != uid
  {
    if users != [] {
      var front, last := users[..|users| - 1], users[|users| - 1];
      RemainingCount(front, uid);
      assert users == front + [last];
    }
  }

  lemma HasUserMember(data: AccountsData, uid: nat)
    ensures HasUser(data, uid) <==> exists u :: u in data.users && u.uid == uid
  {
    if HasUser(data, uid) {
      assert data.users[IndexOf(data.users, uid)] in data.users;
    }
  }

  /** Account operations keep uids distinct and the active uid either unset or one of them. */
  lemma ApplyKeepsWellFormed(data: AccountsData, op: Op)
    requires WellFormed(data)
    ensures Apply(data, op).Some? ==> WellFormed(Apply(data, op).value)
  {
    match op
    case AddUser(user) =>
      var i := IndexOf(data.users, user.uid);
      if i < |data.users| {
        SlotReplaced(data, i, user);
      } else {
        UserAppended(data, user);
      }
    case SetActive(_) =>
    case SetConfig(uid, config) =>
      var i := IndexOf(data.users, uid);
      if i < |data.users| { SlotReplaced(data, i, data.users[i].(customConfig := config)); }
    case DeleteUser(uid) => UserRemoved(data, uid);
  }

  lemma UserAppended(data: AccountsData, user: UserAuth)
    requires WellFormed(data) && !HasUser(data, user.uid)
    ensures WellFormed(AccountsData(data.activeUid, data.users + [user]))
    ensures WellFormed(AccountsData(Some(user.uid), data.users + [user]))
  {
    var next := AccountsData(data.activeUid, data.users + [user]);
    assert next.users[|data.users|] == user;
    HasUserMember(AccountsData(Some(user.uid), next.users), user.uid);
    if data.activeUid.Some? {
      var k := IndexOf(data.users, data.activeUid.value);
      assert next.users[k].uid == data.activeUid.value;
      HasUserMember(next, data.activeUid.value);
    }
  }

  lemma UserRemoved(data: AccountsData, uid: nat)
    requires WellFormed(data)
    ensures var rest := Remaining(data.users, uid);
            && (rest != [] ==> WellFormed(AccountsData(Some(rest[0].uid), rest)))
            && WellFormed(AccountsData(None, rest))
            && (data.activeUid != Some(uid) ==> WellFormed(AccountsData(data.activeUid, rest)))
  {
    var rest := Remaining(data.users, uid);
    RemainingIs(data.users, uid);
    if rest != [] {
      assert rest[0] in rest;
      HasUserMember(AccountsData(Some(rest[0].uid), rest), rest[0].uid);
    }
    if data.activeUid.Some? && data.activeUid != Some(uid) {
      HasUserMember(data, data.activeUid.value);
      HasUserMember(AccountsData(data.activeUid, rest), data.activeUid.value);
    }
  }

  /** Replacing a user by one with the same uid keeps every uid where it was. */
  lemma SlotReplaced(data: AccountsData, i: nat, user: UserAuth)
    requires WellFormed(data) && i < |data.users| && data.users[i].uid == user.uid
    ensures WellFormed(AccountsData(data.activeUid, data.users[i := user]))
    ensures WellFormed(AccountsData(Some(user.uid), data.users[i := user]))
  {
    var next := AccountsData(data.activeUid, data.users[i := user]);
    HasUserMember(AccountsData(Some(user.uid), next.users), user.uid);
    assert next.users[i] == user;
    if data.activeUid.Some? {
      var k := IndexOf(data.users, data.activeUid.value);
      assert next.users[k].uid == data.activeUid.value;
      HasUserMember(next, data.activeUid.value);
    }
  }

  /** The accounts by uid. */
  function ByUid(users: seq<UserAuth>): map<nat, UserAuth> {
    if users == [] then map[] else ByUid(users[..|users| - 1])[users[|users| - 1].uid := users[|users| - 1]]
  }

  lemma {:induction false} ByUidIs(users: seq<UserAuth>)
    requires forall i, j :: 0 <= i < j < |users| ==> users[i].uid != users[j].uid
    ensures forall k :: k in ByUid(users) <==> exists i :: 0 <= i < |users| && users[i].uid == k
    ensures forall i :: 0 <= i < |users| ==> users[i].uid in ByUid(users) && ByUid(users)[users[i].uid] == users[i]
  {
    if users != [] {
      var n := |users| - 1;
      var front := users[..n];
      ByUidIs(front);
      forall k | k in ByUid(users)
        ensures exists i :: 0 <= i < |users| && users[i].uid == k
      {
        if k in ByUid(front) {
          var i :| 0 <= i < |front| && front[i].uid == k;
          assert users[i].uid == k;
        } else {
          assert users[n].uid == k;
        }
      }
      forall i | 0 <= i < |users|
        ensures users[i].uid in ByUid(users) && ByUid(users)[users[i].uid] == users[i]
      {
        if i < n { assert front[i] == users[i]; }
      }
    }
  }

  lemma SameByUid(users: seq<UserAuth>, m: map<nat, UserAuth>)
    requires forall i, j :: 0 <= i < j < |users| ==> users[i].uid != users[j].uid
    requires forall k :: k in m <==> exists i :: 0 <= i < |users| && users[i].uid == k
    requires forall i :: 0 <= i < |users| ==> users[i].uid in m && m[users[i].uid] == users[i]
    ensures ByUid(users) == m
  {
    ByUidIs(users);
    forall k | k in m
      ensures k in ByUid(users) && ByUid(users)[k] == m[k]
    {
      var i :| 0 <= i < |users| && users[i].uid == k;
    }
  }

  /** Seen by uid, adding writes one entry, reconfiguring changes one entry, deleting removes one; the
      active account changes only when unset, set, or deleted. */
  lemma OperationsTouchOneAccount(data: AccountsData, op: Op)
    requires WellFormed(data) && Apply(data, op).Some?
    ensures var next := Apply(data, op).value;
            var before, after := ByUid(data.users), ByUid(next.users);
            match op
            case AddUser(u) =>
              && after == before[u.uid := u]
              && next.activeUid == (if data.activeUid == None then Some(u.uid) else data.activeUid)
            case SetActive(a) => after == before && next.activeUid == a && (a.Some? ==> a.value in before)
            case SetConfig(uid, c) =>
              && uid in before && after == before[uid := before[uid].(customConfig := c)]
              && next.activeUid == data.activeUid
            case DeleteUser(uid) =>
              && uid in before && after == before - {uid}
              && (data.activeUid != Some(uid) ==> next.activeUid == data.activeUid)
  {
    match op
    case AddUser(u) => AddedByUid(data, u);
    case SetActive(a) =>
      ByUidIs(data.users);
      if a.Some? { HasUserMember(data, a.value); }
    case SetConfig(uid, c) =>
      var i := IndexOf(data.users, uid);
      ByUidIs(data.users);
      ReplacedByUid(data.users, i, data.users[i].(customConfig := c));
    case DeleteUser(uid) =>
      RemovedByUid(data, uid);
      RemovedWasThere(data.users, uid);
  }

  lemma ReplacedByUid(users: seq<UserAuth>, i: nat, u: UserAuth)
    requires forall i, j :: 0 <= i < j < |users| ==> users[i].uid != users[j].uid
    requires i < |users| && users[i].uid == u.uid
    ensures ByUid(users[i := u]) == ByUid(users)[u.uid := u]
  {
    ByUidIs(users);
    var next := users[i := u];
    var m := ByUid(users)[u.uid := u];
    forall k
      ensures k in m <==> exists j :: 0 <= j < |next| && next[j].uid == k
    {
      if k in m {
        if k == u.uid { assert next[i].uid == k; } else {
          var j :| 0 <= j < |users| && users[j].uid == k;
          assert next[j].uid == k;
        }
      }
      if j :| 0 <= j < |next| && next[j].uid == k { assert users[j].uid == k; }
    }
    SameByUid(next, m);
  }

  lemma AddedByUid(data: AccountsData, u: UserAuth)
    requires WellFormed(data)
    ensures ByUid(Apply(data, AddUser(u)).value.users) == ByUid(data.users)[u.uid := u]
  {
    var i := IndexOf(data.users, u.uid);
    if i < |data.users| {
      ReplacedByUid(data.users, i, u);
    } else {
      assert (data.users + [u])[..|data.users|] == data.users;
    }
  }

  lemma RemainingUids(users: seq<UserAuth>, uid: nat, k: nat)
    requires forall i, j :: 0 <= i < j < |users| ==> users[i].uid != users[j].uid
    ensures k in ByUid(users) - {uid}
       <==> exists j :: 0 <= j < |Remaining(users, uid)| && Remaining(users, uid)[j].uid == k
  {
    var rest := Remaining(users, uid);
    RemainingIs(users, uid);
    ByUidIs(users);
    if j :| 0 <= j < |users| && users[j].uid == k && k != uid {
      assert users[j] in users && users[j] in rest;
      var i :| 0 <= i < |rest| && rest[i] == users[j];
      assert rest[i].uid == k;
    }
    if j :| 0 <= j < |rest| && rest[j].uid == k { assert rest[j] in rest; }
  }

  lemma RemovedByUid(data: AccountsData, uid: nat)
    requires WellFormed(data)
    ensures ByUid(Remaining(data.users, uid)) == ByUid(data.users) - {uid}
  {
    var rest, m := Remaining(data.users, uid), ByUid(data.users) - {uid};
    RemainingIs(data.users, uid);
    forall k
      ensures k in m <==> exists j :: 0 <= j < |rest| && rest[j].uid == k
    {
      RemainingUids(data.users, uid, k);
    }
    forall j | 0 <= j < |rest|
      ensures rest[j].uid in m && m[rest[j].uid] == rest[j]
    {
      StillThere(data.users, uid, j);
    }
    SameByUid(rest, m);
  }

  lemma StillThere(users: seq<UserAuth>, uid: nat, j: nat)
    requires forall i, j :: 0 <= i < j < |users| ==> users[i].uid != users[j].uid
    requires j < |Remaining(users, uid)|
    ensures var u := Remaining(users, uid)[j]; u.uid != uid && u.uid in ByUid(users) && ByUid(users)[u.uid] == u
  {
    RemainingIs(users, uid);
    ByUidIs(users);
    assert Remaining(users, uid)[j] in users;
  }

  lemma RemovedWasThere(users: seq<UserAuth>, uid: nat)
    requires forall i, j :: 0 <= i < j < |users| ==> users[i].uid != users[j].uid
    requires |Remaining(users, uid)| != |users|
    ensures uid in ByUid(users)
  {
    RemainingCount(users, uid);
    ByUidIs(users);
  }

  // ---------- what lives keep ----------

  /** Inside a save over a guarded disk, recovery finds the old or the new accounts and the disk stays
      guarded; the files left alone are the legacy ones. */
  lemma CrashInGuardedSave(d: Disk, data: AccountsData, f: Faults, c: Disk)
    requires Guarded(d) && c in SaveStates(d, data, true, f)
    ensures Guarded(c)
    ensures Recovered(c) == if c.accounts == d.accounts then Recovered(d) else data
  {
    SavePoint(d, data, true, f, c);
  }

  lemma SaveKeepsGuarded(d: Disk, data: AccountsData, f: Faults)
    requires Guarded(d)
    ensures var e := Final(d, SaveStates(d, data, true, f));
            && Guarded(e)
            && Recovered(e) == (if SaveOk(f) then data else Recovered(d))
            && (SaveOk(f) ==> e.accounts == Valid(data))
  {
    var states := SaveStates(d, data, true, f);
    SaveEnd(d, data, true, f);
    if states != [] { CrashInGuardedSave(d, data, f, Final(d, states)); }
  }

  /** Recovery never makes a disk worse: inside it a guarded disk stays guarded. */
  lemma RecoveryKeepsGuarded(d: Disk, f: Faults, n: nat)
    requires Guarded(d) && n <= |Recover(d, f).states|
    ensures Guarded(Final(d, Recover(d, f).states[..n]))
    ensures Recovered(Final(d, Recover(d, f).states[..n])) == Recovered(d)
  {
    if n > 0 {
      var c := Recover(d, f).states[n - 1];
      assert c == Final(d, Recover(d, f).states[..n]);
      CrashInRecovery(d, f, c);
      if !Safe(d) { SavePoint(d, d.bak.data, false, f, c); }
    }
  }

  lemma {:induction false} TriesKeepGuarded(d: Disk, tries: seq<Attempt>)
    requires Guarded(d)
    ensures Guarded(Interrupted(d, tries)) && Recovered(Interrupted(d, tries)) == Recovered(d)
    decreases |tries|
  {
    if tries != [] {
      var states := Recover(d, tries[0].faults).states;
      var n := Min(tries[0].steps, |states|);
      RecoveryKeepsGuarded(d, tries[0].faults, n);
      TriesKeepGuarded(Final(d, states[..n]), tries[1..]);
    }
  }

  lemma ComeBackIsConsistent(d: Disk, back: Comeback)
    requires Guarded(d) && WellFormed(Recovered(d))
    ensures Consistent(ComeBack(d, back)) && ComeBack(d, back).mem == Recovered(d)
  {
    TriesKeepGuarded(d, back.tries);
    var c := Interrupted(d, back.tries);
    var states := Recover(c, back.boot).states;
    RecoveryKeepsGuarded(c, back.boot, |states|);
    assert states[..|states|] == states;
  }

  /** What one event may do to the accounts in memory and to the committed ones. */
  ghost predicate Accounted(m: Machine, e: Event) {
    var n := Next(m, e);
    match e
    case Call(op, f) =>
      (match Apply(m.mem, op)
       case None => n == m
       case Some(next) => n.mem == next && n.committed == (if SaveOk(f) then next else m.committed)
                          && (SaveOk(f) ==> n.disk.accounts == Valid(n.mem)))
    case Crash(op, f, k, _) =>
      && n.mem == n.committed
      && (n.mem == m.committed || Apply(m.mem, op) == Some(n.mem))
    case Restart(_) => n.mem == n.committed == m.committed
  }

  lemma NextIsConsistent(m: Machine, e: Event)
    requires Consistent(m)
    ensures Consistent(Next(m, e))
    ensures Accounted(m, e)
  {
    if !e.Restart? {
      ApplyKeepsWellFormed(m.mem, e.op);
      if Apply(m.mem, e.op).Some? { InFlight(m, e); }
    }
    if !e.Call? { ComeBackIsConsistent(DiskAfter(m, e), e.back); }
  }

  lemma InFlight(m: Machine, e: Event)
    requires Consistent(m) && !e.Restart? && Apply(m.mem, e.op).Some?
    ensures Guarded(DiskAfter(m, e))
    ensures Recovered(DiskAfter(m, e)) in {m.committed, Apply(m.mem, e.op).value}
    ensures e.Call? ==> Recovered(DiskAfter(m, e)) == if SaveOk(e.f) then Apply(m.mem, e.op).value else m.committed
    ensures e.Call? && SaveOk(e.f) ==> DiskAfter(m, e).accounts == Valid(Apply(m.mem, e.op).value)
  {
    var next := Apply(m.mem, e.op).value;
    match e
    case Call(op, f) => SaveKeepsGuarded(m.disk, next, f);
    case Crash(op, f, k, _) =>
      var states := SaveStates(m.disk, next, true, f);
      var n := Min(k, |states|);
      if n > 0 {
        assert CrashDisk(m.disk, states, k) == states[n - 1];
        CrashInGuardedSave(m.disk, next, f, states[n - 1]);
      }
  }

  /** Throughout the life the disk recovers to the committed accounts, and every event is accounted for. */
  ghost predicate AlwaysAccounted(m: Machine, es: seq<Event>)
    decreases |es|
  {
    && Recovered(m.disk) == m.committed
    && (es != [] ==> Accounted(m, es[0]) && AlwaysAccounted(Next(m, es[0]), es[1..]))
  }

  lemma {:induction false} LivesAreAccounted(m: Machine, es: seq<Event>)
    requires Consistent(m)
    ensures AlwaysAccounted(m, es)
    decreases |es|
  {
    if es != [] {
      NextIsConsistent(m, es[0]);
      LivesAreAccounted(Next(m, es[0]), es[1..]);
    }
  }

  ghost predicate NeverLoses(m: Machine) { forall es :: Life(m, es) ==> AlwaysAccounted(m, es) }

  /** On an unguarded disk one death between removing the backup and renaming loses the accounts. */
  lemma UnguardedLoses(m: Machine)
    requires !Guarded(m.disk) && Recovered(m.disk) == m.committed
    ensures !NeverLoses(m)
  {
    var u := UserAuth(0, "", "");
    var lost := Recovered(m.disk.(bak := Absent));
    var op := if Apply(m.mem, AddUser(u)) != Some(lost) then AddUser(u) else AddUser(u.(credentials := "x"));
    AddingDiffers(m.mem, u, u.(credentials := "x"));
    var next := Apply(m.mem, op).value;
    var gone := m.disk.(tmp := Valid(next), bak := Absent);
    GoneAfterThree(m.disk, next);
    var e := Crash(op, NO_FAULTS, 3, Comeback([], NO_FAULTS));
    assert DiskAfter(m, e) == gone && Recovered(gone) == lost;
    assert Next(m, e).mem == lost;
    assert Starts(m, e) && [e][1..] == [];
    assert Life(m, [e]);
    assert lost != m.committed && Some(lost) != Apply(m.mem, op);
    assert !Accounted(m, e);
  }

  lemma GoneAfterThree(d: Disk, next: AccountsData)
    requires d.accounts != Absent && d.bak != Absent
    ensures CrashDisk(d, SaveStates(d, next, true, NO_FAULTS), 3) == d.(tmp := Valid(next), bak := Absent)
  {
    var states := SaveStates(d, next, true, NO_FAULTS);
    assert |states| > 3 && states[..3][2] == states[2] == d.(tmp := Valid(next), bak := Absent);
  }

  lemma AddingDiffers(data: AccountsData, u: UserAuth, v: UserAuth)
    requires u.uid == v.uid && u != v
    ensures Apply(data, AddUser(u)) != Apply(data, AddUser(v))
  {
    var a, b := Apply(data, AddUser(u)).value.users, Apply(data, AddUser(v)).value.users;
    var i := IndexOf(data.users, u.uid);
    assert a[i] == u && b[i] == v;
  }

  /**
   Durability, exactly.  Take any disk, a start-up with any failing file operations, and then any life:
   calls with failing file operations, deaths at any file step of a save, start-ups that fail or are cut
   short.  In every such life successful calls commit, failed saves lose only themselves, and a death
   costs at most the call in flight, just when the disk is safe for rolling saves, or the first start-up
   writes back what it found, or the legacy files hold the same accounts as the backup.
   */
  lemma NothingCommittedIsLost(d: Disk, f: Faults)
    requires WellFormed(Recovered(d))
    ensures NeverLoses(Boot(d, f)) <==> Guarded(d) || SaveOk(f)
  {
    var m := Boot(d, f);
    FailedWriteBackStaysUnsafe(d, f);
    if Guarded(d) || SaveOk(f) {
      if Guarded(d) {
        var states := Recover(d, f).states;
        RecoveryKeepsGuarded(d, f, |states|);
        assert states[..|states|] == states;
      }
      forall es | Life(m, es)
        ensures AlwaysAccounted(m, es)
      {
        LivesAreAccounted(m, es);
      }
    } else {
      StaysUnguarded(d, f);
      UnguardedLoses(m);
    }
  }

  lemma StaysUnguarded(d: Disk, f: Faults)
    requires !Guarded(d) && !SaveOk(f)
    ensures !Guarded(AfterRecovery(d, f))
  {
    var e := AfterRecovery(d, f);
    SaveEnd(d, d.bak.data, false, f);
    if Recover(d, f).states != [] { SavePoint(d, d.bak.data, false, f, e); }
  }

  // ---------- the rolling backup ----------

  /** The accounts written by the saves of a series of calls, in order. */
  function Saves(data: AccountsData, ops: seq<Op>): seq<AccountsData>
    decreases |ops|
  {
    if ops == [] then []
    else
      match Apply(data, ops[0])
      case None => Saves(data, ops[1..])
      case Some(next) => [next] + Saves(next, ops[1..])
  }

  function Calls(m: Machine, ops: seq<Op>): Machine
    decreases |ops|
  {
    if ops == [] then m else Calls(Next(m, Call(ops[0], NO_FAULTS)), ops[1..])
  }

  lemma RollingSave(d: Disk, data: AccountsData)
    ensures var e := Final(d, SaveStates(d, data, true, NO_FAULTS));
            e.accounts == Valid(data) && e.bak == if d.accounts == Absent then d.bak else d.accounts
  {
    SaveEnd(d, data, true, NO_FAULTS);
    var d1 := d.(tmp := Valid(data));
    var rolled := RollStates(d1, NO_FAULTS);
    var written := WriteStates(d, data, Fine);
    assert Final(d, written + rolled) == Final(d1, rolled);
  }

  /** From machine `m`, with the saves `h` behind it, `n` has the last save in its file and memory, and the
      save before in its backup; after a single save the backup is the file `m` started from. */
  predicate FileAndBackup(m: Machine, n: Machine, h: seq<AccountsData>) {
    && (h == [] ==> n == m)
    && (|h| >= 1 ==> n.disk.accounts == Valid(n.mem) && n.mem == n.committed == h[|h| - 1])
    && (|h| == 1 ==> n.disk.bak == (if m.disk.accounts == Absent then m.disk.bak else m.disk.accounts))
    && (|h| >= 2 ==> n.disk.bak == Valid(h[|h| - 2]))
  }

  lemma OneMoreSave(m: Machine, next: Machine, n: Machine, h: seq<AccountsData>)
    requires FileAndBackup(m, next, [next.mem])
    requires FileAndBackup(next, n, h)
    ensures FileAndBackup(m, n, [next.mem] + h)
  {
    var all := [next.mem] + h;
    assert |h| >= 1 ==> all[|all| - 1] == h[|h| - 1];
    assert |h| >= 2 ==> all[|all| - 2] == h[|h| - 2];
  }

  /** After a series of successful calls the file equals memory, and the backup is the save before the
      last one. */
  lemma {:induction false} BackupIsPreviousSave(m: Machine, ops: seq<Op>)
    ensures FileAndBackup(m, Calls(m, ops), Saves(m.mem, ops))
    decreases |ops|
  {
    if ops != [] {
      var next := Next(m, Call(ops[0], NO_FAULTS));
      BackupIsPreviousSave(next, ops[1..]);
      if Apply(m.mem, ops[0]).Some? {
        RollingCall(m, ops[0]);
        OneMoreSave(m, next, Calls(next, ops[1..]), Saves(next.mem, ops[1..]));
      }
    }
  }

  lemma RollingCall(m: Machine, op: Op)
    requires Apply(m.mem, op).Some?
    ensures var n := Next(m, Call(op, NO_FAULTS));
            && n.mem == n.committed == Apply(m.mem, op).value
            && n.disk.accounts == Valid(n.mem)
            && n.disk.bak == if m.disk.accounts == Absent then m.disk.bak else m.disk.accounts
  {
    RollingSave(m.disk, Apply(m.mem, op).value);
  }

  /** Corrupting `accounts.json` alone then costs at most the last save, and start-up keeps the backup. */
  lemma CorruptionLosesOneSave(m: Machine, ops: seq<Op>)
    requires |Saves(m.mem, ops)| >= 2
    ensures var h := Saves(m.mem, ops);
            var d := Calls(m, ops).disk.(accounts := Corrupt);
            && Recovered(d) == h[|h| - 2]
            && AfterRecovery(d).accounts == Valid(h[|h| - 2])
            && AfterRecovery(d).bak == Valid(h[|h| - 2])
  {
    BackupIsPreviousSave(m, ops);
    RecoveryIsIdempotent(Calls(m, ops).disk.(accounts := Corrupt));
    var d := Calls(m, ops).disk.(accounts := Corrupt);
    SaveEnd(d, d.bak.data, false, NO_FAULTS);
  }

  // ---------- the shorter chain ----------

  /** `load` and start-up find different accounts exactly when a missing main file hides a non-empty
      backup, when only a legacy file can answer, or when both account files are corrupt. */
  lemma LoadDisagrees(d: Disk)
    ensures Loaded(d) != Ok(Recovered(d)) <==>
      || (d.accounts == Absent && d.bak.Valid? && d.bak.data != NO_ACCOUNTS)
      || (!d.accounts.Valid? && !d.bak.Valid? && (d.session.Valid? || d.migrated.Valid?))
      || (d.accounts == Corrupt && d.bak == Corrupt)
  {
  }
}
