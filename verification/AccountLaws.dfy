/** What the account operations, a whole save and a start-up mean, told on the plain data and files. */
module AccountLaws {
  import opened Prelude
  import opened AccountDisk
  import opened AccountManager
  import opened AccountRecovery

  // ---------- account operations ----------

  ghost predicate Known(data: AccountsData, uid: nat) {
    exists i :: 0 <= i < |data.users| && data.users[i].uid == uid
  }

  lemma KnownIs(data: AccountsData, uid: nat)
    ensures Known(data, uid) <==> HasUser(data, uid)
    ensures !Known(data, uid) ==> IndexOf(data.users, uid) == |data.users|
  {
  }

  /** An operation is refused exactly when it selects, configures or deletes an account that is not there. */
  lemma RefusedIs(data: AccountsData, op: Op)
    ensures Apply(data, op) == None <==>
      match op
      case AddUser(_) => false
      case SetActive(active) => active.Some? && !Known(data, active.value)
      case SetConfig(uid, _) => !Known(data, uid)
      case DeleteUser(uid) => !Known(data, uid)
  {
    match op
    case AddUser(_) =>
    case SetActive(active) => if active.Some? { KnownIs(data, active.value); }
    case SetConfig(uid, _) => KnownIs(data, uid);
    case DeleteUser(uid) =>
      RemainingCount(data.users, uid);
      if u :| u in data.users && u.uid == uid {
        var i :| 0 <= i < |data.users| && data.users[i] == u;
        assert data.users[i].uid == uid;
      }
  }

  /** Position `i` is the first with this uid. */
  predicate FirstWith(users: seq<UserAuth>, uid: nat, i: nat) {
    i < |users| && users[i].uid == uid && forall j :: 0 <= j < i ==> users[j].uid != uid
  }

  /** A known account is replaced where it stands, a new one comes last; the first account of all becomes the
      active one, and only then does the active account change. */
  lemma AddUserMeans(data: AccountsData, user: UserAuth)
    ensures var next := Apply(data, AddUser(user)).value;
            && (forall i: nat :: FirstWith(data.users, user.uid, i) ==> next.users == data.users[i := user])
            && (!Known(data, user.uid) ==> next.users == data.users + [user])
            && next.activeUid == Some(if data.activeUid == None then user.uid else data.activeUid.value)
  {
    KnownIs(data, user.uid);
    forall i: nat | FirstWith(data.users, user.uid, i)
      ensures IndexOf(data.users, user.uid) == i
    {
      FirstWithIs(data.users, user.uid, i);
    }
  }

  lemma FirstWithIs(users: seq<UserAuth>, uid: nat, i: nat)
    requires FirstWith(users, uid, i)
    ensures IndexOf(users, uid) == i
  {
  }

  /** Configuring changes the configuration of one account and nothing else. */
  lemma SetConfigMeans(data: AccountsData, uid: nat, config: string, i: nat)
    requires FirstWith(data.users, uid, i)
    ensures Apply(data, SetConfig(uid, config)) ==
      Some(AccountsData(data.activeUid, data.users[i := UserAuth(uid, data.users[i].credentials, config)]))
  {
  }

  /** Selecting changes the active account only. */
  lemma SetActiveMeans(data: AccountsData, active: Option<nat>)
    requires active.Some? ==> Known(data, active.value)
    ensures Apply(data, SetActive(active)) == Some(AccountsData(active, data.users))
  {
    if active.Some? { KnownIs(data, active.value); }
  }

  /** Deleting removes one account and keeps the order of the others.  When the active account goes, the first
      one left becomes active, or none when none is left; otherwise the active account stays. */
  lemma DeleteUserMeans(data: AccountsData, uid: nat, i: nat)
    requires WellFormed(data) && i < |data.users| && data.users[i].uid == uid
    ensures var rest := data.users[..i] + data.users[i + 1..];
            Apply(data, DeleteUser(uid)) ==
              Some(AccountsData(
                if data.activeUid != Some(uid) then data.activeUid
                else if |data.users| == 1 then None
                else Some(data.users[if i == 0 then 1 else 0].uid),
                rest))
  {
    RemainingWithout(data.users, uid, i);
  }

  /** The same for the active account with nothing assumed about the list: the first account with another uid
      becomes active, or none when there is no other. */
  lemma ActiveAfterDelete(data: AccountsData, uid: nat, j: nat)
    requires Known(data, uid) && j <= |data.users|
    requires forall k :: 0 <= k < j ==> data.users[k].uid == uid
    requires j < |data.users| ==> data.users[j].uid != uid
    ensures Apply(data, DeleteUser(uid)).Some?
    ensures Apply(data, DeleteUser(uid)).value.activeUid ==
      if data.activeUid != Some(uid) then data.activeUid
      else if j == |data.users| then None
      else Some(data.users[j].uid)
  {
    RefusedIs(data, DeleteUser(uid));
    FirstRemaining(data.users, uid, j);
  }

  lemma {:induction false} FirstRemaining(users: seq<UserAuth>, uid: nat, j: nat)
    requires j <= |users| && forall k :: 0 <= k < j ==> users[k].uid == uid
    requires j < |users| ==> users[j].uid != uid
    ensures Remaining(users, uid) == [] <==> j == |users|
    ensures j < |users| ==> Remaining(users, uid)[0] == users[j]
  {
    if users != [] {
      FirstRemaining(users[..|users| - 1], uid, if j < |users| then j else j - 1);
    }
  }

  lemma {:induction false} RemainingWithout(users: seq<UserAuth>, uid: nat, i: nat)
    requires forall j, k :: 0 <= j < k < |users| ==> users[j].uid != users[k].uid
    requires i < |users| && users[i].uid == uid
    ensures Remaining(users, uid) == users[..i] + users[i + 1..]
  {
    var n := |users| - 1;
    if i < n {
      RemainingWithout(users[..n], uid, i);
      assert users[..n][..i] + users[..n][i + 1..] + [users[n]] == users[..i] + users[i + 1..];
    } else {
      RemainingAll(users[..n], uid);
    }
  }

  lemma {:induction false} RemainingAll(users: seq<UserAuth>, uid: nat)
    requires forall j :: 0 <= j < |users| ==> users[j].uid != uid
    ensures Remaining(users, uid) == users
  {
    if users != [] {
      RemainingAll(users[..|users| - 1], uid);
      assert users == users[..|users| - 1] + [users[|users| - 1]];
    }
  }

  // ---------- saving and starting ----------

  /** The disks of an undisturbed save over an existing file with a backup: the temporary file half written and
      written, the backup removed, half copied and copied, and the temporary file renamed. */
  lemma SaveSteps(d: Disk, data: AccountsData)
    requires d.accounts != Absent && d.bak != Absent
    ensures SaveStates(d, data, true, NO_FAULTS) ==
      [d.(tmp := Corrupt), d.(tmp := Valid(data)),
       d.(tmp := Valid(data), bak := Absent), d.(tmp := Valid(data), bak := Corrupt),
       d.(tmp := Valid(data), bak := d.accounts),
       d.(accounts := Valid(data), bak := d.accounts, tmp := Absent)]
  {
  }

  /** Without rolling, or with no file to keep, the backup is never touched. */
  lemma PlainSaveSteps(d: Disk, data: AccountsData, roll: bool)
    requires !roll || d.accounts == Absent
    ensures SaveStates(d, data, roll, NO_FAULTS) ==
      [d.(tmp := Corrupt), d.(tmp := Valid(data)), d.(accounts := Valid(data), tmp := Absent)]
  {
  }

  /** Start-up finds the accounts of the first file that can be read, in the order main file, backup, session,
      migrated session; a session is one account, and it is the active one. */
  lemma FirstReadableWins(d: Disk)
    ensures d.accounts.Valid? ==> Recovered(d) == d.accounts.data
    ensures !d.accounts.Valid? && d.bak.Valid? ==> Recovered(d) == d.bak.data
    ensures !d.accounts.Valid? && !d.bak.Valid? && d.session.Valid? ==>
      Recovered(d) == AccountsData(Some(d.session.data.uid), [d.session.data])
    ensures !d.accounts.Valid? && !d.bak.Valid? && !d.session.Valid? && d.migrated.Valid? ==>
      Recovered(d) == AccountsData(Some(d.migrated.data.uid), [d.migrated.data])
    ensures !d.accounts.Valid? && !d.bak.Valid? && !d.session.Valid? && !d.migrated.Valid? ==>
      Recovered(d) == AccountsData(None, [])
  {
  }

  /** A start-up fails exactly when only a legacy file can be read and its accounts cannot be written. */
  lemma StartUpFailsWhen(d: Disk, f: Faults)
    ensures !Recover(d, f).starts <==>
      && !d.accounts.Valid? && !d.bak.Valid? && (d.session.Valid? || d.migrated.Valid?)
      && (f.write != Fine || f.rename != Fine)
  {
  }

  /** Migrating writes the accounts and renames the session file, unless a migrated one is already there; the
      other legacy start-up leaves both session files alone. */
  lemma MigrationMeans(d: Disk)
    requires !d.accounts.Valid? && !d.bak.Valid?
    ensures var e := AfterRecovery(d);
            && (d.session.Valid? && d.migrated == Absent ==> e.session == Absent && e.migrated == d.session)
            && (!d.session.Valid? || d.migrated != Absent ==> e.session == d.session && e.migrated == d.migrated)
  {
  }

  /** `load` reads the main file, or the backup when the main file is corrupt, and fails when both are. */
  lemma LoadMeans(d: Disk)
    ensures d.accounts.Valid? ==> Loaded(d) == Ok(d.accounts.data)
    ensures d.accounts == Absent ==> Loaded(d) == Ok(AccountsData(None, []))
    ensures d.accounts == Corrupt && d.bak.Valid? ==> Loaded(d) == Ok(d.bak.data)
    ensures d.accounts == Corrupt && d.bak == Absent ==> Loaded(d) == Ok(AccountsData(None, []))
    ensures d.accounts == Corrupt && d.bak == Corrupt <==> Loaded(d).Err?
  {
  }
}
