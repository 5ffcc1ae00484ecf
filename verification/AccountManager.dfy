/** The account manager: in-memory accounts, account operations, saving and start-up. */
module AccountManager {
  import opened Prelude
  import opened AccountDisk

  // ---------- what the account operations mean ----------

  datatype Op =
    | AddUser(user: UserAuth)
    | SetActive(active: Option<nat>)
    | SetConfig(uid: nat, config: string)
    | DeleteUser(uid: nat)

  function IndexOf(users: seq<UserAuth>, uid: nat): (i: nat)
    ensures i <= |users|
    ensures i < |users| ==> users[i].uid == uid
    ensures forall j :: 0 <= j < i ==> users[j].uid != uid
  {
    if users == [] || users[0].uid == uid then 0
    else
      var i := IndexOf(users[1..], uid);
      assert forall j :: 0 < j <= i ==> users[j] == users[1..][j - 1];
      i + 1
  }

  predicate HasUser(data: AccountsData, uid: nat) { IndexOf(data.users, uid) < |data.users| }

  function Remaining(users: seq<UserAuth>, uid: nat): seq<UserAuth> {
    if users == [] then []
    else
      var last := users[|users| - 1];
      Remaining(users[..|users| - 1], uid) + if last.uid != uid then [last] else []
  }

  /** The accounts after an operation, or none when the operation is refused without saving. */
  function Apply(data: AccountsData, op: Op): Option<AccountsData> {
    match op
    case AddUser(user) =>
      var i := IndexOf(data.users, user.uid);
      Some(AccountsData(
        if data.activeUid.None? then Some(user.uid) else data.activeUid,
        if i < |data.users| then data.users[i := user] else data.users + [user]))
    case SetActive(uid) =>
      if uid.Some? && !HasUser(data, uid.value) then None
      else Some(data.(activeUid := uid))
    case SetConfig(uid, config) =>
      var i := IndexOf(data.users, uid);
      if i == |data.users| then None
      else Some(data.(users := data.users[i := data.users[i].(customConfig := config)]))
    case DeleteUser(uid) =>
      var rest := Remaining(data.users, uid);
      if |rest| == |data.users| then None
      else Some(AccountsData(
        if data.activeUid == Some(uid) then (if rest == [] then None else Some(rest[0].uid)) else data.activeUid,
        rest))
  }

  // ---------- the manager ----------

  /** How a call ends: refused because the uid is unknown, performed and saved, or performed in memory with
      a failed save. */
  datatype Answer = Unknown | Saved | SaveFailed

  function OfSave(ok: bool): Answer { if ok then Saved else SaveFailed }

  class Manager {
    const fs: FileSystem
    var data: AccountsData

    constructor (fs: FileSystem, data: AccountsData)
      ensures this.fs == fs && this.data == data
    {
      this.fs := fs;
      this.data := data;
    }

    method SaveInner(roll: bool, f: Faults) returns (ok: bool)
      modifies fs
      ensures fs.trace == old(fs.trace) + SaveStates(old(fs.disk), data, roll, f)
      ensures fs.disk == Final(old(fs.disk), SaveStates(old(fs.disk), data, roll, f))
      ensures ok == SaveOk(f)
    {
      ghost var d0, t0 := fs.disk, fs.trace;
      ok := fs.WriteTmp(data, f.write);
      if !ok {
        return;
      }
      ghost var d1, t1 := fs.disk, fs.trace;
      if roll {
        fs.RollBackup(f);
      }
      ghost var d2, t2 := fs.disk, fs.trace;
      ok := fs.RenameTmp(f.rename);
      ghost var rolled := if roll then RollStates(d1, f) else [];
      assert t2 == t1 + rolled && d2 == Final(d1, rolled);
      SaveInParts(d0, data, roll, f, d1, d2, rolled);
      TraceInParts(t0, WriteStates(d0, data, f.write), rolled, RenameStates(d2, f.rename));
    }

    method Find(uid: nat) returns (i: nat)
      ensures i == IndexOf(data.users, uid)
    {
      i := 0;
      while i < |data.users| && data.users[i].uid != uid
        invariant 0 <= i <= |data.users|
        invariant forall j :: 0 <= j < i ==> data.users[j].uid != uid
      {
        i := i + 1;
      }
    }

    /** Memory changes to what the operation means, then everything is saved with a rolled backup;
        a refused operation changes nothing. */
    ghost predicate Performed(before: AccountsData, op: Op, after: AccountsData,
                              disk0: Disk, trace0: seq<Disk>, disk: Disk, trace: seq<Disk>,
                              f: Faults, answer: Answer)
    {
      match Apply(before, op)
      case None => after == before && disk == disk0 && trace == trace0 && answer == Unknown
      case Some(next) =>
        && after == next
        && trace == trace0 + SaveStates(disk0, next, true, f)
        && disk == Final(disk0, SaveStates(disk0, next, true, f))
        && answer == OfSave(SaveOk(f))
    }

    method AddUser(user: UserAuth, f: Faults) returns (answer: Answer)
      modifies this, fs
      ensures Performed(old(data), Op.AddUser(user), data, old(fs.disk), old(fs.trace), fs.disk, fs.trace, f, answer)
    {
      var i := Find(user.uid);
      if i < |data.users| {
        data := data.(users := data.users[i := user]);
      } else {
        data := data.(users := data.users + [user]);
      }
      if data.activeUid.None? {
        data := data.(activeUid := Some(user.uid));
      }
      var ok := SaveInner(true, f);
      answer := OfSave(ok);
    }

    method SetActive(uid: Option<nat>, f: Faults) returns (answer: Answer)
      modifies this, fs
      ensures Performed(old(data), Op.SetActive(uid), data, old(fs.disk), old(fs.trace), fs.disk, fs.trace, f, answer)
    {
      if uid.Some? {
        var i := Find(uid.value);
        if i == |data.users| {
          return Unknown;
        }
      }
      data := data.(activeUid := uid);
      var ok := SaveInner(true, f);
      answer := OfSave(ok);
    }

    method UpdateUserCustomConfig(uid: nat, config: string, f: Faults) returns (answer: Answer)
      modifies this, fs
      ensures Performed(old(data), SetConfig(uid, config), data, old(fs.disk), old(fs.trace), fs.disk, fs.trace, f,
                        answer)
    {
      var i := Find(uid);
      if i == |data.users| {
        return Unknown;
      }
      data := data.(users := data.users[i := data.users[i].(customConfig := config)]);
      var ok := SaveInner(true, f);
      answer := OfSave(ok);
    }

    method DeleteUser(uid: nat, f: Faults) returns (answer: Answer)
      modifies this, fs
      ensures Performed(old(data), Op.DeleteUser(uid), data, old(fs.disk), old(fs.trace), fs.disk, fs.trace, f, answer)
    {
      var rest := [];
      var i := 0;
      while i < |data.users|
        invariant 0 <= i <= |data.users|
        invariant rest == Remaining(data.users[..i], uid)
      {
        assert data.users[..i + 1][..i] == data.users[..i];
        if data.users[i].uid != uid {
          rest := rest + [data.users[i]];
        }
        i := i + 1;
      }
      assert data.users[..i] == data.users;
      if |rest| == |data.users| {
        return Unknown;
      }
      data := data.(users := rest);
      if data.activeUid == Some(uid) {
        data := data.(activeUid := if rest == [] then None else Some(rest[0].uid));
      }
      var ok := SaveInner(true, f);
      answer := OfSave(ok);
    }
  }

  /** `migrate_from_session`: start the manager from whatever the disk holds; none when the accounts found
      in a legacy file cannot be written. */
  method StartUp(fs: FileSystem, f: Faults) returns (m: Option<Manager>)
    modifies fs
    ensures m.Some? <==> Recover(old(fs.disk), f).starts
    ensures m.Some? ==> m.value.fs == fs && m.value.data == Recovered(old(fs.disk))
    ensures fs.trace == old(fs.trace) + Recover(old(fs.disk), f).states
    ensures fs.disk == AfterRecovery(old(fs.disk), f)
  {
    var mgr;
    if fs.disk.accounts.Valid? {
      mgr := new Manager(fs, fs.disk.accounts.data);
      return Some(mgr);
    }
    if fs.disk.bak.Valid? {
      mgr := new Manager(fs, fs.disk.bak.data);
      var _ := mgr.SaveInner(false, f);
      return Some(mgr);
    }
    if fs.disk.session.Valid? {
      mgr := new Manager(fs, SingleAccount(fs.disk.session.data));
      var ok := mgr.SaveInner(false, f);
      if !ok {
        return None;
      }
      fs.RetireSession(f.retire);
      return Some(mgr);
    }
    if fs.disk.migrated.Valid? {
      mgr := new Manager(fs, SingleAccount(fs.disk.migrated.data));
      var ok := mgr.SaveInner(false, f);
      return if ok then Some(mgr) else None;
    }
    mgr := new Manager(fs, NO_ACCOUNTS);
    return Some(mgr);
  }

  /** `load`: start from the account files only; fails when both are corrupt.  A good backup is
      written back without rolling, and a failure to do so is ignored. */
  method Load(fs: FileSystem, f: Faults) returns (m: Option<Manager>)
    modifies fs
    ensures m.Some? <==> Loaded(old(fs.disk)).Ok?
    ensures m.Some? ==> m.value.fs == fs && Loaded(old(fs.disk)) == Ok(m.value.data)
    ensures fs.trace == old(fs.trace)
            + if old(fs.disk).accounts == Corrupt && old(fs.disk).bak.Valid?
              then SaveStates(old(fs.disk), old(fs.disk).bak.data, false, f) else []
  {
    if fs.disk.accounts == Corrupt && fs.disk.bak == Corrupt {
      return None;
    }
    var mgr;
    if fs.disk.accounts.Valid? {
      mgr := new Manager(fs, fs.disk.accounts.data);
    } else if fs.disk.accounts == Corrupt && fs.disk.bak.Valid? {
      mgr := new Manager(fs, fs.disk.bak.data);
      var _ := mgr.SaveInner(false, f);
    } else {
      mgr := new Manager(fs, NO_ACCOUNTS);
    }
    m := Some(mgr);
  }
}
