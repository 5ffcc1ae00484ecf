/**
 The account files as a disk that changes one file step at a time.  Saving and start-up recovery are
 given as the sequence of disks they pass through, so that a crash is "stop at one of them".
 */
module AccountDisk {
  import opened Prelude

  datatype UserAuth = UserAuth(uid: nat, credentials: string, customConfig: string)

  datatype AccountsData = AccountsData(activeUid: Option<nat>, users: seq<UserAuth>)

  const NO_ACCOUNTS: AccountsData := AccountsData(None, [])

  /** A file: missing, present but unreadable as JSON (also half-written), or parsed. */
  datatype Content<+T> = Absent | Corrupt | Valid(data: T)

  /** `accounts.json`, `accounts.json.bak`, the temporary file, `session.json`, `session.json.migrated`. */
  datatype Disk = Disk(
    accounts: Content<AccountsData>, bak: Content<AccountsData>, tmp: Content<AccountsData>,
    session: Content<UserAuth>, migrated: Content<UserAuth>)

  /** How a file operation of a save or a start-up turns out; a torn one fails half-way through writing. */
  datatype Outcome = Fine | Fails | FailsTorn

  datatype Faults = Faults(write: Outcome, remove: Outcome, copy: Outcome, rename: Outcome, retire: Outcome)

  const NO_FAULTS: Faults := Faults(Fine, Fine, Fine, Fine, Fine)

  function Final(d: Disk, states: seq<Disk>): Disk {
    if states == [] then d else states[|states| - 1]
  }

  lemma FinalConcat(d: Disk, a: seq<Disk>, b: seq<Disk>)
    ensures Final(d, a + b) == Final(Final(d, a), b)
  {
    if b == [] { assert a + b == a; }
  }

  // ---------- saving ----------

  function WriteStates(d: Disk, data: AccountsData, o: Outcome): seq<Disk> {
    match o
    case Fine => [d.(tmp := Corrupt), d.(tmp := Valid(data))]
    case Fails => []
    case FailsTorn => [d.(tmp := Corrupt)]
  }

  /** Removing the old backup; a failure is logged and ignored. */
  function RemoveStates(d: Disk, o: Outcome): seq<Disk> {
    if d.bak != Absent && o == Fine then [d.(bak := Absent)] else []
  }

  /** Copying `accounts.json` over the backup; a failure is logged and ignored. */
  function CopyStates(d: Disk, o: Outcome): seq<Disk> {
    match o
    case Fine => [d.(bak := Corrupt), d.(bak := d.accounts)]
    case Fails => []
    case FailsTorn => [d.(bak := Corrupt)]
  }

  function RollStates(d: Disk, f: Faults): seq<Disk> {
    if d.accounts == Absent then []
    else
      var removed := RemoveStates(d, f.remove);
      removed + CopyStates(Final(d, removed), f.copy)
  }

  function RenameStates(d: Disk, o: Outcome): seq<Disk> {
    if o == Fine then [d.(accounts := d.tmp, tmp := Absent)] else []
  }

  /** Every disk a save passes through after `d`: write the temporary file, roll the backup (if asked
      to and there is something to copy), rename the temporary file over `accounts.json`. */
  function SaveStates(d: Disk, data: AccountsData, roll: bool, f: Faults): seq<Disk> {
    var written := WriteStates(d, data, f.write);
    if f.write != Fine then written
    else
      var d1 := Final(d, written);
      var rolled := if roll then RollStates(d1, f) else [];
      var d2 := Final(d1, rolled);
      written + rolled + RenameStates(d2, f.rename)
  }

  /** A save whose write succeeds, as its three parts. */
  lemma SaveInParts(d: Disk, data: AccountsData, roll: bool, f: Faults, d1: Disk, d2: Disk, rolled: seq<Disk>)
    requires f.write == Fine && d1 == Final(d, WriteStates(d, data, f.write))
    requires rolled == (if roll then RollStates(d1, f) else []) && d2 == Final(d1, rolled)
    ensures SaveStates(d, data, roll, f) == WriteStates(d, data, f.write) + rolled + RenameStates(d2, f.rename)
    ensures Final(d, SaveStates(d, data, roll, f)) == Final(d2, RenameStates(d2, f.rename))
  {
    var written := WriteStates(d, data, f.write);
    FinalConcat(d, written, rolled);
    FinalConcat(d, written + rolled, RenameStates(d2, f.rename));
  }

  lemma TraceInParts(trace: seq<Disk>, a: seq<Disk>, b: seq<Disk>, c: seq<Disk>)
    ensures trace + a + b + c == trace + (a + b + c)
  {
  }

  predicate SaveOk(f: Faults) { f.write == Fine && f.rename == Fine }

  // ---------- start-up recovery ----------

  function SingleAccount(u: UserAuth): AccountsData { AccountsData(Some(u.uid), [u]) }

  /** Renaming the migrated session file; a failure is logged and ignored. */
  function RetireStates(d: Disk, o: Outcome): seq<Disk> {
    if d.migrated == Absent && o == Fine then [d.(migrated := d.session, session := Absent)] else []
  }

  /** The accounts a start-up finds, whether it starts at all, and the disks it passes through. */
  datatype Recovery = Recovery(data: AccountsData, starts: bool, states: seq<Disk>)

  /** The recovery chain: `accounts.json`, then `.bak`, then `session.json`, then
      `session.json.migrated`, then no accounts.  When accounts found in the backup cannot be written
      back the start-up goes on; when those of a legacy file cannot, it fails. */
  function Recover(d: Disk, f: Faults := NO_FAULTS): Recovery {
    if d.accounts.Valid? then Recovery(d.accounts.data, true, [])
    else if d.bak.Valid? then Recovery(d.bak.data, true, SaveStates(d, d.bak.data, false, f))
    else if d.session.Valid? then
      var data := SingleAccount(d.session.data);
      var saved := SaveStates(d, data, false, f);
      Recovery(data, SaveOk(f), saved + if SaveOk(f) then RetireStates(Final(d, saved), f.retire) else [])
    else if d.migrated.Valid? then
      var data := SingleAccount(d.migrated.data);
      Recovery(data, SaveOk(f), SaveStates(d, data, false, f))
    else Recovery(NO_ACCOUNTS, true, [])
  }

  function Recovered(d: Disk): AccountsData { Recover(d).data }

  function AfterRecovery(d: Disk, f: Faults := NO_FAULTS): Disk { Final(d, Recover(d, f).states) }

  /** The shorter chain of `load`: no legacy files, a missing `accounts.json` counts as no accounts,
      and two corrupt files are an error. */
  function Loaded(d: Disk): Result<AccountsData, ()> {
    match d.accounts
    case Valid(data) => Ok(data)
    case Absent => Ok(NO_ACCOUNTS)
    case Corrupt =>
      match d.bak
      case Valid(data) => Ok(data)
      case Absent => Ok(NO_ACCOUNTS)
      case Corrupt => Err(())
  }

  // ---------- the disk as an object ----------

  /** The files, changed in place.  The ghost `trace` records every disk passed through: the points at
      which a crash could leave the machine. */
  class FileSystem {
    var disk: Disk
    ghost var trace: seq<Disk>

    constructor (disk: Disk)
      ensures this.disk == disk && trace == []
    {
      this.disk := disk;
      trace := [];
    }

    method Put(d: Disk)
      modifies this
      ensures disk == d && trace == old(trace) + [d]
    {
      disk := d;
      trace := trace + [d];
    }

    method WriteTmp(data: AccountsData, o: Outcome) returns (ok: bool)
      modifies this
      ensures trace == old(trace) + WriteStates(old(disk), data, o)
      ensures disk == Final(old(disk), WriteStates(old(disk), data, o))
      ensures ok == (o == Fine)
    {
      ok := o == Fine;
      var before := disk;
      if o != Fails {
        Put(before.(tmp := Corrupt));
      }
      if ok {
        Put(before.(tmp := Valid(data)));
      }
    }

    method RemoveBak(o: Outcome)
      modifies this
      ensures trace == old(trace) + RemoveStates(old(disk), o)
      ensures disk == Final(old(disk), RemoveStates(old(disk), o))
    {
      if disk.bak != Absent && o == Fine {
        Put(disk.(bak := Absent));
      }
    }

    method CopyToBak(o: Outcome)
      modifies this
      ensures trace == old(trace) + CopyStates(old(disk), o)
      ensures disk == Final(old(disk), CopyStates(old(disk), o))
    {
      var before := disk;
      if o != Fails {
        Put(before.(bak := Corrupt));
      }
      if o == Fine {
        Put(before.(bak := before.accounts));
      }
    }

    /** Rolling: nothing to copy, or remove the old backup and copy the main file over it. */
    method RollBackup(f: Faults)
      modifies this
      ensures trace == old(trace) + RollStates(old(disk), f)
      ensures disk == Final(old(disk), RollStates(old(disk), f))
    {
      if disk.accounts == Absent {
        return;
      }
      ghost var removed := RemoveStates(disk, f.remove);
      ghost var before := disk;
      RemoveBak(f.remove);
      FinalConcat(before, removed, CopyStates(disk, f.copy));
      CopyToBak(f.copy);
    }

    method RenameTmp(o: Outcome) returns (ok: bool)
      modifies this
      ensures trace == old(trace) + RenameStates(old(disk), o)
      ensures disk == Final(old(disk), RenameStates(old(disk), o))
      ensures ok == (o == Fine)
    {
      ok := o == Fine;
      if ok {
        Put(disk.(accounts := disk.tmp, tmp := Absent));
      }
    }

    method RetireSession(o: Outcome)
      modifies this
      ensures trace == old(trace) + RetireStates(old(disk), o)
      ensures disk == Final(old(disk), RetireStates(old(disk), o))
    {
      if disk.migrated == Absent && o == Fine {
        Put(disk.(migrated := disk.session, session := Absent));
      }
    }
  }
}
